/** Facts about finite sets that the iterations over map key sets need. */
module Sets {
  /** A set with no members is empty. */
  lemma EmptyIfNoMember<T>(s: set<T>)
    requires forall y :: y !in s
    ensures s == {}
  {
    assert forall y :: y !in s;
  }

  /** A non-empty set has a member to pick. */
  lemma HasMember<T>(s: set<T>)
    requires s != {}
    ensures exists x :: x in s
  {
    if forall y :: y !in s {
      EmptyIfNoMember(s);
      assert false;
    }
  }

  /** Moving one member from the part still to visit to the part visited keeps the split. */
  lemma MoveMember<T>(rest: set<T>, done: set<T>, all: set<T>, x: T)
    requires rest + done == all && rest !! done && x in rest
    ensures (rest - {x}) + (done + {x}) == all && (rest - {x}) !! (done + {x})
    ensures |done + {x}| == |done| + 1
  {
  }
}
