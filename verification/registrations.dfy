/**
 * Copying the registrations of every file across the view-setup renumbering,
 * and the time points they name (MergeXmlDatasets.java, lines 210-233).
 */
module Registrations {
  import opened Sets
  import opened Datasets
  import opened ViewSetups

  /** A registration of the merged dataset: a view and its transforms. */
  datatype Registration = Registration(view: ViewId, transforms: seq<Affine>)

  /** Every registered view of the first `n` files names a view-setup of its own file. */
  predicate AllMapped(ds: seq<Dataset>, ms: seq<map<int, nat>>, n: nat)
    requires n <= |ds| == |ms|
  {
    forall f, v :: 0 <= f < n && v in ds[f].registrations ==> v.setup in ms[f]
  }

  /** A file with an unmapped registration leaves the files unmapped. */
  lemma AllMappedStops(ds: seq<Dataset>, ms: seq<map<int, nat>>, f: nat)
    requires f < |ds| == |ms|
    requires !forall v :: v in ds[f].registrations ==> v.setup in ms[f]
    ensures !AllMapped(ds, ms, |ds|)
  {
    var v :| v in ds[f].registrations && v.setup !in ms[f];
  }

  /**
   * The registrations among `views` of dataset `d`, each moved to the new id
   * `m` gives its view-setup, with the same time point and the same transforms.
   */
  function RemappedIn(d: Dataset, m: map<int, nat>, views: set<ViewId>): set<Registration>
  {
    set v | v in views && v in d.registrations && v.setup in m ::
      Registration(ViewId(v.tp, m[v.setup]), d.registrations[v])
  }

  /** The remapped registrations of the first `n` files. */
  function RemappedUpTo(ds: seq<Dataset>, ms: seq<map<int, nat>>, n: nat): set<Registration>
    requires n <= |ds| == |ms|
  {
    if n == 0 then {}
    else RemappedUpTo(ds, ms, n - 1) + RemappedIn(ds[n - 1], ms[n - 1], ds[n - 1].registrations.Keys)
  }

  /** The number of registrations of the first `n` files. */
  function RegistrationCount(ds: seq<Dataset>, n: nat): nat
    requires n <= |ds|
  {
    if n == 0 then 0 else RegistrationCount(ds, n - 1) + |ds[n - 1].registrations|
  }

  /** The time point ids of a set of views. */
  function TimePointsOf(views: set<ViewId>): set<int>
  {
    set v | v in views :: v.tp
  }

  /** The time point ids registered by the first `n` files. */
  function RegisteredTimePoints(ds: seq<Dataset>, n: nat): set<int>
    requires n <= |ds|
  {
    if n == 0 then {} else RegisteredTimePoints(ds, n - 1) + TimePointsOf(ds[n - 1].registrations.Keys)
  }

  /** Adding one view to the views already copied adds exactly its registration. */
  lemma RemappedInAdd(d: Dataset, m: map<int, nat>, views: set<ViewId>, v: ViewId)
    requires v in d.registrations && v.setup in m
    ensures RemappedIn(d, m, views + {v}) ==
      RemappedIn(d, m, views) + {Registration(ViewId(v.tp, m[v.setup]), d.registrations[v])}
  {
  }

  /** The registrations a list holds. */
  function Elements(rs: seq<Registration>): set<Registration>
  {
    set x | x in rs
  }

  /** Appending a registration adds it to the list's elements. */
  lemma ElementsAppend(rs: seq<Registration>, x: Registration)
    ensures Elements(rs + [x]) == Elements(rs) + {x}
  {
  }

  /** The elements of two lists joined are those of both. */
  lemma ElementsConcat(rs: seq<Registration>, ts: seq<Registration>)
    ensures Elements(rs + ts) == Elements(rs) + Elements(ts)
  {
  }

  /**
   * Under a map that sends distinct old ids to distinct new ones, the views
   * `views` of `d` give as many remapped registrations as there are views.
   */
  lemma {:induction false} RemappedInCount(d: Dataset, m: map<int, nat>, views: set<ViewId>)
    requires forall v :: v in views ==> v in d.registrations && v.setup in m
    requires forall k, l :: k in m && l in m && m[k] == m[l] ==> k == l
    ensures |RemappedIn(d, m, views)| == |views|
    decreases views
  {
    if views == {} {
      assert RemappedIn(d, m, views) == {};
    } else {
      HasMember(views);
      var v :| v in views;
      var rest := views - {v};
      RemappedInCount(d, m, rest);
      RemappedInStep(d, m, views, v);
      assert views == rest + {v};
    }
  }

  /** Remapping one view more adds its registration, which the other views do not give. */
  lemma RemappedInStep(d: Dataset, m: map<int, nat>, views: set<ViewId>, v: ViewId)
    requires forall v :: v in views ==> v in d.registrations && v.setup in m
    requires forall k, l :: k in m && l in m && m[k] == m[l] ==> k == l
    requires v in views
    ensures |RemappedIn(d, m, views)| == |RemappedIn(d, m, views - {v})| + 1
  {
    var x := Registration(ViewId(v.tp, m[v.setup]), d.registrations[v]);
    assert RemappedIn(d, m, views) == RemappedIn(d, m, views - {v}) + {x};
    assert x !in RemappedIn(d, m, views - {v});
  }

  /** Every remapped registration of the first `n` files comes from a registered view of one of them. */
  lemma {:induction false} RemappedFrom(ds: seq<Dataset>, ms: seq<map<int, nat>>, n: nat, x: Registration)
    returns (g: nat, v: ViewId)
    requires n <= |ds| == |ms| && x in RemappedUpTo(ds, ms, n)
    ensures g < n && v in ds[g].registrations && v.setup in ms[g] && x.view == ViewId(v.tp, ms[g][v.setup])
  {
    if x in RemappedIn(ds[n - 1], ms[n - 1], ds[n - 1].registrations.Keys) {
      g := n - 1;
      v :| v in ds[g].registrations && v.setup in ms[g] &&
           x == Registration(ViewId(v.tp, ms[g][v.setup]), ds[g].registrations[v]);
    } else {
      g, v := RemappedFrom(ds, ms, n - 1, x);
    }
  }

  /** With jointly injective maps, no remapped registration of file `f` is one of an earlier file. */
  lemma RemappedDisjoint(ds: seq<Dataset>, ms: seq<map<int, nat>>, f: nat)
    requires f < |ds| == |ms| && Separated(ms)
    ensures RemappedUpTo(ds, ms, f) * RemappedIn(ds[f], ms[f], ds[f].registrations.Keys) == {}
  {
    var before := RemappedUpTo(ds, ms, f);
    var here := RemappedIn(ds[f], ms[f], ds[f].registrations.Keys);
    forall x | x in before ensures x !in here {
      var g, v := RemappedFrom(ds, ms, f, x);
    }
    EmptyIfNoMember(before * here);
  }

  /** Jointly injective maps are each injective. */
  lemma SeparatedWithin(ms: seq<map<int, nat>>, f: nat)
    requires f < |ms| && Separated(ms)
    ensures forall k, l :: k in ms[f] && l in ms[f] && ms[f][k] == ms[f][l] ==> k == l
  {
  }

  /** The number of remapped registrations of the first `i` files, for every `i` up to `|ds|`. */
  ghost function RemappedSizes(ds: seq<Dataset>, ms: seq<map<int, nat>>): (sizes: seq<int>)
    requires |ds| == |ms|
    ensures |sizes| == |ds| + 1
  {
    seq(|ds| + 1, i requires 0 <= i <= |ds| => |RemappedUpTo(ds, ms, i)|)
  }

  /**
   * File `f` adds one new remapped registration per registration to those of
   * the files before it.
   */
  ghost predicate AddsNew(ds: seq<Dataset>, ms: seq<map<int, nat>>, f: nat)
    requires f < |ds| == |ms|
  {
    RemappedSizes(ds, ms)[f + 1] == RemappedSizes(ds, ms)[f] + |ds[f].registrations|
  }

  /** A file whose remapped registrations are new and one per registration adds new ones. */
  lemma DisjointAddsNew(ds: seq<Dataset>, ms: seq<map<int, nat>>, f: nat)
    requires f < |ds| == |ms|
    requires |RemappedIn(ds[f], ms[f], ds[f].registrations.Keys)| == |ds[f].registrations.Keys|
    requires RemappedUpTo(ds, ms, f) * RemappedIn(ds[f], ms[f], ds[f].registrations.Keys) == {}
    ensures AddsNew(ds, ms, f)
  {
    DisjointUnionSize(ds, ms, f);
    SizesAt(ds, ms, f);
    SizesAt(ds, ms, f + 1);
  }

  /** A file whose remapped registrations are new and one per registration grows their number by its count. */
  lemma DisjointUnionSize(ds: seq<Dataset>, ms: seq<map<int, nat>>, f: nat)
    requires f < |ds| == |ms|
    requires |RemappedIn(ds[f], ms[f], ds[f].registrations.Keys)| == |ds[f].registrations.Keys|
    requires RemappedUpTo(ds, ms, f) * RemappedIn(ds[f], ms[f], ds[f].registrations.Keys) == {}
    ensures |RemappedUpTo(ds, ms, f + 1)| == |RemappedUpTo(ds, ms, f)| + |ds[f].registrations|
  {
    assert |ds[f].registrations.Keys| == |ds[f].registrations|;
  }

  /** Entry `i` of the sizes is the number of remapped registrations of the first `i` files. */
  lemma SizesAt(ds: seq<Dataset>, ms: seq<map<int, nat>>, i: nat)
    requires |ds| == |ms| && i <= |ds|
    ensures RemappedSizes(ds, ms)[i] == |RemappedUpTo(ds, ms, i)|
  {
  }

  /** Under jointly injective maps, a file whose registrations are all mapped adds new ones. */
  lemma SeparatedAddsNew(ds: seq<Dataset>, ms: seq<map<int, nat>>, f: nat)
    requires f < |ds| == |ms| && Separated(ms)
    requires forall v :: v in ds[f].registrations ==> v.setup in ms[f]
    ensures AddsNew(ds, ms, f)
  {
    SeparatedWithin(ms, f);
    RemappedInCount(ds[f], ms[f], ds[f].registrations.Keys);
    RemappedDisjoint(ds, ms, f);
    DisjointAddsNew(ds, ms, f);
  }

  /** Under jointly injective maps that map every registration, every file adds new ones. */
  lemma SeparatedAllAddNew(ds: seq<Dataset>, ms: seq<map<int, nat>>)
    requires |ds| == |ms| && Separated(ms) && AllMapped(ds, ms, |ds|)
    ensures forall f :: 0 <= f < |ds| ==> AddsNew(ds, ms, f)
  {
    forall f | 0 <= f < |ds|
      ensures AddsNew(ds, ms, f)
    {
      SeparatedAddsNew(ds, ms, f);
    }
  }

  /** Sizes that grow by each file's registrations count the registrations. */
  lemma {:induction false} CountBySteps(ds: seq<Dataset>, sizes: seq<int>, n: nat)
    requires n < |sizes| && n <= |ds| && sizes[0] == 0
    requires forall f :: 0 <= f < n ==> sizes[f + 1] == sizes[f] + |ds[f].registrations|
    ensures sizes[n] == RegistrationCount(ds, n)
  {
    if n > 0 {
      CountBySteps(ds, sizes, n - 1);
    }
  }

  /** When every file adds new remapped registrations, the files give one per registration. */
  lemma RemappedCount(ds: seq<Dataset>, ms: seq<map<int, nat>>)
    requires |ds| == |ms| && forall f :: 0 <= f < |ds| ==> AddsNew(ds, ms, f)
    ensures |RemappedUpTo(ds, ms, |ds|)| == RegistrationCount(ds, |ds|)
  {
    var sizes := RemappedSizes(ds, ms);
    forall f | 0 <= f < |ds|
      ensures sizes[f + 1] == sizes[f] + |ds[f].registrations|
    {
      assert AddsNew(ds, ms, f);
    }
    assert sizes[0] == 0;
    CountBySteps(ds, sizes, |ds|);
    assert sizes[|ds|] == |RemappedUpTo(ds, ms, |ds|)|;
  }

  /** A list has at most as many distinct elements as entries. */
  lemma {:induction false} ElementsBound(rs: seq<Registration>)
    ensures |Elements(rs)| <= |rs|
  {
    if rs != [] {
      var front := rs[..|rs| - 1];
      ElementsBound(front);
      assert rs == front + [rs[|rs| - 1]];
      ElementsAppend(front, rs[|rs| - 1]);
    }
  }

  /** A list with as many distinct elements as entries repeats none. */
  lemma DistinctWhenAllCounted(rs: seq<Registration>)
    requires |Elements(rs)| == |rs|
    ensures forall i, j :: 0 <= i < j < |rs| ==> rs[i] != rs[j]
  {
    forall i, j | 0 <= i < j < |rs| ensures rs[i] != rs[j] {
      if rs[i] == rs[j] {
        var rest := rs[..j] + rs[j + 1..];
        assert rs == rs[..j] + [rs[j]] + rs[j + 1..];
        assert Elements(rest) == Elements(rs) by {
          ElementsConcat(rs[..j], rs[j + 1..]);
          ElementsConcat(rs[..j] + [rs[j]], rs[j + 1..]);
          ElementsAppend(rs[..j], rs[j]);
          assert rs[j] in Elements(rs[..j]) by { assert rs[..j][i] == rs[j]; }
        }
        ElementsBound(rest);
      }
    }
  }

  /**
   * Registrations copied across jointly injective maps, one entry per source
   * registration, hold every remapped registration exactly once.
   */
  lemma CopiedDistinct(ds: seq<Dataset>, ms: seq<map<int, nat>>, copies: seq<Registration>)
    requires |ds| == |ms| && Separated(ms) && AllMapped(ds, ms, |ds|)
    requires Elements(copies) == RemappedUpTo(ds, ms, |ds|)
    requires |copies| == RegistrationCount(ds, |ds|)
    ensures |RemappedUpTo(ds, ms, |ds|)| == |copies|
    ensures forall i, j :: 0 <= i < j < |copies| ==> copies[i] != copies[j]
  {
    SeparatedAllAddNew(ds, ms);
    RemappedCount(ds, ms);
    DistinctWhenAllCounted(copies);
  }

  /**
   * The registrations copied across the files' own old-to-new maps hold every
   * remapped registration exactly once: one entry per source registration,
   * none repeated.
   */
  lemma CopiedOncePerRegistration(ds: seq<Dataset>, copies: seq<Registration>)
    requires AllMapped(ds, OldNews(ds), |ds|)
    requires Elements(copies) == RemappedUpTo(ds, OldNews(ds), |ds|)
    requires |copies| == RegistrationCount(ds, |ds|)
    ensures |RemappedUpTo(ds, OldNews(ds), |ds|)| == |copies|
    ensures forall i, j :: 0 <= i < j < |copies| ==> copies[i] != copies[j]
  {
    OldNewsSeparated(ds);
    CopiedDistinct(ds, OldNews(ds), copies);
  }

  /** One more view adds its time point. */
  lemma TimePointsOfAdd(views: set<ViewId>, v: ViewId)
    ensures TimePointsOf(views + {v}) == TimePointsOf(views) + {v.tp}
  {
  }

  /**
   * The state after copying the registrations `done` of dataset `d`: each
   * mapped, the list holding exactly their copies, one per registration, and
   * the cache grown from `base` by exactly their time points.
   */
  ghost predicate CopiedIn(d: Dataset, m: map<int, nat>, done: set<ViewId>, copies: seq<Registration>,
                           base: set<int>, keys: set<int>)
  {
    && (forall v :: v in done ==> v.setup in m)
    && Elements(copies) == RemappedIn(d, m, done)
    && |copies| == |done|
    && keys == base + TimePointsOf(done)
  }

  /** Copying one more registration of `d` extends the copies by it and the cache by its time point. */
  lemma CopiedInStep(d: Dataset, m: map<int, nat>, done: set<ViewId>, copies: seq<Registration>,
                     base: set<int>, keys: set<int>, v: ViewId, keys': set<int>)
    requires CopiedIn(d, m, done, copies, base, keys)
    requires v in d.registrations && v.setup in m && v !in done
    requires keys' == keys + {v.tp}
    ensures CopiedIn(d, m, done + {v}, copies + [Registration(ViewId(v.tp, m[v.setup]), d.registrations[v])],
                     base, keys')
  {
    var x := Registration(ViewId(v.tp, m[v.setup]), d.registrations[v]);
    RemappedInAdd(d, m, done, v);
    ElementsAppend(copies, x);
    TimePointsOfAdd(done, v);
  }

  /**
   * The state after copying the first `n` files: every registration mapped,
   * the list holding exactly their copies, one per registration, and the
   * cache grown from `base` by exactly their time points.
   */
  ghost predicate CopiedUpTo(ds: seq<Dataset>, ms: seq<map<int, nat>>, n: nat, copies: seq<Registration>,
                             base: set<int>, keys: set<int>)
    requires n <= |ds| == |ms|
  {
    && AllMapped(ds, ms, n)
    && Elements(copies) == RemappedUpTo(ds, ms, n)
    && |copies| == RegistrationCount(ds, n)
    && keys == base + RegisteredTimePoints(ds, n)
  }

  /** Before any file is copied, nothing is. */
  lemma CopiedNothing(ds: seq<Dataset>, ms: seq<map<int, nat>>, base: set<int>)
    requires |ds| == |ms|
    ensures CopiedUpTo(ds, ms, 0, [], base, base)
  {
    assert Elements([]) == {};
  }

  /** Before any registration of a file is copied, nothing is. */
  lemma CopiedInNothing(d: Dataset, m: map<int, nat>, base: set<int>)
    ensures CopiedIn(d, m, {}, [], base, base)
  {
    assert Elements([]) == {};
  }

  /** Copying all of file `f` extends the copies of the files before it to the files up to `f`. */
  lemma CopiedUpToStep(ds: seq<Dataset>, ms: seq<map<int, nat>>, f: nat, copies: seq<Registration>,
                       base: set<int>, keys: set<int>, more: seq<Registration>, keys': set<int>)
    requires f < |ds| == |ms|
    requires CopiedUpTo(ds, ms, f, copies, base, keys)
    requires CopiedIn(ds[f], ms[f], ds[f].registrations.Keys, more, keys, keys')
    ensures CopiedUpTo(ds, ms, f + 1, copies + more, base, keys')
  {
    assert AllMapped(ds, ms, f + 1);
    ElementsConcat(copies, more);
    assert Elements(copies + more) == RemappedUpTo(ds, ms, f + 1);
    assert keys' == base + RegisteredTimePoints(ds, f + 1);
  }

  /** The time point of every registration of the first `n` files is among their registered time points. */
  lemma {:induction false} RegisteredTimePointOf(ds: seq<Dataset>, n: nat, f: nat, v: ViewId)
    requires f < n <= |ds| && v in ds[f].registrations
    ensures v.tp in RegisteredTimePoints(ds, n)
  {
    if f < n - 1 {
      RegisteredTimePointOf(ds, n - 1, f, v);
    } else {
      assert v.tp in TimePointsOf(ds[f].registrations.Keys);
    }
  }

  /** The integers `0 .. n-1`. */
  function Interval(n: nat): (r: set<int>)
    ensures forall i :: i in r <==> 0 <= i < n
    ensures |r| == n
  {
    if n == 0 then {}
    else
      var r := Interval(n - 1) + {n - 1};
      assert n - 1 !in Interval(n - 1);
      r
  }

  /** A set of ids below `n` has at most `n` members, and `n` only when it is all of them. */
  lemma {:induction false} BoundedIds(tps: set<int>, n: nat)
    requires forall t :: t in tps ==> 0 <= t < n
    ensures |tps| <= n
    ensures |tps| == n ==> tps == Interval(n)
  {
    if n == 0 {
      assert forall t :: t !in tps;
    } else {
      var below := tps - {n - 1};
      BoundedIds(below, n - 1);
      if n - 1 in tps {
        assert tps == below + {n - 1};
      } else {
        assert tps == below;
      }
    }
  }

  /**
   * Indexing the presence table by time point id is in bounds exactly when
   * the time point ids are `0 .. n-1`, with `n` their number.
   */
  lemma TimePointsIndexable(tps: set<int>)
    ensures (forall t :: t in tps ==> 0 <= t < |tps|) <==> tps == Interval(|tps|)
  {
    if forall t :: t in tps ==> 0 <= t < |tps| {
      BoundedIds(tps, |tps|);
    }
  }
}
