/**
 * One loaded source dataset, as the merge sees it, and the extraction of the
 * id range of every attribute kind from its present views
 * (MergeXmlDatasets.java, lines 95-124).
 */
module Datasets {
  import opened EntityRanges

  /** A view: a time point id and a view-setup id. */
  datatype ViewId = ViewId(tp: int, setup: int)

  /** A view-setup of a source dataset: its id, name and one id per attribute kind it has. */
  datatype Setup = Setup(id: int, name: string, attrs: map<Kind, int>)

  /** A transform of a registration, carried along unchanged. */
  datatype Affine = Affine(name: string, matrix: seq<real>)

  /**
   * A loaded dataset: its view-setups in stored order, its time points, its
   * registrations (one transform list per registered view) and the views it
   * declares missing (an absent missing-views list is the empty set).
   */
  datatype Dataset = Dataset(
    setups: seq<Setup>,
    timePoints: set<int>,
    registrations: map<ViewId, seq<Affine>>,
    missing: set<ViewId>)

  /** The failures that abort a merge. */
  datatype MergeError =
    | MissingEntityRange          // an attribute kind with no range in its file (line 161)
    | UnmappedViewSetup           // a registration of a view-setup the file does not have (line 218)
    | TimePointIndexOutOfBounds   // a time point id outside the presence table (line 257)

  /**
   * A view-setup is present when one of its views, at some time point, is not
   * missing. `ViewDescription.isPresent` is not part of this model: this
   * assumes the view descriptions cover every time point of the dataset for
   * every view-setup, and that a view is present exactly when the dataset
   * does not list it missing.
   */
  predicate IsPresent(d: Dataset, s: Setup)
  {
    exists t :: t in d.timePoints && ViewId(t, s.id) !in d.missing
  }

  /**
   * The ids of kind `c` read off the views line 105 keeps: one view per time
   * point and view-setup, kept when the dataset does not list it missing.
   */
  ghost function ViewKindIds(d: Dataset, c: Kind): set<int>
  {
    set t, s | t in d.timePoints && s in d.setups && ViewId(t, s.id) !in d.missing && c in s.attrs
      :: s.attrs[c]
  }

  /**
   * Filtering views, as line 105 does, and filtering view-setups through
   * `IsPresent`, as `KindIds` does, collect the same ids of every kind.
   */
  lemma ViewsGiveKindIds(d: Dataset, c: Kind)
    ensures ViewKindIds(d, c) == set x | x in KindIds(d, d.setups, c)
  {
    var ids := KindIds(d, d.setups, c);
    forall x | x in ViewKindIds(d, c) ensures x in ids {
      var t, s :| t in d.timePoints && s in d.setups && ViewId(t, s.id) !in d.missing &&
        c in s.attrs && s.attrs[c] == x;
      assert IsPresent(d, s);
    }
    forall x | x in ids ensures x in ViewKindIds(d, c) {
      var s :| s in d.setups && IsPresent(d, s) && c in s.attrs && s.attrs[c] == x;
      var t :| t in d.timePoints && ViewId(t, s.id) !in d.missing;
      assert s.attrs[c] in ViewKindIds(d, c);
    }
  }

  /** The ids of kind `c` carried by the present view-setups among `setups`. */
  function KindIds(d: Dataset, setups: seq<Setup>, c: Kind): (ids: seq<int>)
    ensures forall s :: s in setups && IsPresent(d, s) && c in s.attrs ==> s.attrs[c] in ids
    ensures forall x :: x in ids ==>
      exists s :: s in setups && IsPresent(d, s) && c in s.attrs && s.attrs[c] == x
  {
    if setups == [] then []
    else
      var s := setups[|setups| - 1];
      var front := setups[..|setups| - 1];
      assert forall t :: t in setups ==> t in front || t == s;
      KindIds(d, front, c) + (if IsPresent(d, s) && c in s.attrs then [s.attrs[c]] else [])
  }

  /** The merge of the singleton ranges of `ids`, reduced from the left. */
  function Span(ids: seq<int>): (r: Range)
    requires ids != []
    ensures r.Valid() && r.shift == 0
    ensures r.lo in ids && r.hi in ids
    ensures forall x :: x in ids ==> r.Holds(x)
  {
    if |ids| == 1 then Singleton(ids[0])
    else
      var front := ids[..|ids| - 1];
      assert forall x :: x in ids ==> x in front || x == ids[|ids| - 1];
      Merge(Span(front), Singleton(ids[|ids| - 1]))
  }

  /**
   * The range of every attribute kind used by a present view-setup: the least
   * interval holding all its ids, not yet shifted.
   */
  function Extract(d: Dataset): (rs: map<Kind, Range>)
    ensures forall c :: c in rs <==> exists s :: s in d.setups && IsPresent(d, s) && c in s.attrs
    ensures forall c :: c in rs ==> rs[c].Valid() && rs[c].shift == 0
    ensures forall s, c :: s in d.setups && IsPresent(d, s) && c in s.attrs ==>
      c in rs && rs[c].Holds(s.attrs[c])
    ensures forall c :: c in rs ==>
      (exists s :: s in d.setups && IsPresent(d, s) && c in s.attrs && s.attrs[c] == rs[c].lo) &&
      (exists s :: s in d.setups && IsPresent(d, s) && c in s.attrs && s.attrs[c] == rs[c].hi)
  {
    var rs := map c | c in Kinds && KindIds(d, d.setups, c) != [] :: Span(KindIds(d, d.setups, c));
    forall c ensures c in rs <==> exists s :: s in d.setups && IsPresent(d, s) && c in s.attrs {
      var ids := KindIds(d, d.setups, c);
      assert Kinds[Index(c)] == c;
      if ids != [] {
        assert ids[0] in ids;
      }
    }
    rs
  }

  /** The ranges of every file, in file order. */
  function ExtractAll(ds: seq<Dataset>): (rss: seq<map<Kind, Range>>)
    ensures |rss| == |ds|
    ensures forall f {:trigger rss[f]} :: 0 <= f < |ds| ==> rss[f] == Extract(ds[f])
  {
    seq(|ds|, f requires 0 <= f < |ds| => Extract(ds[f]))
  }
}
