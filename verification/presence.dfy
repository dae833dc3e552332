/**
 * The presence table of the merged dataset and the list of its missing views
 * (MergeXmlDatasets.java, lines 233-273).
 */
module Presence {
  import opened Datasets
  import opened ViewSetups
  import opened Registrations

  /** View `v` of dataset `d` is registered, names a view-setup that `m` renumbers and is not missing. */
  predicate Shows(d: Dataset, m: map<int, nat>, v: ViewId)
  {
    v in d.registrations && v.setup in m && v !in d.missing
  }

  /** The cell of the merged table that view `v` lands on once `m` renumbers its view-setup. */
  function Cell(m: map<int, nat>, v: ViewId): ViewId
    requires v.setup in m
  {
    ViewId(v.tp, m[v.setup])
  }

  /** The cells that the views `views` of dataset `d` mark present. */
  function PresentIn(d: Dataset, m: map<int, nat>, views: set<ViewId>): set<ViewId>
  {
    set v | v in views && Shows(d, m, v) :: Cell(m, v)
  }

  /** The cells that the first `n` files mark present. */
  function PresentUpTo(ds: seq<Dataset>, ms: seq<map<int, nat>>, n: nat): set<ViewId>
    requires n <= |ds| == |ms|
  {
    if n == 0 then {}
    else PresentUpTo(ds, ms, n - 1) + PresentIn(ds[n - 1], ms[n - 1], ds[n - 1].registrations.Keys)
  }

  /** Every cell a file's view shows is present. */
  lemma {:induction false} ShownIsPresent(ds: seq<Dataset>, ms: seq<map<int, nat>>, n: nat, f: nat, v: ViewId)
    requires f < n <= |ds| == |ms| && Shows(ds[f], ms[f], v)
    ensures Cell(ms[f], v) in PresentUpTo(ds, ms, n)
  {
    if f < n - 1 {
      ShownIsPresent(ds, ms, n - 1, f, v);
    } else {
      assert Cell(ms[f], v) in PresentIn(ds[f], ms[f], ds[f].registrations.Keys);
    }
  }

  /** Every present cell is shown by a view of one of the files. */
  lemma {:induction false} PresentIsShown(ds: seq<Dataset>, ms: seq<map<int, nat>>, n: nat, c: ViewId)
    returns (f: nat, v: ViewId)
    requires n <= |ds| == |ms| && c in PresentUpTo(ds, ms, n)
    ensures f < n && Shows(ds[f], ms[f], v) && Cell(ms[f], v) == c
  {
    if c in PresentUpTo(ds, ms, n - 1) {
      f, v := PresentIsShown(ds, ms, n - 1, c);
    } else {
      f := n - 1;
      v :| v in ds[f].registrations.Keys && Shows(ds[f], ms[f], v) && Cell(ms[f], v) == c;
    }
  }

  /**
   * A view missing in its source file is marked present neither by the first
   * `n` files nor by any views of file `g`.
   */
  lemma MissingCellNotPresent(ds: seq<Dataset>, ms: seq<map<int, nat>>, f: nat, v: ViewId, n: nat, g: nat,
                              views: set<ViewId>)
    requires |ds| == |ms| && Separated(ms)
    requires f < |ds| && v.setup in ms[f] && v in ds[f].missing
    requires n <= |ds| && g < |ds|
    ensures Cell(ms[f], v) !in PresentUpTo(ds, ms, n)
    ensures Cell(ms[f], v) !in PresentIn(ds[g], ms[g], views)
  {
    var c := Cell(ms[f], v);
    if c in PresentUpTo(ds, ms, n) {
      var h, w := PresentIsShown(ds, ms, n, c);
    }
  }

  /** One more view adds its cell when it shows, and nothing otherwise. */
  lemma PresentInAdd(d: Dataset, m: map<int, nat>, views: set<ViewId>, v: ViewId)
    ensures Shows(d, m, v) ==> PresentIn(d, m, views + {v}) == PresentIn(d, m, views) + {Cell(m, v)}
    ensures !Shows(d, m, v) ==> PresentIn(d, m, views + {v}) == PresentIn(d, m, views)
  {
  }

  /** Every id of `tps` indexes a table of `nT` time points. */
  predicate TimePointsBelow(tps: set<int>, nT: int)
  {
    forall t :: t in tps ==> 0 <= t < nT
  }

  /**
   * The table after marking the first `n` files: their time points all fit
   * in its `nT` rows and the cells holding `true` are those they present.
   */
  ghost predicate MarkedUpTo(ds: seq<Dataset>, ms: seq<map<int, nat>>, n: nat, cells: set<ViewId>, nT: int)
    requires n <= |ds| == |ms|
  {
    TimePointsBelow(RegisteredTimePoints(ds, n), nT) && cells == PresentUpTo(ds, ms, n)
  }

  /**
   * The table after marking the views `done` of dataset `d`: their time
   * points fit and they added exactly the cells they present to `before`.
   */
  ghost predicate MarkedIn(d: Dataset, m: map<int, nat>, done: set<ViewId>, before: set<ViewId>,
                           cells: set<ViewId>, nT: int)
  {
    TimePointsBelow(TimePointsOf(done), nT) && cells == before + PresentIn(d, m, done)
  }

  /** Before any file is marked, nothing is. */
  lemma MarkedNothing(ds: seq<Dataset>, ms: seq<map<int, nat>>, nT: int)
    requires |ds| == |ms|
    ensures MarkedUpTo(ds, ms, 0, {}, nT)
  {
  }

  /** Before any view of a file is marked, the table is as the earlier files left it. */
  lemma MarkedInNothing(d: Dataset, m: map<int, nat>, before: set<ViewId>, nT: int)
    ensures MarkedIn(d, m, {}, before, before, nT)
  {
    assert PresentIn(d, m, {}) == {};
  }

  /**
   * Marking one more view whose time point fits sets its cell to whether it
   * shows; a cell that a view does not show was not marked before either, so
   * the view adds its cell exactly when it shows.
   */
  lemma MarkedInStep(d: Dataset, m: map<int, nat>, done: set<ViewId>, before: set<ViewId>, cells: set<ViewId>,
                     nT: int, v: ViewId, cells': set<ViewId>)
    requires MarkedIn(d, m, done, before, cells, nT)
    requires v.setup in m && 0 <= v.tp < nT
    requires !Shows(d, m, v) ==> Cell(m, v) !in before && Cell(m, v) !in PresentIn(d, m, done)
    requires cells' == if Shows(d, m, v) then cells + {Cell(m, v)} else cells - {Cell(m, v)}
    ensures MarkedIn(d, m, done + {v}, before, cells', nT)
  {
    PresentInAdd(d, m, done, v);
    TimePointsOfAdd(done, v);
    if !Shows(d, m, v) {
      assert cells' == cells;
    }
  }

  /** Marking all of file `f` extends the marks of the files before it to the files up to `f`. */
  lemma MarkedUpToStep(ds: seq<Dataset>, ms: seq<map<int, nat>>, f: nat, cells: set<ViewId>, nT: int,
                       cells': set<ViewId>)
    requires f < |ds| == |ms|
    requires MarkedUpTo(ds, ms, f, cells, nT)
    requires MarkedIn(ds[f], ms[f], ds[f].registrations.Keys, cells, cells', nT)
    ensures MarkedUpTo(ds, ms, f + 1, cells', nT)
  {
  }

  /** A registration whose time point does not fit leaves the registered time points unfit. */
  lemma OutOfBoundsStops(ds: seq<Dataset>, f: nat, v: ViewId, nT: int)
    requires f < |ds| && v in ds[f].registrations && !(0 <= v.tp < nT)
    ensures !TimePointsBelow(RegisteredTimePoints(ds, |ds|), nT)
  {
    RegisteredTimePointOf(ds, |ds|, f, v);
  }

  /** A table cell holds `true` exactly when it is one of the table's cells. */
  lemma CellsMember(table: array2<bool>, c: ViewId)
    ensures c in Cells(table) <==>
      0 <= c.tp < table.Length0 && 0 <= c.setup < table.Length1 && table[c.tp, c.setup]
  {
  }

  /** Whether the cell precedes another in time-point-major, then view-setup order. */
  predicate Before(a: ViewId, b: ViewId)
  {
    a.tp < b.tp || (a.tp == b.tp && a.setup < b.setup)
  }

  /** The cells `(t, 0) .. (t, k-1)` absent from `present`, in order. */
  function Row(present: set<ViewId>, t: int, k: nat): seq<ViewId>
  {
    if k == 0 then []
    else if ViewId(t, k - 1) in present then Row(present, t, k - 1)
    else Row(present, t, k - 1) + [ViewId(t, k - 1)]
  }

  /** The cells of the `nT` by `nS` grid absent from `present`, time point by time point. */
  function MissingList(present: set<ViewId>, nT: nat, nS: nat): seq<ViewId>
  {
    if nT == 0 then [] else MissingList(present, nT - 1, nS) + Row(present, nT - 1, nS)
  }

  lemma {:induction false} RowMember(present: set<ViewId>, t: int, k: nat, c: ViewId)
    ensures c in Row(present, t, k) <==> c.tp == t && 0 <= c.setup < k && c !in present
  {
    if k > 0 {
      RowMember(present, t, k - 1, c);
    }
  }

  lemma {:induction false} RowOrdered(present: set<ViewId>, t: int, k: nat)
    ensures forall i, j :: 0 <= i < j < |Row(present, t, k)| ==> Before(Row(present, t, k)[i], Row(present, t, k)[j])
  {
    if k > 0 {
      var r := Row(present, t, k - 1);
      RowOrdered(present, t, k - 1);
      forall i | 0 <= i < |r|
        ensures Before(r[i], ViewId(t, k - 1))
      {
        RowMember(present, t, k - 1, r[i]);
      }
    }
  }

  /** A cell is listed missing exactly when it lies in the grid and is not present. */
  lemma {:induction false} MissingListMember(present: set<ViewId>, nT: nat, nS: nat, c: ViewId)
    ensures c in MissingList(present, nT, nS) <==> 0 <= c.tp < nT && 0 <= c.setup < nS && c !in present
  {
    if nT > 0 {
      var m, r := MissingList(present, nT - 1, nS), Row(present, nT - 1, nS);
      assert MissingList(present, nT, nS) == m + r;
      MissingListMember(present, nT - 1, nS, c);
      RowMember(present, nT - 1, nS, c);
      assert c in m + r <==> c in m || c in r;
    }
  }

  /** The missing list is strictly ordered, so it names no cell twice. */
  lemma {:induction false} MissingListOrdered(present: set<ViewId>, nT: nat, nS: nat)
    ensures forall i, j :: 0 <= i < j < |MissingList(present, nT, nS)| ==>
      Before(MissingList(present, nT, nS)[i], MissingList(present, nT, nS)[j])
  {
    if nT > 0 {
      var m, r := MissingList(present, nT - 1, nS), Row(present, nT - 1, nS);
      MissingListOrdered(present, nT - 1, nS);
      RowOrdered(present, nT - 1, nS);
      forall i, j | 0 <= i < |m| && 0 <= j < |r|
        ensures Before(m[i], r[j])
      {
        MissingListMember(present, nT - 1, nS, m[i]);
        RowMember(present, nT - 1, nS, r[j]);
      }
    }
  }

  /**
   * In the merged dataset, a cell of the grid is listed missing exactly when
   * no view of any file lands on it while present in that file.
   */
  lemma MergedMissing(ds: seq<Dataset>, nT: nat, nS: nat, c: ViewId)
    ensures c in MissingList(PresentUpTo(ds, OldNews(ds), |ds|), nT, nS) <==>
      0 <= c.tp < nT && 0 <= c.setup < nS &&
      !exists f, v {:trigger Shows(ds[f], OldNews(ds)[f], v)} ::
        0 <= f < |ds| && Shows(ds[f], OldNews(ds)[f], v) && Cell(OldNews(ds)[f], v) == c
  {
    var ms := OldNews(ds);
    MissingListMember(PresentUpTo(ds, ms, |ds|), nT, nS, c);
    if c in PresentUpTo(ds, ms, |ds|) {
      var f, v := PresentIsShown(ds, ms, |ds|, c);
    }
    forall f, v | 0 <= f < |ds| && Shows(ds[f], ms[f], v)
      ensures Cell(ms[f], v) in PresentUpTo(ds, ms, |ds|)
    {
      ShownIsPresent(ds, ms, |ds|, f, v);
    }
  }

  /** A view missing in its source file stays missing in the merged dataset. */
  lemma SourceMissingStaysMissing(ds: seq<Dataset>, f: nat, v: ViewId, nT: nat, nS: nat)
    requires f < |ds| && v.setup in OldNews(ds)[f] && v in ds[f].missing
    requires 0 <= v.tp < nT && OldNews(ds)[f][v.setup] < nS
    ensures Cell(OldNews(ds)[f], v) in MissingList(PresentUpTo(ds, OldNews(ds), |ds|), nT, nS)
  {
    OldNewsSeparated(ds);
    MissingCellNotPresent(ds, OldNews(ds), f, v, |ds|, f, {});
    MissingListMember(PresentUpTo(ds, OldNews(ds), |ds|), nT, nS, Cell(OldNews(ds)[f], v));
  }

  /**
   * Merging a single dataset whose view-setups are numbered `0 .. n-1` in
   * stored order and whose registrations cover its whole `nT` by `n` grid
   * gives back exactly its own missing views.
   */
  lemma SingleDatasetKeepsMissing(d: Dataset, nT: nat, c: ViewId)
    requires forall j :: 0 <= j < |d.setups| ==> d.setups[j].id == j
    requires forall v :: v in d.registrations <==> 0 <= v.tp < nT && 0 <= v.setup < |d.setups|
    ensures c in MissingList(PresentUpTo([d], OldNews([d]), 1), nT, |d.setups|) <==>
      0 <= c.tp < nT && 0 <= c.setup < |d.setups| && c in d.missing
  {
    var m := OldNews([d])[0];
    SingleDatasetKeepsIds(d);
    MergedMissing([d], nT, |d.setups|, c);
    if 0 <= c.tp < nT && 0 <= c.setup < |d.setups| && c !in d.missing {
      assert Shows([d][0], m, c) && Cell(m, c) == c;
    }
  }

  /** The cells of a table that hold `true`. */
  function Cells(table: array2<bool>): set<ViewId>
    reads table
  {
    set t, s | 0 <= t < table.Length0 && 0 <= s < table.Length1 && table[t, s] :: ViewId(t, s)
  }

  /** Lists the cells of the table that are not marked present, time point by time point. */
  method ListMissing(table: array2<bool>) returns (missing: seq<ViewId>)
    ensures missing == MissingList(Cells(table), table.Length0, table.Length1)
  {
    ghost var present := Cells(table);
    missing := [];
    for t := 0 to table.Length0
      invariant missing == MissingList(present, t, table.Length1)
    {
      for s := 0 to table.Length1
        invariant missing == MissingList(present, t, table.Length1) + Row(present, t, s)
      {
        assert table[t, s] <==> ViewId(t, s) in present;
        if !table[t, s] {
          missing := missing + [ViewId(t, s)];
        }
      }
    }
  }
}
