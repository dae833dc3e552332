/**
 * The per-kind bump allocator of MergeXmlDatasets.java, lines 129-144, as
 * functions of the extracted ranges: which range every (file, kind) pair ends
 * with, and what `currentOccupiedIndexes` holds after each file.
 */
module Renumbering {
  import opened Wrappers
  import opened EntityRanges
  import opened Datasets

  /** The range a map holds for kind `c`, if any. */
  function Lookup(m: map<Kind, Range>, c: Kind): (r: Option<Range>)
    ensures r.Some? <==> c in m
    ensures r.Some? ==> r.value == m[c]
  {
    if c in m then Some(m[c]) else None
  }

  /**
   * The occupied range of kind `c` once the first `n` files are processed;
   * `merge` says whether `c` is one of the kinds to merge.
   */
  function Occupied(rs: seq<map<Kind, Range>>, c: Kind, merge: bool, n: nat): Option<Range>
    requires n <= |rs|
    decreases n
  {
    if n == 0 then None
    else if c !in rs[n - 1] then Occupied(rs, c, merge, n - 1)
    else
      var prev := Occupied(rs, c, merge, n - 1);
      if prev.Some? && !merge then Some(Merge(NextAvailable(rs[n - 1][c], prev.value), prev.value))
      else Some(rs[n - 1][c])
  }

  /** The range of kind `c` of file `f` once the loop is done. */
  function Shifted(rs: seq<map<Kind, Range>>, c: Kind, merge: bool, f: nat): Range
    requires f < |rs| && c in rs[f]
  {
    var prev := Occupied(rs, c, merge, f);
    if prev.Some? && !merge then NextAvailable(rs[f][c], prev.value) else rs[f][c]
  }

  /** Every file's ranges once the loop is done. */
  function Renumbered(rs: seq<map<Kind, Range>>, toMerge: set<Kind>): seq<map<Kind, Range>>
  {
    seq(|rs|, f requires 0 <= f < |rs| => map c | c in rs[f] :: Shifted(rs, c, c in toMerge, f))
  }

  /** A file's ranges once every one of its kinds has been shifted are its renumbered ranges. */
  lemma FileRenumbered(rs: seq<map<Kind, Range>>, toMerge: set<Kind>, f: nat, ranges: map<Kind, Range>)
    requires f < |rs| && ranges.Keys == rs[f].Keys
    requires forall c :: c in rs[f] ==> ranges[c] == Shifted(rs, c, c in toMerge, f)
    ensures ranges == Renumbered(rs, toMerge)[f]
  {
  }

  /** A kind to merge is never shifted, and its occupied range is the last file's own. */
  lemma MergeKindNeverShifted(rs: seq<map<Kind, Range>>, c: Kind, f: nat)
    requires f < |rs| && c in rs[f]
    ensures Shifted(rs, c, true, f) == rs[f][c]
    ensures Occupied(rs, c, true, f + 1) == Some(rs[f][c])
  {
  }

  /** Before the first file that has kind `c`, nothing of kind `c` is occupied. */
  lemma {:induction false} NothingOccupiedBefore(rs: seq<map<Kind, Range>>, c: Kind, merge: bool, n: nat)
    requires n <= |rs|
    requires forall g :: 0 <= g < n ==> c !in rs[g]
    ensures Occupied(rs, c, merge, n) == None
  {
    if n > 0 {
      NothingOccupiedBefore(rs, c, merge, n - 1);
    }
  }

  /** The first file to introduce a kind keeps its range, which becomes the occupied one. */
  lemma FirstIntroducerKeepsRange(rs: seq<map<Kind, Range>>, c: Kind, merge: bool, f: nat)
    requires f < |rs| && c in rs[f]
    requires forall g :: 0 <= g < f ==> c !in rs[g]
    ensures Shifted(rs, c, merge, f) == rs[f][c]
    ensures Occupied(rs, c, merge, f + 1) == Some(rs[f][c])
  {
    NothingOccupiedBefore(rs, c, merge, f);
  }

  /**
   * For a kind not merged, the occupied range after a file that has it is the
   * merge of that file's shifted range and the previous occupied range, so it
   * only grows.
   */
  lemma OccupiedGrows(rs: seq<map<Kind, Range>>, c: Kind, f: nat)
    requires f < |rs| && c in rs[f]
    requires Occupied(rs, c, false, f).Some?
    ensures Occupied(rs, c, false, f + 1) == Some(Merge(Shifted(rs, c, false, f), Occupied(rs, c, false, f).value))
    ensures Occupied(rs, c, false, f + 1).value.lo <= Occupied(rs, c, false, f).value.lo
    ensures Occupied(rs, c, false, f).value.hi <= Occupied(rs, c, false, f + 1).value.hi
  {
  }

  /** Once a file with kind `c` is processed, the occupied range reaches at least as high as that file's range. */
  lemma {:induction false} OccupiedCovers(rs: seq<map<Kind, Range>>, c: Kind, f: nat, n: nat)
    requires f < n <= |rs| && c in rs[f]
    ensures Occupied(rs, c, false, n).Some?
    ensures Shifted(rs, c, false, f).hi <= Occupied(rs, c, false, n).value.hi
  {
    if n > f + 1 {
      OccupiedCovers(rs, c, f, n - 1);
    }
  }

  /**
   * For a kind not merged, the final ranges of two files never overlap: the
   * earlier file's lies wholly below the later file's.
   */
  lemma ShiftedRangesDisjoint(rs: seq<map<Kind, Range>>, c: Kind, f: nat, g: nat)
    requires f < g < |rs| && c in rs[f] && c in rs[g]
    ensures Shifted(rs, c, false, f).hi < Shifted(rs, c, false, g).lo
  {
    OccupiedCovers(rs, c, f, g);
  }

  /** Moving a range keeps the original ids it was built from. */
  lemma ShiftedKeepsOriginalIds(rs: seq<map<Kind, Range>>, c: Kind, merge: bool, f: nat, id: int)
    requires f < |rs| && c in rs[f]
    ensures Shifted(rs, c, merge, f).HeldOriginally(id) <==> rs[f][c].HeldOriginally(id)
  {
  }

  /**
   * The merge's promise about attribute ids: after renumbering, a present
   * view-setup's id of a kind not merged is below every such id of a later
   * file, so ids of distinct files never collide; a merged kind keeps its ids.
   */
  lemma {:induction false} RenumberedIdsSeparate(ds: seq<Dataset>, toMerge: set<Kind>, c: Kind,
                                                 f: nat, g: nat, s: Setup, t: Setup)
    requires f < |ds| && g < |ds|
    requires s in ds[f].setups && IsPresent(ds[f], s) && c in s.attrs
    requires t in ds[g].setups && IsPresent(ds[g], t) && c in t.attrs
    ensures c in Renumbered(ExtractAll(ds), toMerge)[f]
    ensures c in toMerge ==> Renumber(Renumbered(ExtractAll(ds), toMerge)[f][c], s.attrs[c]) == s.attrs[c]
    ensures c !in toMerge && f < g ==>
      Renumber(Renumbered(ExtractAll(ds), toMerge)[f][c], s.attrs[c])
        < Renumber(Renumbered(ExtractAll(ds), toMerge)[g][c], t.attrs[c])
  {
    var rs := ExtractAll(ds);
    var out := Renumbered(rs, toMerge);
    assert c in rs[f] && rs[f][c].HeldOriginally(s.attrs[c]);
    assert c in rs[g] && rs[g][c].HeldOriginally(t.attrs[c]);
    assert out[f][c] == Shifted(rs, c, c in toMerge, f);
    assert out[g][c] == Shifted(rs, c, c in toMerge, g);
    if c in toMerge {
      MergeKindNeverShifted(rs, c, f);
    } else if f < g {
      ShiftedKeepsOriginalIds(rs, c, false, f, s.attrs[c]);
      ShiftedKeepsOriginalIds(rs, c, false, g, t.attrs[c]);
      ShiftedRangesDisjoint(rs, c, f, g);
    }
  }
}
