/**
 * Rebuilding the view-setups of every file with renumbered attributes and a
 * global sequential id, and the per-file map from old to new view-setup id
 * (MergeXmlDatasets.java, lines 149-208).
 */
module ViewSetups {
  import opened Wrappers
  import opened EntityRanges
  import opened Datasets

  /** The id given to the Channel, Angle or Illumination a view-setup lacks. */
  const Undefined: int := -1

  /** A view-setup of the merged dataset: Tile is optional, the other three kinds are always there. */
  datatype NewSetup = NewSetup(id: nat, name: string, tile: Option<int>, channel: int, angle: int, illumination: int)

  /** The id a merged view-setup carries for kind `c`, if any. */
  function Attribute(v: NewSetup, c: Kind): Option<int>
  {
    match c
    case Tile => v.tile
    case Channel => Some(v.channel)
    case Angle => Some(v.angle)
    case Illumination => Some(v.illumination)
  }

  /** The renumbered id of kind `c` of `s`, or the sentinel when `s` has none. */
  function RenumberedOrUndefined(rs: map<Kind, Range>, s: Setup, c: Kind): int
    requires s.attrs.Keys <= rs.Keys
  {
    if c in s.attrs then Renumber(rs[c], s.attrs[c]) else Undefined
  }

  /**
   * Rebuilds one view-setup of a file whose ranges are `rs` under the new id
   * `id`; fails when one of its kinds has no range in that file.
   */
  function Rebuild(rs: map<Kind, Range>, s: Setup, id: nat): (r: Result<NewSetup, MergeError>)
    ensures r.Ok? <==> s.attrs.Keys <= rs.Keys
    ensures r.Err? ==> r.error == MissingEntityRange
    ensures r.Ok? ==> r.value.id == id && r.value.name == s.name
    ensures r.Ok? ==> forall c :: c in s.attrs ==> Attribute(r.value, c) == Some(Renumber(rs[c], s.attrs[c]))
    ensures r.Ok? ==> forall c :: c !in s.attrs ==>
      Attribute(r.value, c) == if c == Tile then None else Some(Undefined)
  {
    if !(s.attrs.Keys <= rs.Keys) then Err(MissingEntityRange)
    else
      Ok(NewSetup(id, s.name,
                  if Tile in s.attrs then Some(Renumber(rs[Tile], s.attrs[Tile])) else None,
                  RenumberedOrUndefined(rs, s, Channel),
                  RenumberedOrUndefined(rs, s, Angle),
                  RenumberedOrUndefined(rs, s, Illumination)))
  }

  /** Rebuilds the view-setups of one file in stored order, numbering them from `start`. */
  function RebuildFile(rs: map<Kind, Range>, setups: seq<Setup>, start: nat): (r: Result<seq<NewSetup>, MergeError>)
    ensures r.Ok? <==> forall s :: s in setups ==> s.attrs.Keys <= rs.Keys
    ensures r.Err? ==> r.error == MissingEntityRange
    ensures r.Ok? ==> |r.value| == |setups|
    ensures r.Ok? ==> forall j :: 0 <= j < |setups| ==> Rebuild(rs, setups[j], start + j) == Ok(r.value[j])
    decreases |setups|
  {
    if setups == [] then Ok([])
    else
      var n := |setups| - 1;
      assert forall s :: s in setups ==> s in setups[..n] || s == setups[n];
      match RebuildFile(rs, setups[..n], start)
      case Err(e) => Err(e)
      case Ok(vs) =>
        match Rebuild(rs, setups[n], start + n)
        case Err(e) => Err(e)
        case Ok(v) => Ok(vs + [v])
  }

  /** One more view-setup that rebuilds is appended to the file's list so far. */
  lemma RebuildFileStep(rs: map<Kind, Range>, setups: seq<Setup>, start: nat, j: nat, ws: seq<NewSetup>, v: NewSetup)
    requires j < |setups|
    requires RebuildFile(rs, setups[..j], start) == Ok(ws)
    requires Rebuild(rs, setups[j], start + j) == Ok(v)
    ensures RebuildFile(rs, setups[..j + 1], start) == Ok(ws + [v])
  {
    assert setups[..j + 1][..j] == setups[..j];
  }

  /** A view-setup that does not rebuild makes its whole file fail. */
  lemma RebuildFileStops(rs: map<Kind, Range>, setups: seq<Setup>, start: nat, j: nat, id: nat)
    requires j < |setups| && Rebuild(rs, setups[j], id).Err?
    ensures RebuildFile(rs, setups, start).Err?
  {
    assert setups[j] in setups;
  }

  /** The number of view-setups of the first `n` files: the first new id of file `n`. */
  function Offset(ds: seq<Dataset>, n: nat): nat
    requires n <= |ds|
  {
    if n == 0 then 0 else Offset(ds, n - 1) + |ds[n - 1].setups|
  }

  /** The new ids of file `f` all lie below the first new id of every later file `g`. */
  lemma {:induction false} OffsetBlocks(ds: seq<Dataset>, f: nat, g: nat)
    requires f < g <= |ds|
    ensures Offset(ds, f) + |ds[f].setups| <= Offset(ds, g)
  {
    if f + 1 < g {
      OffsetBlocks(ds, f, g - 1);
    }
  }

  /** A global position lies in the block of one file only. */
  lemma InOneBlock(ds: seq<Dataset>, f: nat, g: nat, i: int)
    requires f < |ds| && g < |ds|
    requires Offset(ds, f) <= i < Offset(ds, f) + |ds[f].setups|
    requires Offset(ds, g) <= i < Offset(ds, g) + |ds[g].setups|
    ensures f == g
  {
    if f < g {
      OffsetBlocks(ds, f, g);
    } else if g < f {
      OffsetBlocks(ds, g, f);
    }
  }

  /** `rss` holds one range map per dataset, by file position. */
  predicate OnePerFile(ds: seq<Dataset>, rss: seq<map<Kind, Range>>)
  {
    |rss| == |ds|
  }

  /** View-setup `j` of file `f` sits, rebuilt, at its global position `Offset(ds, f) + j` of `vs`. */
  predicate RebuiltAt(ds: seq<Dataset>, rss: seq<map<Kind, Range>>, vs: seq<NewSetup>, f: nat, j: nat)
    requires OnePerFile(ds, rss) && f < |ds| && j < |ds[f].setups|
  {
    Offset(ds, f) + j < |vs| && Rebuild(rss[f], ds[f].setups[j], Offset(ds, f) + j) == Ok(vs[Offset(ds, f) + j])
  }

  /**
   * Rebuilds the view-setups of the first `n` files, file by file; the new ids
   * are exactly `0 .. Offset(ds, n) - 1` in list order.
   */
  function RebuildAll(ds: seq<Dataset>, rss: seq<map<Kind, Range>>, n: nat): (r: Result<seq<NewSetup>, MergeError>)
    requires OnePerFile(ds, rss) && n <= |ds|
    ensures r.Ok? <==> forall f, s :: 0 <= f < n && s in ds[f].setups ==> s.attrs.Keys <= rss[f].Keys
    ensures r.Err? ==> r.error == MissingEntityRange
    ensures r.Ok? ==> |r.value| == Offset(ds, n)
    ensures r.Ok? ==> forall i :: 0 <= i < |r.value| ==> r.value[i].id == i
    ensures r.Ok? ==> forall f, j {:trigger RebuiltAt(ds, rss, r.value, f, j)} ::
      0 <= f < n && 0 <= j < |ds[f].setups| ==> RebuiltAt(ds, rss, r.value, f, j)
  {
    if n == 0 then Ok([])
    else
      match RebuildAll(ds, rss, n - 1)
      case Err(e) => Err(e)
      case Ok(vs) =>
        match RebuildFile(rss[n - 1], ds[n - 1].setups, Offset(ds, n - 1))
        case Err(e) => Err(e)
        case Ok(ws) =>
          var r := vs + ws;
          RebuiltAppend(ds, rss, n, vs, ws);
          Ok(r)
  }

  /**
   * Appending the rebuilt view-setups of file `n - 1` to those of the files
   * before it puts each at its global position, under that position as id.
   */
  lemma RebuiltAppend(ds: seq<Dataset>, rss: seq<map<Kind, Range>>, n: nat, vs: seq<NewSetup>, ws: seq<NewSetup>)
    requires OnePerFile(ds, rss) && 0 < n <= |ds|
    requires |vs| == Offset(ds, n - 1) && |ws| == |ds[n - 1].setups|
    requires forall i :: 0 <= i < |vs| ==> vs[i].id == i
    requires forall f, j {:trigger RebuiltAt(ds, rss, vs, f, j)} ::
      0 <= f < n - 1 && 0 <= j < |ds[f].setups| ==> RebuiltAt(ds, rss, vs, f, j)
    requires forall j :: 0 <= j < |ws| ==> Rebuild(rss[n - 1], ds[n - 1].setups[j], Offset(ds, n - 1) + j) == Ok(ws[j])
    ensures forall i :: 0 <= i < |vs + ws| ==> (vs + ws)[i].id == i
    ensures forall f, j {:trigger RebuiltAt(ds, rss, vs + ws, f, j)} ::
      0 <= f < n && 0 <= j < |ds[f].setups| ==> RebuiltAt(ds, rss, vs + ws, f, j)
  {
    var r := vs + ws;
    forall i | 0 <= i < |r| ensures r[i].id == i {
      if |vs| <= i {
        assert Rebuild(rss[n - 1], ds[n - 1].setups[i - |vs|], i) == Ok(ws[i - |vs|]);
      }
    }
    forall f, j | 0 <= f < n && 0 <= j < |ds[f].setups| ensures RebuiltAt(ds, rss, r, f, j) {
      if f < n - 1 {
        assert RebuiltAt(ds, rss, vs, f, j);
        OffsetBlocks(ds, f, n - 1);
        assert r[Offset(ds, f) + j] == vs[Offset(ds, f) + j];
      } else {
        assert r[Offset(ds, f) + j] == ws[j];
      }
    }
  }

  /** One more file whose view-setups all rebuild appends them to the list so far. */
  lemma RebuildAllStep(ds: seq<Dataset>, rss: seq<map<Kind, Range>>, f: nat, vs: seq<NewSetup>, ws: seq<NewSetup>)
    requires OnePerFile(ds, rss) && f < |ds|
    requires RebuildAll(ds, rss, f) == Ok(vs)
    requires RebuildFile(rss[f], ds[f].setups, Offset(ds, f)) == Ok(ws)
    ensures RebuildAll(ds, rss, f + 1) == Ok(vs + ws)
    ensures Offset(ds, f + 1) == Offset(ds, f) + |ws|
  {
  }

  /** A file whose view-setups do not all rebuild makes the whole rebuild fail. */
  lemma RebuildAllStops(ds: seq<Dataset>, rss: seq<map<Kind, Range>>, f: nat)
    requires OnePerFile(ds, rss) && f < |ds|
    requires RebuildFile(rss[f], ds[f].setups, Offset(ds, f)).Err?
    ensures RebuildAll(ds, rss, |ds|).Err?
  {
    var s :| s in ds[f].setups && !(s.attrs.Keys <= rss[f].Keys);
  }

  /**
   * The old-to-new view-setup id map of one file whose setups are numbered
   * from `start`, built by one `put` per view-setup in stored order.
   */
  function OldNew(setups: seq<Setup>, start: nat): map<int, nat>
  {
    if setups == [] then map[]
    else OldNew(setups[..|setups| - 1], start)[setups[|setups| - 1].id := start + |setups| - 1]
  }

  /** One more view-setup adds its old id, mapped to its new one, to the file's map. */
  lemma OldNewStep(setups: seq<Setup>, start: nat, j: nat)
    requires j < |setups|
    ensures OldNew(setups[..j + 1], start) == OldNew(setups[..j], start)[setups[j].id := start + j]
  {
    assert setups[..j + 1][..j] == setups[..j];
  }

  /** The map has a key for exactly the old ids of the file. */
  lemma {:induction false} OldNewKeys(setups: seq<Setup>, start: nat)
    ensures forall j :: 0 <= j < |setups| ==> setups[j].id in OldNew(setups, start)
    ensures forall k :: k in OldNew(setups, start) ==> exists j :: 0 <= j < |setups| && setups[j].id == k
  {
    if setups != [] {
      var n := |setups| - 1;
      var front := setups[..n];
      OldNewKeys(front, start);
      assert forall j :: 0 <= j < n ==> front[j] == setups[j];
    }
  }

  /** Every old id is sent to the new id of a view-setup of the file that has that old id. */
  lemma {:induction false} OldNewValues(setups: seq<Setup>, start: nat)
    ensures forall k :: k in OldNew(setups, start) ==>
      start <= OldNew(setups, start)[k] < start + |setups| && setups[OldNew(setups, start)[k] - start].id == k
  {
    if setups != [] {
      var n := |setups| - 1;
      var front := setups[..n];
      OldNewValues(front, start);
      var m0 := OldNew(front, start);
      var m := OldNew(setups, start);
      forall k | k in m ensures start <= m[k] < start + |setups| && setups[m[k] - start].id == k {
        if k != setups[n].id {
          assert front[m0[k] - start] == setups[m0[k] - start];
        }
      }
    }
  }

  /** `OldNewValues` for one key. */
  lemma OldNewValueAt(setups: seq<Setup>, start: nat, k: int)
    requires k in OldNew(setups, start)
    ensures start <= OldNew(setups, start)[k] < start + |setups|
    ensures setups[OldNew(setups, start)[k] - start].id == k
  {
    OldNewValues(setups, start);
  }

  /** Every new id lies below the number of view-setups of all the files. */
  lemma NewIdBelowTotal(ds: seq<Dataset>, f: nat, k: int)
    requires f < |ds| && k in OldNews(ds)[f]
    ensures OldNews(ds)[f][k] < Offset(ds, |ds|)
  {
    OldNewValueAt(ds[f].setups, Offset(ds, f), k);
    OffsetBlocks(ds, f, |ds|);
  }

  /** Within one file, distinct old ids get distinct new ids. */
  lemma OldNewInjectiveWithin(setups: seq<Setup>, start: nat, k: int, l: int)
    requires k in OldNew(setups, start) && l in OldNew(setups, start)
    requires OldNew(setups, start)[k] == OldNew(setups, start)[l]
    ensures k == l
  {
    OldNewValueAt(setups, start, k);
    OldNewValueAt(setups, start, l);
  }

  /** A repeated old id keeps the new id of its last occurrence, since a later `put` overwrites. */
  lemma {:induction false} OldNewLast(setups: seq<Setup>, start: nat)
    ensures forall k, j :: k in OldNew(setups, start) && 0 <= j < |setups| && setups[j].id == k ==>
      j <= OldNew(setups, start)[k] - start
  {
    if setups != [] {
      var n := |setups| - 1;
      var front := setups[..n];
      OldNewLast(front, start);
      var m0 := OldNew(front, start);
      var m := OldNew(setups, start);
      forall k, j | k in m && 0 <= j < |setups| && setups[j].id == k ensures j <= m[k] - start {
        if k != setups[n].id {
          assert j != n;
          assert front[j] == setups[j];
        }
      }
    }
  }

  /** The old-to-new map of every file, as built at lines 155 and 204. */
  function OldNews(ds: seq<Dataset>): (ms: seq<map<int, nat>>)
    ensures |ms| == |ds|
    ensures forall f {:trigger ms[f]} :: 0 <= f < |ds| ==> ms[f] == OldNew(ds[f].setups, Offset(ds, f))
  {
    seq(|ds|, f requires 0 <= f < |ds| => OldNew(ds[f].setups, Offset(ds, f)))
  }

  /** The old-to-new maps of the first `n` files, one file after the other. */
  function OldNewsPrefix(ds: seq<Dataset>, n: nat): (ms: seq<map<int, nat>>)
    requires n <= |ds|
    ensures |ms| == n
  {
    if n == 0 then [] else OldNewsPrefix(ds, n - 1) + [OldNew(ds[n - 1].setups, Offset(ds, n - 1))]
  }

  /** Entry `g` of the prefix is the map of file `g`. */
  lemma {:induction false} OldNewsPrefixAt(ds: seq<Dataset>, n: nat, g: nat)
    requires g < n <= |ds|
    ensures OldNewsPrefix(ds, n)[g] == OldNew(ds[g].setups, Offset(ds, g))
  {
    if g < n - 1 {
      OldNewsPrefixAt(ds, n - 1, g);
    }
  }

  /** Built one file after the other, the maps are those of every file. */
  lemma OldNewsPrefixComplete(ds: seq<Dataset>)
    ensures OldNewsPrefix(ds, |ds|) == OldNews(ds)
  {
    forall g | 0 <= g < |ds|
      ensures OldNewsPrefix(ds, |ds|)[g] == OldNews(ds)[g]
    {
      OldNewsPrefixAt(ds, |ds|, g);
    }
  }

  /**
   * The combined (file, old id) to new id mapping is injective: each new id
   * lies in its own file's block, and within a file distinct old ids map to
   * distinct new ids.
   */
  lemma OldNewInjective(ds: seq<Dataset>, f: nat, g: nat, k: int, l: int)
    requires f < |ds| && g < |ds|
    requires k in OldNews(ds)[f] && l in OldNews(ds)[g]
    requires OldNews(ds)[f][k] == OldNews(ds)[g][l]
    ensures f == g && k == l
  {
    var sf, sg := ds[f].setups, ds[g].setups;
    var of, og := Offset(ds, f), Offset(ds, g);
    assert OldNews(ds)[f] == OldNew(sf, of) && OldNews(ds)[g] == OldNew(sg, og);
    OldNewValueAt(sf, of, k);
    OldNewValueAt(sg, og, l);
    InOneBlock(ds, f, g, OldNew(sf, of)[k]);
    OldNewInjectiveWithin(sf, of, k, l);
  }

  /** No two pairs of a file position and an old id share a new id. */
  ghost predicate Separated(ms: seq<map<int, nat>>)
  {
    forall f, g, k, l :: 0 <= f < |ms| && 0 <= g < |ms| && k in ms[f] && l in ms[g] && ms[f][k] == ms[g][l] ==>
      f == g && k == l
  }

  /** Every new id lies below `total`. */
  ghost predicate NewIdsBelow(ms: seq<map<int, nat>>, total: nat)
  {
    forall f, k :: 0 <= f < |ms| && k in ms[f] ==> ms[f][k] < total
  }

  /** The maps of all the files keep new ids apart and below the number of view-setups. */
  lemma OldNewsSeparated(ds: seq<Dataset>)
    ensures Separated(OldNews(ds))
    ensures NewIdsBelow(OldNews(ds), Offset(ds, |ds|))
  {
    var ms := OldNews(ds);
    forall f, g, k, l | 0 <= f < |ms| && 0 <= g < |ms| && k in ms[f] && l in ms[g] && ms[f][k] == ms[g][l]
      ensures f == g && k == l
    {
      OldNewInjective(ds, f, g, k, l);
    }
    forall f, k | 0 <= f < |ms| && k in ms[f]
      ensures ms[f][k] < Offset(ds, |ds|)
    {
      NewIdBelowTotal(ds, f, k);
    }
  }

  /**
   * A single dataset whose view-setups are already numbered `0 .. n-1` in
   * stored order keeps every view-setup id.
   */
  lemma SingleDatasetKeepsIds(d: Dataset)
    requires forall j :: 0 <= j < |d.setups| ==> d.setups[j].id == j
    ensures forall k :: k in OldNews([d])[0] <==> 0 <= k < |d.setups|
    ensures forall k :: k in OldNews([d])[0] ==> OldNews([d])[0][k] == k
  {
    var m := OldNews([d])[0];
    assert Offset([d], 0) == 0;
    assert m == OldNew(d.setups, 0);
    OldNewKeys(d.setups, 0);
    forall k | k in m ensures 0 <= k < |d.setups| && m[k] == k {
      OldNewValueAt(d.setups, 0, k);
    }
    forall k | 0 <= k < |d.setups| ensures k in m {
      assert d.setups[k].id == k;
    }
  }
}
