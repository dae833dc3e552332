/**
 * The `MergeXmlDatasets` command object: its fields and the steps of its
 * `run` method (MergeXmlDatasets.java, lines 71-273), each step a method
 * proved against the functions that specify it.
 */
module Merger {
  import opened Wrappers
  import opened Sets
  import opened EntityRanges
  import opened Datasets
  import opened Renumbering
  import opened ViewSetups
  import opened Registrations
  import opened Presence

  /** A time point object; the cache hands out one per id. */
  class TimePoint {
    const id: int

    constructor (id: int)
      ensures this.id == id
    {
      this.id := id;
    }
  }

  /** What the merge produces before it is written out. */
  datatype Merged = Merged(
    timePoints: set<int>,
    setups: seq<NewSetup>,
    registrations: seq<Registration>,
    missing: seq<ViewId>)

  /** The cache `after` still hands out every time point object that `before` did. */
  predicate Extends(after: map<int, TimePoint>, before: map<int, TimePoint>)
  {
    forall id :: id in before ==> id in after && after[id] == before[id]
  }

  /** The kinds the four merge flags select. */
  function Flagged(tiles: bool, angles: bool, channels: bool, illuminations: bool): (ks: set<Kind>)
    ensures Tile in ks <==> tiles
    ensures Angle in ks <==> angles
    ensures Channel in ks <==> channels
    ensures Illumination in ks <==> illuminations
  {
    (if tiles then {Tile} else {}) + (if angles then {Angle} else {}) +
    (if channels then {Channel} else {}) + (if illuminations then {Illumination} else {})
  }

  /**
   * Whether the merge of these files goes through: every attribute of every
   * view-setup has a range, every registration names a view-setup of its
   * file, and the registered time point ids can index the presence table.
   */
  predicate Mergeable(ds: seq<Dataset>, rss: seq<map<Kind, Range>>)
    requires OnePerFile(ds, rss)
  {
    RebuildAll(ds, rss, |ds|).Ok? &&
    AllMapped(ds, OldNews(ds), |ds|) &&
    TimePointsBelow(RegisteredTimePoints(ds, |ds|), |RegisteredTimePoints(ds, |ds|)|)
  }

  /**
   * What merging files `ds` with renumbered ranges `rss` yields: the first
   * failing stage's error, or the merged time points, view-setups,
   * registrations and missing views.
   */
  ghost predicate MergedAs(ds: seq<Dataset>, rss: seq<map<Kind, Range>>, r: Result<Merged, MergeError>)
    requires OnePerFile(ds, rss)
  {
    && (r.Ok? <==> Mergeable(ds, rss))
    && (r.Err? ==> (r.error == MissingEntityRange <==> RebuildAll(ds, rss, |ds|).Err?))
    && (r.Err? ==> (r.error == UnmappedViewSetup <==>
                    RebuildAll(ds, rss, |ds|).Ok? && !AllMapped(ds, OldNews(ds), |ds|)))
    && (r.Ok? ==>
          && r.value.timePoints == RegisteredTimePoints(ds, |ds|)
          && r.value.setups == RebuildAll(ds, rss, |ds|).value
          && Elements(r.value.registrations) == RemappedUpTo(ds, OldNews(ds), |ds|)
          && |r.value.registrations| == RegistrationCount(ds, |ds|)
          && r.value.missing == MissingList(PresentUpTo(ds, OldNews(ds), |ds|),
                                            |r.value.timePoints|, |r.value.setups|))
  }

  class MergeXmlDatasets {
    const inputFiles: seq<Dataset>
    const mergeTiles: bool
    const mergeAngles: bool
    const mergeChannels: bool
    const mergeIlluminations: bool

    /** The ranges of every kind of every file, by file position. */
    var mapFileToEntitiesIdRange: seq<map<Kind, Range>>
    var entitiesToMerge: set<Kind>
    var viewSetupCounter: nat
    var mapIdToTp: map<int, TimePoint>

    /** The cache hands out, under every id, a time point of that id. */
    ghost predicate Valid()
      reads this`mapIdToTp
    {
      forall id :: id in mapIdToTp ==> mapIdToTp[id].id == id
    }

    constructor (inputFiles: seq<Dataset>, mergeTiles: bool, mergeAngles: bool, mergeChannels: bool,
                 mergeIlluminations: bool)
      ensures Valid()
      ensures this.inputFiles == inputFiles
      ensures this.mergeTiles == mergeTiles && this.mergeAngles == mergeAngles
      ensures this.mergeChannels == mergeChannels && this.mergeIlluminations == mergeIlluminations
      ensures mapFileToEntitiesIdRange == [] && entitiesToMerge == {}
      ensures viewSetupCounter == 0 && mapIdToTp == map[]
    {
      this.inputFiles := inputFiles;
      this.mergeTiles := mergeTiles;
      this.mergeAngles := mergeAngles;
      this.mergeChannels := mergeChannels;
      this.mergeIlluminations := mergeIlluminations;
      mapFileToEntitiesIdRange := [];
      entitiesToMerge := {};
      viewSetupCounter := 0;
      mapIdToTp := map[];
    }

    /**
     * The time point of id `id`, created and cached on the first request and
     * the cached object on every later one; `file` is not used.
     */
    method GetTimePoint(file: nat, id: int) returns (tp: TimePoint)
      requires Valid()
      modifies this`mapIdToTp
      ensures Valid()
      ensures tp.id == id && id in mapIdToTp && mapIdToTp[id] == tp
      ensures mapIdToTp.Keys == old(mapIdToTp).Keys + {id}
      ensures id in old(mapIdToTp) ==> mapIdToTp == old(mapIdToTp)
      ensures id !in old(mapIdToTp) ==> fresh(tp) && mapIdToTp == old(mapIdToTp)[id := tp]
    {
      if id !in mapIdToTp {
        tp := new TimePoint(id);
        mapIdToTp := mapIdToTp[id := tp];
      }
      tp := mapIdToTp[id];
    }

    /**
     * The whole merge: selects the kinds to merge, records and renumbers the
     * ranges, then merges the view-setups, registrations and missing views.
     * Starts from a fresh object.
     */
    method Run() returns (r: Result<Merged, MergeError>)
      requires Valid() && viewSetupCounter == 0 && mapIdToTp == map[]
      requires mapFileToEntitiesIdRange == [] && entitiesToMerge == {}
      modifies this
      ensures Valid()
      ensures entitiesToMerge == Flagged(mergeTiles, mergeAngles, mergeChannels, mergeIlluminations)
      ensures mapFileToEntitiesIdRange == Renumbered(ExtractAll(inputFiles), entitiesToMerge)
      ensures MergedAs(inputFiles, mapFileToEntitiesIdRange, r)
      ensures r.Ok? ==> viewSetupCounter == |r.value.setups| && mapIdToTp.Keys == r.value.timePoints
    {
      entitiesToMerge := entitiesToMerge + Flagged(mergeTiles, mergeAngles, mergeChannels, mergeIlluminations);
      assert entitiesToMerge == Flagged(mergeTiles, mergeAngles, mergeChannels, mergeIlluminations);
      ExtractRanges();
      assert mapFileToEntitiesIdRange == ExtractAll(inputFiles);
      RenumberRanges();
      r := MergeViews();
    }

    /**
     * The merge once the ranges are renumbered: rebuilds the view-setups,
     * copies the registrations and lists the missing views.
     */
    method MergeViews() returns (r: Result<Merged, MergeError>)
      requires Valid() && viewSetupCounter == 0 && mapIdToTp == map[]
      requires OnePerFile(inputFiles, mapFileToEntitiesIdRange)
      modifies this`viewSetupCounter, this`mapIdToTp
      ensures Valid()
      ensures MergedAs(inputFiles, mapFileToEntitiesIdRange, r)
      ensures r.Ok? ==> viewSetupCounter == |r.value.setups| && mapIdToTp.Keys == r.value.timePoints
    {
      var rebuilt := RebuildViewSetups();
      if rebuilt.Err? {
        return Err(rebuilt.error);
      }
      var (viewSetups, viewSetupIndexOldNewMap) := rebuilt.value;
      var registrations := CopyRegistrations(viewSetupIndexOldNewMap);
      if registrations.Err? {
        return Err(registrations.error);
      }
      var timePoints := mapIdToTp.Keys;
      var missingViews := MissingViews(viewSetupIndexOldNewMap);
      if missingViews.Err? {
        return Err(missingViews.error);
      }
      r := Ok(Merged(timePoints, viewSetups, registrations.value, missingViews.value));
    }

    /**
     * Builds the presence table, one row per cached time point and one column
     * per merged view-setup, marks every registered view in it and lists the
     * cells left unmarked.
     */
    method MissingViews(oldNew: seq<map<int, nat>>) returns (r: Result<seq<ViewId>, MergeError>)
      requires Valid() && oldNew == OldNews(inputFiles)
      requires viewSetupCounter == Offset(inputFiles, |inputFiles|)
      requires AllMapped(inputFiles, oldNew, |inputFiles|)
      requires mapIdToTp.Keys == RegisteredTimePoints(inputFiles, |inputFiles|)
      modifies this`mapIdToTp
      ensures mapIdToTp == old(mapIdToTp)
      ensures r.Ok? <==> TimePointsBelow(mapIdToTp.Keys, |mapIdToTp.Keys|)
      ensures r.Err? ==> r.error == TimePointIndexOutOfBounds
      ensures r.Ok? ==>
                r.value == MissingList(PresentUpTo(inputFiles, oldNew, |inputFiles|), |mapIdToTp.Keys|, viewSetupCounter)
    {
      var nTimePoints := |mapIdToTp|;
      assert nTimePoints == |mapIdToTp.Keys|;
      var viewIdIsPresent := new bool[nTimePoints, viewSetupCounter]((t, s) => false);
      forall c | true ensures c !in Cells(viewIdIsPresent) {
        CellsMember(viewIdIsPresent, c);
      }
      EmptyIfNoMember(Cells(viewIdIsPresent));
      OldNewsSeparated(inputFiles);
      var marked := MarkPresent(viewIdIsPresent, oldNew);
      if marked.Err? {
        return Err(marked.error);
      }
      var missingViews := ListMissing(viewIdIsPresent);
      r := Ok(missingViews);
    }

    /** Records the range of every kind of every file, in file order. */
    method ExtractRanges()
      modifies this`mapFileToEntitiesIdRange
      ensures mapFileToEntitiesIdRange == old(mapFileToEntitiesIdRange) + ExtractAll(inputFiles)
    {
      ghost var before := mapFileToEntitiesIdRange;
      for f := 0 to |inputFiles|
        invariant mapFileToEntitiesIdRange == before + ExtractAll(inputFiles)[..f]
      {
        mapFileToEntitiesIdRange := mapFileToEntitiesIdRange + [Extract(inputFiles[f])];
        assert ExtractAll(inputFiles)[..f + 1] == ExtractAll(inputFiles)[..f] + [Extract(inputFiles[f])];
      }
      assert ExtractAll(inputFiles)[..|inputFiles|] == ExtractAll(inputFiles);
    }

    /**
     * Shifts, file by file, the range of every kind not merged past the
     * range occupied by the earlier files.
     */
    method RenumberRanges()
      modifies this`mapFileToEntitiesIdRange
      ensures mapFileToEntitiesIdRange == Renumbered(old(mapFileToEntitiesIdRange), entitiesToMerge)
    {
      ghost var rs := mapFileToEntitiesIdRange;
      var currentOccupiedIndexes: map<Kind, Range> := map[];
      for f := 0 to |mapFileToEntitiesIdRange|
        invariant |mapFileToEntitiesIdRange| == |rs|
        invariant forall g :: 0 <= g < f ==> mapFileToEntitiesIdRange[g] == Renumbered(rs, entitiesToMerge)[g]
        invariant forall g :: f <= g < |rs| ==> mapFileToEntitiesIdRange[g] == rs[g]
        invariant forall c :: Lookup(currentOccupiedIndexes, c) == Occupied(rs, c, c in entitiesToMerge, f)
      {
        currentOccupiedIndexes := RenumberFile(rs, f, currentOccupiedIndexes);
      }
    }

    /**
     * The body of the renumbering loop for file `f`: every kind of the file
     * is renumbered in turn.
     */
    method RenumberFile(ghost rs: seq<map<Kind, Range>>, f: nat, occupied: map<Kind, Range>)
      returns (currentOccupiedIndexes: map<Kind, Range>)
      requires |mapFileToEntitiesIdRange| == |rs| && f < |rs| && mapFileToEntitiesIdRange[f] == rs[f]
      requires forall c :: Lookup(occupied, c) == Occupied(rs, c, c in entitiesToMerge, f)
      modifies this`mapFileToEntitiesIdRange
      ensures mapFileToEntitiesIdRange == old(mapFileToEntitiesIdRange)[f := Renumbered(rs, entitiesToMerge)[f]]
      ensures forall c :: Lookup(currentOccupiedIndexes, c) == Occupied(rs, c, c in entitiesToMerge, f + 1)
    {
      currentOccupiedIndexes := occupied;
      ghost var m := entitiesToMerge;
      var rest := mapFileToEntitiesIdRange[f].Keys;
      ghost var done: set<Kind> := {};
      while rest != {}
        invariant |mapFileToEntitiesIdRange| == |rs|
        invariant mapFileToEntitiesIdRange == old(mapFileToEntitiesIdRange)[f := mapFileToEntitiesIdRange[f]]
        invariant mapFileToEntitiesIdRange[f].Keys == rs[f].Keys == rest + done && rest !! done
        invariant forall c :: c in rs[f] ==>
          mapFileToEntitiesIdRange[f][c] == (if c in done then Shifted(rs, c, c in m, f) else rs[f][c])
        invariant forall c ::
          Lookup(currentOccupiedIndexes, c) == if c in done then Occupied(rs, c, c in m, f + 1) else Lookup(occupied, c)
        decreases rest
      {
        HasMember(rest);
        var c :| c in rest;
        currentOccupiedIndexes := RenumberKind(rs, f, c, currentOccupiedIndexes);
        rest := rest - {c};
        done := done + {c};
      }
      FileRenumbered(rs, m, f, mapFileToEntitiesIdRange[f]);
      forall c | c !in rs[f]
        ensures Lookup(currentOccupiedIndexes, c) == Occupied(rs, c, c in m, f + 1)
      {
      }
    }

    /**
     * Renumbers kind `c` of file `f`: a kind already occupied and not merged
     * is shifted past its occupied range, which then grows to cover it;
     * otherwise the file's range becomes the occupied one.
     */
    method RenumberKind(ghost rs: seq<map<Kind, Range>>, f: nat, c: Kind, occupied: map<Kind, Range>)
      returns (currentOccupiedIndexes: map<Kind, Range>)
      requires |mapFileToEntitiesIdRange| == |rs| && f < |rs|
      requires mapFileToEntitiesIdRange[f].Keys == rs[f].Keys
      requires c in rs[f] ==> mapFileToEntitiesIdRange[f][c] == rs[f][c]
      requires Lookup(occupied, c) == Occupied(rs, c, c in entitiesToMerge, f)
      modifies this`mapFileToEntitiesIdRange
      ensures c !in rs[f] ==> mapFileToEntitiesIdRange == old(mapFileToEntitiesIdRange)
      ensures c in rs[f] ==>
        mapFileToEntitiesIdRange == old(mapFileToEntitiesIdRange)[f := old(mapFileToEntitiesIdRange)[f][c := Shifted(rs, c, c in entitiesToMerge, f)]]
      ensures Lookup(currentOccupiedIndexes, c) == Occupied(rs, c, c in entitiesToMerge, f + 1)
      ensures forall d :: d != c ==> Lookup(currentOccupiedIndexes, d) == Lookup(occupied, d)
    {
      currentOccupiedIndexes := occupied;
      var ranges := mapFileToEntitiesIdRange[f];
      if c in ranges {
        if c in currentOccupiedIndexes && c !in entitiesToMerge {
          var enr := NextAvailable(ranges[c], currentOccupiedIndexes[c]);
          mapFileToEntitiesIdRange := mapFileToEntitiesIdRange[f := ranges[c := enr]];
          currentOccupiedIndexes := currentOccupiedIndexes[c := Merge(enr, currentOccupiedIndexes[c])];
        } else {
          currentOccupiedIndexes := currentOccupiedIndexes[c := ranges[c]];
          assert ranges[c := ranges[c]] == ranges;
          assert mapFileToEntitiesIdRange[f := ranges] == mapFileToEntitiesIdRange;
        }
      }
    }

    /**
     * Builds the merged view-setups file by file, numbering them from the
     * counter, and records for every file which new id each old id got.
     */
    method RebuildViewSetups() returns (r: Result<(seq<NewSetup>, seq<map<int, nat>>), MergeError>)
      requires viewSetupCounter == 0 && OnePerFile(inputFiles, mapFileToEntitiesIdRange)
      modifies this`viewSetupCounter
      ensures r.Ok? <==> RebuildAll(inputFiles, mapFileToEntitiesIdRange, |inputFiles|).Ok?
      ensures r.Err? ==> r.error == MissingEntityRange
      ensures r.Ok? ==> r.value.0 == RebuildAll(inputFiles, mapFileToEntitiesIdRange, |inputFiles|).value
      ensures r.Ok? ==> r.value.1 == OldNews(inputFiles)
      ensures r.Ok? ==> viewSetupCounter == |r.value.0|
    {
      var ds, rss := inputFiles, mapFileToEntitiesIdRange;
      var viewSetups: seq<NewSetup> := [];
      var viewSetupIndexOldNewMap: seq<map<int, nat>> := [];
      for f := 0 to |ds|
        invariant viewSetupCounter == |viewSetups| == Offset(ds, f)
        invariant RebuildAll(ds, rss, f) == Ok(viewSetups)
        invariant viewSetupIndexOldNewMap == OldNewsPrefix(ds, f)
      {
        var file := RebuildFileSetups(rss[f], ds[f].setups);
        if file.Err? {
          RebuildAllStops(ds, rss, f);
          return Err(file.error);
        }
        RebuildAllStep(ds, rss, f, viewSetups, file.value.0);
        viewSetups := viewSetups + file.value.0;
        viewSetupIndexOldNewMap := viewSetupIndexOldNewMap + [file.value.1];
      }
      OldNewsPrefixComplete(ds);
      r := Ok((viewSetups, viewSetupIndexOldNewMap));
    }

    /**
     * The loop body for one file: rebuilds its view-setups in stored order
     * under the next counter values, and maps each old id to its new one.
     */
    method RebuildFileSetups(rs: map<Kind, Range>, setups: seq<Setup>)
      returns (r: Result<(seq<NewSetup>, map<int, nat>), MergeError>)
      modifies this`viewSetupCounter
      ensures r.Ok? <==> RebuildFile(rs, setups, old(viewSetupCounter)).Ok?
      ensures r.Err? ==> r.error == MissingEntityRange
      ensures r.Ok? ==> r.value.0 == RebuildFile(rs, setups, old(viewSetupCounter)).value
      ensures r.Ok? ==> r.value.1 == OldNew(setups, old(viewSetupCounter))
      ensures r.Ok? ==> viewSetupCounter == old(viewSetupCounter) + |setups|
    {
      ghost var start := viewSetupCounter;
      var viewSetups: seq<NewSetup> := [];
      var oldNew: map<int, nat> := map[];
      for j := 0 to |setups|
        invariant viewSetupCounter == start + j
        invariant RebuildFile(rs, setups[..j], start) == Ok(viewSetups)
        invariant oldNew == OldNew(setups[..j], start)
      {
        var nvs := Rebuild(rs, setups[j], viewSetupCounter);
        if nvs.Err? {
          RebuildFileStops(rs, setups, start, j, viewSetupCounter);
          return Err(nvs.error);
        }
        RebuildFileStep(rs, setups, start, j, viewSetups, nvs.value);
        OldNewStep(setups, start, j);
        oldNew := oldNew[setups[j].id := nvs.value.id];
        viewSetups := viewSetups + [nvs.value];
        viewSetupCounter := viewSetupCounter + 1;
      }
      assert setups[..|setups|] == setups;
      r := Ok((viewSetups, oldNew));
    }

    /**
     * Copies every registration of every file, with its view-setup id sent
     * through the file's old-to-new map and its time point taken from the
     * cache; fails on a registration whose view-setup the file does not have.
     */
    method CopyRegistrations(oldNew: seq<map<int, nat>>) returns (r: Result<seq<Registration>, MergeError>)
      requires Valid() && |oldNew| == |inputFiles|
      modifies this`mapIdToTp
      ensures Valid()
      ensures r.Ok? <==> AllMapped(inputFiles, oldNew, |inputFiles|)
      ensures r.Err? ==> r.error == UnmappedViewSetup
      ensures r.Ok? ==> Elements(r.value) == RemappedUpTo(inputFiles, oldNew, |inputFiles|)
      ensures r.Ok? ==> |r.value| == RegistrationCount(inputFiles, |inputFiles|)
      ensures r.Ok? ==> mapIdToTp.Keys == old(mapIdToTp).Keys + RegisteredTimePoints(inputFiles, |inputFiles|)
      ensures Extends(mapIdToTp, old(mapIdToTp))
    {
      ghost var base := mapIdToTp.Keys;
      r := Ok([]);
      CopiedNothing(inputFiles, oldNew, base);
      var f := 0;
      while f < |inputFiles| && r.Ok?
        invariant f <= |inputFiles| && Valid() && Extends(mapIdToTp, old(mapIdToTp))
        invariant r.Ok? ==> CopiedUpTo(inputFiles, oldNew, f, r.value, base, mapIdToTp.Keys)
        invariant r.Err? ==> r.error == UnmappedViewSetup && !AllMapped(inputFiles, oldNew, |inputFiles|)
      {
        r := CopyNextFile(f, oldNew, r.value, base);
        f := f + 1;
      }
    }

    /**
     * One pass of the loop over the files: appends the copies of file `f`'s
     * registrations to those of the files before it.
     */
    method CopyNextFile(f: nat, oldNew: seq<map<int, nat>>, registrations: seq<Registration>, ghost base: set<int>)
      returns (r: Result<seq<Registration>, MergeError>)
      requires Valid() && f < |inputFiles| == |oldNew|
      requires CopiedUpTo(inputFiles, oldNew, f, registrations, base, mapIdToTp.Keys)
      modifies this`mapIdToTp
      ensures Valid()
      ensures r.Err? ==> r.error == UnmappedViewSetup && !AllMapped(inputFiles, oldNew, |inputFiles|)
      ensures r.Ok? ==> CopiedUpTo(inputFiles, oldNew, f + 1, r.value, base, mapIdToTp.Keys)
      ensures Extends(mapIdToTp, old(mapIdToTp))
    {
      ghost var keys := mapIdToTp.Keys;
      var copied := CopyFileRegistrations(f, oldNew[f]);
      if copied.Err? {
        AllMappedStops(inputFiles, oldNew, f);
        return Err(copied.error);
      }
      CopiedUpToStep(inputFiles, oldNew, f, registrations, base, keys, copied.value, mapIdToTp.Keys);
      r := Ok(registrations + copied.value);
    }

    /** The loop body for file `f`, over its registrations in any order. */
    method CopyFileRegistrations(f: nat, oldNew: map<int, nat>) returns (r: Result<seq<Registration>, MergeError>)
      requires Valid() && f < |inputFiles|
      modifies this`mapIdToTp
      ensures Valid()
      ensures r.Ok? <==> forall v :: v in inputFiles[f].registrations ==> v.setup in oldNew
      ensures r.Err? ==> r.error == UnmappedViewSetup
      ensures r.Ok? ==> CopiedIn(inputFiles[f], oldNew, inputFiles[f].registrations.Keys, r.value,
                                 old(mapIdToTp).Keys, mapIdToTp.Keys)
      ensures Extends(mapIdToTp, old(mapIdToTp))
    {
      var d := inputFiles[f];
      var registrations: seq<Registration> := [];
      var rest := d.registrations.Keys;
      ghost var done: set<ViewId> := {};
      CopiedInNothing(d, oldNew, mapIdToTp.Keys);
      while rest != {}
        invariant Valid() && Extends(mapIdToTp, old(mapIdToTp))
        invariant rest + done == d.registrations.Keys && rest !! done
        invariant CopiedIn(d, oldNew, done, registrations, old(mapIdToTp).Keys, mapIdToTp.Keys)
        decreases rest
      {
        HasMember(rest);
        var vi :| vi in rest;
        ghost var keys := mapIdToTp.Keys;
        var copied := CopyRegistration(f, oldNew, vi);
        if copied.Err? {
          return Err(copied.error);
        }
        CopiedInStep(d, oldNew, done, registrations, old(mapIdToTp).Keys, keys, vi, mapIdToTp.Keys);
        MoveMember(rest, done, d.registrations.Keys, vi);
        registrations := registrations + [copied.value];
        rest := rest - {vi};
        done := done + {vi};
      }
      r := Ok(registrations);
    }

    /**
     * Copies one registration of file `f`: its view-setup id goes through the
     * file's old-to-new map, which must hold it, and its time point through
     * the cache.
     */
    method CopyRegistration(f: nat, oldNew: map<int, nat>, vi: ViewId) returns (r: Result<Registration, MergeError>)
      requires Valid() && f < |inputFiles| && vi in inputFiles[f].registrations
      modifies this`mapIdToTp
      ensures Valid()
      ensures r.Ok? <==> vi.setup in oldNew
      ensures r.Err? ==> r.error == UnmappedViewSetup
      ensures r.Ok? ==> r.value == Registration(ViewId(vi.tp, oldNew[vi.setup]), inputFiles[f].registrations[vi])
      ensures r.Ok? ==> mapIdToTp.Keys == old(mapIdToTp).Keys + {vi.tp}
      ensures Extends(mapIdToTp, old(mapIdToTp))
    {
      if vi.setup !in oldNew {
        return Err(UnmappedViewSetup);
      }
      var newViewId := oldNew[vi.setup];
      var tp := GetTimePoint(f, vi.tp);
      r := Ok(Registration(ViewId(tp.id, newViewId), inputFiles[f].registrations[vi]));
    }

    /**
     * Marks in `table` the cell of every registered view of every file:
     * `true` when the view is not missing in its own file, `false` when it
     * is; fails on a time point id that is no row of the table.
     */
    method MarkPresent(table: array2<bool>, oldNew: seq<map<int, nat>>) returns (r: Result<(), MergeError>)
      requires Valid() && |oldNew| == |inputFiles| && Separated(oldNew) && NewIdsBelow(oldNew, table.Length1)
      requires AllMapped(inputFiles, oldNew, |inputFiles|)
      requires RegisteredTimePoints(inputFiles, |inputFiles|) <= mapIdToTp.Keys
      requires Cells(table) == {}
      modifies table, this`mapIdToTp
      ensures mapIdToTp == old(mapIdToTp)
      ensures r.Ok? <==> TimePointsBelow(RegisteredTimePoints(inputFiles, |inputFiles|), table.Length0)
      ensures r.Err? ==> r.error == TimePointIndexOutOfBounds
      ensures r.Ok? ==> Cells(table) == PresentUpTo(inputFiles, oldNew, |inputFiles|)
    {
      r := Ok(());
      MarkedNothing(inputFiles, oldNew, table.Length0);
      var f := 0;
      while f < |inputFiles| && r.Ok?
        invariant f <= |inputFiles| && Valid() && mapIdToTp == old(mapIdToTp)
        invariant r.Ok? ==> MarkedUpTo(inputFiles, oldNew, f, Cells(table), table.Length0)
        invariant r.Err? ==> r.error == TimePointIndexOutOfBounds
        invariant r.Err? ==> !TimePointsBelow(RegisteredTimePoints(inputFiles, |inputFiles|), table.Length0)
      {
        r := MarkFilePresent(table, f, oldNew);
        f := f + 1;
      }
    }

    /** The loop body for file `f`, over its registered views in any order. */
    method MarkFilePresent(table: array2<bool>, f: nat, oldNew: seq<map<int, nat>>) returns (r: Result<(), MergeError>)
      requires Valid() && f < |inputFiles| == |oldNew| && Separated(oldNew) && NewIdsBelow(oldNew, table.Length1)
      requires AllMapped(inputFiles, oldNew, |inputFiles|)
      requires RegisteredTimePoints(inputFiles, |inputFiles|) <= mapIdToTp.Keys
      requires MarkedUpTo(inputFiles, oldNew, f, Cells(table), table.Length0)
      modifies table, this`mapIdToTp
      ensures mapIdToTp == old(mapIdToTp)
      ensures r.Err? ==> r.error == TimePointIndexOutOfBounds
      ensures r.Err? ==> !TimePointsBelow(RegisteredTimePoints(inputFiles, |inputFiles|), table.Length0)
      ensures r.Ok? ==> MarkedUpTo(inputFiles, oldNew, f + 1, Cells(table), table.Length0)
    {
      var d := inputFiles[f];
      var rest := d.registrations.Keys;
      ghost var done: set<ViewId> := {};
      ghost var before := Cells(table);
      MarkedInNothing(d, oldNew[f], before, table.Length0);
      while rest != {}
        invariant mapIdToTp == old(mapIdToTp)
        invariant rest + done == d.registrations.Keys && rest !! done
        invariant MarkedIn(d, oldNew[f], done, before, Cells(table), table.Length0)
        decreases rest
      {
        HasMember(rest);
        var vi :| vi in rest;
        if vi in d.missing {
          MissingCellNotPresent(inputFiles, oldNew, f, vi, f, f, done);
        }
        RegisteredTimePointOf(inputFiles, |inputFiles|, f, vi);
        ghost var cells := Cells(table);
        var marked := MarkViewPresent(table, f, oldNew, vi);
        if marked.Err? {
          OutOfBoundsStops(inputFiles, f, vi, table.Length0);
          return marked;
        }
        MarkedInStep(d, oldNew[f], done, before, cells, table.Length0, vi, Cells(table));
        MoveMember(rest, done, d.registrations.Keys, vi);
        rest := rest - {vi};
        done := done + {vi};
      }
      MarkedUpToStep(inputFiles, oldNew, f, before, table.Length0, Cells(table));
      r := Ok(());
    }

    /**
     * Marks the cell of registered view `vi` of file `f`: the row of its time
     * point and the column of its view-setup's new id.
     */
    method MarkViewPresent(table: array2<bool>, f: nat, oldNew: seq<map<int, nat>>, vi: ViewId)
      returns (r: Result<(), MergeError>)
      requires Valid() && f < |inputFiles| == |oldNew|
      requires vi in inputFiles[f].registrations && vi.setup in oldNew[f] && vi.tp in mapIdToTp
      requires oldNew[f][vi.setup] < table.Length1
      modifies table, this`mapIdToTp
      ensures mapIdToTp == old(mapIdToTp)
      ensures r.Ok? <==> 0 <= vi.tp < table.Length0
      ensures r.Err? ==> r.error == TimePointIndexOutOfBounds
      ensures r.Ok? && Shows(inputFiles[f], oldNew[f], vi) ==> Cells(table) == old(Cells(table)) + {Cell(oldNew[f], vi)}
      ensures r.Ok? && !Shows(inputFiles[f], oldNew[f], vi) ==> Cells(table) == old(Cells(table)) - {Cell(oldNew[f], vi)}
    {
      var tp := GetTimePoint(f, vi.tp);
      var viewSetupIdInMergedDataset := oldNew[f][vi.setup];
      if !(0 <= tp.id < table.Length0) {
        return Err(TimePointIndexOutOfBounds);
      }
      ghost var before := Cells(table);
      forall c | true ensures c in before <==>
        0 <= c.tp < table.Length0 && 0 <= c.setup < table.Length1 && table[c.tp, c.setup]
      {
        CellsMember(table, c);
      }
      var present := ViewId(tp.id, vi.setup) !in inputFiles[f].missing;
      table[tp.id, viewSetupIdInMergedDataset] := present;
      forall c | true ensures c in Cells(table) <==>
        if present then c in before + {Cell(oldNew[f], vi)} else c in before - {Cell(oldNew[f], vi)}
      {
        CellsMember(table, c);
      }
      r := Ok(());
    }
  }
}
