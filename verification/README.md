# Merging BigDataViewer XML datasets: a Dafny model

`MergeXmlDatasets` takes several already-loaded BigDataViewer / SpimData
datasets and merges them into one. Each dataset has its own view-setups,
time points, registrations and missing views. The merged dataset needs a
single id space, built in the steps of `run()`:

1. **Merge flags.** Select the attribute kinds (Tile, Angle, Channel,
   Illumination) whose ids are shared across files rather than kept apart.
2. **Range extraction.** For every file and every attribute kind, take the
   id interval (`EntityNumberingRange`) covered by the attributes of the
   file's present views.
3. **Renumbering.** Walk the files in order. Shift every kind that is not
   merged just past the interval the earlier files occupy (a per-kind bump
   allocator held in `currentOccupiedIndexes`). A merged kind keeps its ids.
4. **View-setup rebuild.** Give every view-setup of every file a new global
   sequential id from `viewSetupCounter`. Its attributes are renumbered, a
   missing Channel, Angle or Illumination becomes a `-1` sentinel, and a
   per-file map records each old view-setup id's new id.
5. **Registration copy.** Copy every registration with its view-setup id
   sent through that map. The time point comes from a memoising cache
   (`getTimePoint`), and the transforms are carried over unchanged.
6. **Missing views.** Fill a `boolean[nTimePoints][viewSetupCounter]`
   presence table from every file's registrations, minus that file's own
   missing views. Every unmarked cell is then listed as a missing view,
   time point by time point.

The model is imperative where the source is:

- `Merger.MergeXmlDatasets` is a class with the source's fields
  (`mapFileToEntitiesIdRange`, `entitiesToMerge`, `viewSetupCounter`,
  `mapIdToTp`).
- The presence table is an `array2<bool>`.
- Every loop over files, view-setups, registrations and table cells is a
  method with loop invariants, and every one of those methods is proved
  against a function that specifies it.

Each module specifies its step with functions, which are not part of the
source:

- `Datasets.ExtractAll`;
- `Renumbering.Renumbered` / `Occupied`;
- `ViewSetups.RebuildAll` / `OldNews`;
- `Registrations.RemappedUpTo`;
- `Presence.PresentUpTo` / `MissingList`.

The properties the merge promises are lemmas about those functions.

Files are identified by their position in the input list. The Java code
keys its maps by `File`; "## Left out" says what that difference loses.

The three ways the Java code can fail that the model covers are modelled
as a `MergeError` value, not as preconditions ("## Left out" names the
failures it assumes away: the cast at line 223 and `int` overflow):

| error | source | when |
|---|---|---|
| `MissingEntityRange` | line 161, a `NullPointerException` | an attribute kind has no range in its file |
| `UnmappedViewSetup` | line 218, a `NullPointerException` | a registration names a view-setup its file does not have |
| `TimePointIndexOutOfBounds` | line 257, an `ArrayIndexOutOfBoundsException` | a time point id is not below the number of distinct time points |

`EntityNumberingRange` is not part of this model. Its operations
(`new EntityNumberingRange(e)`, `merge`, `setToNextAvailableRange`,
`getRenumberedEntity`) are written out in `EntityRanges` as the contract the
merge relies on:

- `merge` is the bounding union. It returns a new range and changes neither
  argument, so a range can be modelled as a value even though line 141
  stores a file's own range object in `currentOccupiedIndexes`.
- `setToNextAvailableRange` moves a range by the least amount that puts it
  above the occupied one, and changes only its receiver. Line 136 passes as
  the occupied range the object that line 141 stored, which is an earlier
  file's own range, so that range must be left as it was.

Both are assumptions, not verified behaviour of that class.

`ViewDescription.isPresent` (line 105) is library code and is not part of
this model either. `Datasets.IsPresent` assumes that a file's view
descriptions cover every one of its time points for every view-setup, and
that a view is present exactly when the file does not list it missing.

## Model

| member | source | states |
|---|---|---|
| EntityRanges.Singleton | src/main/java/ch/epfl/biop/bdv/uberdataset/MergeXmlDatasets.java:117 | the range of one entity holds exactly that entity's id and is not shifted (assumed contract of `EntityNumberingRange`) |
| EntityRanges.Merge | src/main/java/ch/epfl/biop/bdv/uberdataset/MergeXmlDatasets.java:118 | `merge` holds both ranges, each end is an end of one of them, and the result is unshifted (assumed contract) |
| EntityRanges.NextAvailable | src/main/java/ch/epfl/biop/bdv/uberdataset/MergeXmlDatasets.java:136 | `setToNextAvailableRange` lands wholly above the occupied range, keeps the width and the original ids, and when it moves the range at all, moves it to just past the occupied range (assumed contract) |
| EntityRanges.Renumber | src/main/java/ch/epfl/biop/bdv/uberdataset/MergeXmlDatasets.java:161 | `getRenumberedEntity` sends an id the range held originally into the range's current interval, and an unshifted range keeps ids as they are |
| Datasets.KindIds | src/main/java/ch/epfl/biop/bdv/uberdataset/MergeXmlDatasets.java:100-111 | the ids collected for a kind are exactly the ids of that kind carried by present view-setups |
| Datasets.Span | src/main/java/ch/epfl/biop/bdv/uberdataset/MergeXmlDatasets.java:114-118 | reducing the singleton ranges with `merge` gives an interval that holds every id and whose two ends are ids of the list, so it is the least such interval |
| Datasets.Extract | src/main/java/ch/epfl/biop/bdv/uberdataset/MergeXmlDatasets.java:98-120 | a file has a range for exactly the kinds used by a present view-setup; each range is valid, unshifted, holds every such id, and its ends are ids actually used |
| Datasets.ViewsGiveKindIds | src/main/java/ch/epfl/biop/bdv/uberdataset/MergeXmlDatasets.java:100-107 | keeping the not-missing views, one per time point and view-setup, and reading each kind off their view-setups collects the same ids as keeping the present view-setups (assumes the view descriptions cover time points × view-setups, and `ViewDescription.isPresent` is "not listed missing") |
| Datasets.ExtractAll | src/main/java/ch/epfl/biop/bdv/uberdataset/MergeXmlDatasets.java:95-124 | one range map per file, in file order, each the extraction of that file |
| Merger.MergeXmlDatasets.ExtractRanges | src/main/java/ch/epfl/biop/bdv/uberdataset/MergeXmlDatasets.java:95-124 | the loop appends to `mapFileToEntitiesIdRange` the extracted ranges of every file, in file order |
| Merger.Flagged | src/main/java/ch/epfl/biop/bdv/uberdataset/MergeXmlDatasets.java:77-80 | each kind is to be merged exactly when its flag is set |
| Renumbering.FileRenumbered | src/main/java/ch/epfl/biop/bdv/uberdataset/MergeXmlDatasets.java:131-143 | a file whose every kind has been given its shifted range holds its renumbered ranges |
| Renumbering.MergeKindNeverShifted | src/main/java/ch/epfl/biop/bdv/uberdataset/MergeXmlDatasets.java:133-141 | a kind to merge keeps its range in every file, and the occupied range becomes the current file's range (the overwrite of line 141) |
| Renumbering.NothingOccupiedBefore | src/main/java/ch/epfl/biop/bdv/uberdataset/MergeXmlDatasets.java:130-133 | nothing is occupied for a kind no earlier file has |
| Renumbering.FirstIntroducerKeepsRange | src/main/java/ch/epfl/biop/bdv/uberdataset/MergeXmlDatasets.java:139-141 | the first file to introduce a kind keeps its range and that range becomes the occupied one |
| Renumbering.OccupiedGrows | src/main/java/ch/epfl/biop/bdv/uberdataset/MergeXmlDatasets.java:133-138 | for a kind not merged, the occupied range after a file is the merge of the file's shifted range with the previous occupied range, so it only grows |
| Renumbering.OccupiedCovers | src/main/java/ch/epfl/biop/bdv/uberdataset/MergeXmlDatasets.java:133-138 | the occupied range of a non-merged kind reaches past the shifted range of every file processed so far |
| Renumbering.ShiftedRangesDisjoint | src/main/java/ch/epfl/biop/bdv/uberdataset/MergeXmlDatasets.java:133-138 | for a non-merged kind, an earlier file's shifted range lies wholly below a later file's |
| Renumbering.ShiftedKeepsOriginalIds | src/main/java/ch/epfl/biop/bdv/uberdataset/MergeXmlDatasets.java:136 | shifting changes the interval but not which original ids the range stands for |
| Renumbering.RenumberedIdsSeparate | src/main/java/ch/epfl/biop/bdv/uberdataset/MergeXmlDatasets.java:129-144 | after renumbering, a present view-setup's id of a merged kind is unchanged, and for a kind not merged every id of an earlier file is below every id of a later file |
| Merger.MergeXmlDatasets.RenumberRanges | src/main/java/ch/epfl/biop/bdv/uberdataset/MergeXmlDatasets.java:129-144 | the loop leaves every file's ranges renumbered, with `currentOccupiedIndexes` the occupied range of every kind after each file |
| Merger.MergeXmlDatasets.RenumberFile | src/main/java/ch/epfl/biop/bdv/uberdataset/MergeXmlDatasets.java:132-143 | one file's pass gives it its renumbered ranges, touches no other file, and advances the occupied ranges by that file |
| Merger.MergeXmlDatasets.RenumberKind | src/main/java/ch/epfl/biop/bdv/uberdataset/MergeXmlDatasets.java:133-142 | one kind's branch shifts that kind of the file (or leaves it when merged or first), and updates only that kind's occupied range |
| ViewSetups.Rebuild | src/main/java/ch/epfl/biop/bdv/uberdataset/MergeXmlDatasets.java:158-203 | fails exactly when a kind of the view-setup has no range; otherwise the new view-setup has the given id and the old name, each attribute renumbered, Tile only if the original had one, and `-1` for a missing Channel, Angle or Illumination |
| ViewSetups.RebuildFile | src/main/java/ch/epfl/biop/bdv/uberdataset/MergeXmlDatasets.java:156-207 | a file's view-setups are rebuilt in stored order under consecutive ids, failing exactly when one of them lacks a range |
| ViewSetups.RebuildFileStep | src/main/java/ch/epfl/biop/bdv/uberdataset/MergeXmlDatasets.java:204-206 | rebuilding one more view-setup appends it to the file's rebuilt list |
| ViewSetups.RebuildFileStops | src/main/java/ch/epfl/biop/bdv/uberdataset/MergeXmlDatasets.java:161 | one view-setup lacking a range fails the whole file |
| ViewSetups.OffsetBlocks | src/main/java/ch/epfl/biop/bdv/uberdataset/MergeXmlDatasets.java:186 | the counter values given to a file all come before those given to any later file |
| ViewSetups.InOneBlock | src/main/java/ch/epfl/biop/bdv/uberdataset/MergeXmlDatasets.java:186 | a counter value is given within one file only |
| ViewSetups.RebuildAll | src/main/java/ch/epfl/biop/bdv/uberdataset/MergeXmlDatasets.java:153-208 | fails exactly when some view-setup lacks a range; otherwise the list has one entry per view-setup, the new ids are exactly 0 .. count - 1 in list order, and view-setup j of file f sits rebuilt at its global position |
| ViewSetups.RebuiltAppend | src/main/java/ch/epfl/biop/bdv/uberdataset/MergeXmlDatasets.java:205 | appending a file's rebuilt view-setups keeps ids equal to positions and puts every view-setup at its global position |
| ViewSetups.RebuildAllStep | src/main/java/ch/epfl/biop/bdv/uberdataset/MergeXmlDatasets.java:153-208 | rebuilding one more file appends its view-setups and advances the counter by their number |
| ViewSetups.RebuildAllStops | src/main/java/ch/epfl/biop/bdv/uberdataset/MergeXmlDatasets.java:161 | a failing file fails the whole rebuild |
| Merger.MergeXmlDatasets.RebuildViewSetups | src/main/java/ch/epfl/biop/bdv/uberdataset/MergeXmlDatasets.java:150-208 | the loop over files yields the rebuilt view-setups and the per-file old-to-new maps, with `viewSetupCounter` equal to the number of view-setups, or fails with `MissingEntityRange` exactly when the rebuild does |
| Merger.MergeXmlDatasets.RebuildFileSetups | src/main/java/ch/epfl/biop/bdv/uberdataset/MergeXmlDatasets.java:155-207 | the loop over one file's view-setups yields its rebuilt view-setups and its old-to-new map, and advances `viewSetupCounter` by their number |
| ViewSetups.OldNewStep | src/main/java/ch/epfl/biop/bdv/uberdataset/MergeXmlDatasets.java:204 | one more view-setup maps its old id to the counter value it got |
| ViewSetups.OldNewKeys | src/main/java/ch/epfl/biop/bdv/uberdataset/MergeXmlDatasets.java:204 | a file's map has exactly the file's old view-setup ids as keys |
| ViewSetups.OldNewValues | src/main/java/ch/epfl/biop/bdv/uberdataset/MergeXmlDatasets.java:204 | every old id maps to a counter value given within the file, to a view-setup of that old id |
| ViewSetups.OldNewValueAt | src/main/java/ch/epfl/biop/bdv/uberdataset/MergeXmlDatasets.java:204 | the same, for one old id |
| ViewSetups.OldNewLast | src/main/java/ch/epfl/biop/bdv/uberdataset/MergeXmlDatasets.java:204 | when two view-setups share an old id, the map keeps the later one's new id |
| ViewSetups.OldNewInjectiveWithin | src/main/java/ch/epfl/biop/bdv/uberdataset/MergeXmlDatasets.java:204 | within a file, distinct old ids get distinct new ids |
| ViewSetups.OldNews | src/main/java/ch/epfl/biop/bdv/uberdataset/MergeXmlDatasets.java:150-155 | one map per file, the map of its view-setups numbered from its offset |
| ViewSetups.OldNewsPrefixAt | src/main/java/ch/epfl/biop/bdv/uberdataset/MergeXmlDatasets.java:155 | the maps recorded for the first files are those files' maps |
| ViewSetups.OldNewsPrefixComplete | src/main/java/ch/epfl/biop/bdv/uberdataset/MergeXmlDatasets.java:153-208 | after all files the recorded maps are all the maps |
| ViewSetups.NewIdBelowTotal | src/main/java/ch/epfl/biop/bdv/uberdataset/MergeXmlDatasets.java:204-206 | every new id is below the final `viewSetupCounter` |
| ViewSetups.OldNewInjective | src/main/java/ch/epfl/biop/bdv/uberdataset/MergeXmlDatasets.java:155 | the combined (file, old id) to new id mapping is injective across all files |
| ViewSetups.OldNewsSeparated | src/main/java/ch/epfl/biop/bdv/uberdataset/MergeXmlDatasets.java:204 | the maps of all files are jointly injective and every new id is below the final counter |
| ViewSetups.SingleDatasetKeepsIds | src/main/java/ch/epfl/biop/bdv/uberdataset/MergeXmlDatasets.java:186 | a single file whose view-setups are numbered 0 .. n - 1 in order keeps every view-setup id |
| Merger.MergeXmlDatasets.GetTimePoint | src/main/java/ch/epfl/biop/bdv/uberdataset/MergeXmlDatasets.java:299-306 | returns a time point of the requested id; the first request adds exactly that one fresh entry, later requests return the cached object and leave the cache unchanged; the file argument is ignored |
| Registrations.AllMappedStops | src/main/java/ch/epfl/biop/bdv/uberdataset/MergeXmlDatasets.java:218 | one registration naming a view-setup its file lacks makes the whole copy fail |
| Registrations.RemappedInAdd | src/main/java/ch/epfl/biop/bdv/uberdataset/MergeXmlDatasets.java:217-224 | copying one more registration adds exactly its remapped copy |
| Registrations.TimePointsOfAdd | src/main/java/ch/epfl/biop/bdv/uberdataset/MergeXmlDatasets.java:219 | copying one more registration adds exactly its time point |
| Registrations.CopiedNothing | src/main/java/ch/epfl/biop/bdv/uberdataset/MergeXmlDatasets.java:210 | before any file, nothing is copied and the cache is as it was |
| Registrations.CopiedInNothing | src/main/java/ch/epfl/biop/bdv/uberdataset/MergeXmlDatasets.java:214-217 | before any registration of a file, nothing of it is copied |
| Registrations.CopiedInStep | src/main/java/ch/epfl/biop/bdv/uberdataset/MergeXmlDatasets.java:217-224 | one more registration adds its remapped copy to the list and its time point to the cache |
| Registrations.CopiedUpToStep | src/main/java/ch/epfl/biop/bdv/uberdataset/MergeXmlDatasets.java:213-226 | copying all of one more file extends the copies and cached time points of the earlier files by that file's |
| Registrations.RegisteredTimePointOf | src/main/java/ch/epfl/biop/bdv/uberdataset/MergeXmlDatasets.java:219 | every registered view's time point is among the registered time points |
| Registrations.RemappedInCount | src/main/java/ch/epfl/biop/bdv/uberdataset/MergeXmlDatasets.java:217-224 | under a map that sends distinct old view-setup ids to distinct new ones, a file gives one distinct remapped registration per registration |
| Registrations.RemappedDisjoint | src/main/java/ch/epfl/biop/bdv/uberdataset/MergeXmlDatasets.java:218 | with jointly injective maps, no remapped registration of a file is one of an earlier file |
| Registrations.SeparatedAddsNew | src/main/java/ch/epfl/biop/bdv/uberdataset/MergeXmlDatasets.java:213-226 | with jointly injective maps, a file whose registrations are all mapped adds exactly its number of registrations to the copies |
| Registrations.RemappedCount | src/main/java/ch/epfl/biop/bdv/uberdataset/MergeXmlDatasets.java:210-226 | when every file adds new remapped registrations, there are exactly as many remapped registrations as source registrations |
| Registrations.DistinctWhenAllCounted | src/main/java/ch/epfl/biop/bdv/uberdataset/MergeXmlDatasets.java:220 | a list with as many distinct elements as entries repeats no entry |
| Registrations.CopiedDistinct | src/main/java/ch/epfl/biop/bdv/uberdataset/MergeXmlDatasets.java:210-226 | copies that hold the remapped registrations, one entry per source registration, under jointly injective maps, repeat no entry |
| Registrations.CopiedOncePerRegistration | src/main/java/ch/epfl/biop/bdv/uberdataset/MergeXmlDatasets.java:150-226 | with the files' own old-to-new maps, the copied list holds every remapped registration exactly once, one per source registration |
| Merger.MergeXmlDatasets.CopyRegistrations | src/main/java/ch/epfl/biop/bdv/uberdataset/MergeXmlDatasets.java:210-226 | succeeds exactly when every registration names a view-setup of its file; then the list holds exactly the remapped registrations, one entry per registration, and the cache has gained exactly the registered time points; every time point cached before is kept as the same object |
| Merger.MergeXmlDatasets.CopyNextFile | src/main/java/ch/epfl/biop/bdv/uberdataset/MergeXmlDatasets.java:213-226 | one pass of the loop over files extends the copies to one more file, or fails only when the whole copy must; cached time points are kept |
| Merger.MergeXmlDatasets.CopyFileRegistrations | src/main/java/ch/epfl/biop/bdv/uberdataset/MergeXmlDatasets.java:214-225 | succeeds exactly when every registration of the file is mapped; then it holds that file's remapped registrations and caches their time points, keeping every cached time point |
| Merger.MergeXmlDatasets.CopyRegistration | src/main/java/ch/epfl/biop/bdv/uberdataset/MergeXmlDatasets.java:217-224 | one registration is copied with the same time point, its new view-setup id and its transforms, adding its time point to the cache and changing no cached entry, or fails when its view-setup is unmapped |
| Registrations.Interval | src/main/java/ch/epfl/biop/bdv/uberdataset/MergeXmlDatasets.java:267 | the ids 0 .. n - 1, of which there are n |
| Registrations.BoundedIds | src/main/java/ch/epfl/biop/bdv/uberdataset/MergeXmlDatasets.java:233 | ids all below n are at most n in number, and exactly n of them are all of 0 .. n - 1 |
| Registrations.TimePointsIndexable | src/main/java/ch/epfl/biop/bdv/uberdataset/MergeXmlDatasets.java:233-257 | the time point ids all index a table of as many rows as there are ids exactly when they are 0 .. count - 1 |
| Presence.ShownIsPresent | src/main/java/ch/epfl/biop/bdv/uberdataset/MergeXmlDatasets.java:250-260 | a registered, not-missing view of a file marks its cell present |
| Presence.PresentIsShown | src/main/java/ch/epfl/biop/bdv/uberdataset/MergeXmlDatasets.java:250-260 | every present cell is marked by a registered, not-missing view of some file |
| Presence.MissingCellNotPresent | src/main/java/ch/epfl/biop/bdv/uberdataset/MergeXmlDatasets.java:255-257 | a view a file declares missing lands on a cell that no view of any file marks present |
| Presence.PresentInAdd | src/main/java/ch/epfl/biop/bdv/uberdataset/MergeXmlDatasets.java:255-261 | one more view adds its cell exactly when it is not missing |
| Presence.MarkedNothing | src/main/java/ch/epfl/biop/bdv/uberdataset/MergeXmlDatasets.java:235 | a fresh table marks no file's views |
| Presence.MarkedInNothing | src/main/java/ch/epfl/biop/bdv/uberdataset/MergeXmlDatasets.java:246-250 | before any view of a file, the table is as the earlier files left it |
| Presence.MarkedInStep | src/main/java/ch/epfl/biop/bdv/uberdataset/MergeXmlDatasets.java:255-261 | writing a view's presence to its cell adds the cell exactly when the view is not missing, since a missing view's cell was never marked |
| Presence.MarkedUpToStep | src/main/java/ch/epfl/biop/bdv/uberdataset/MergeXmlDatasets.java:243-263 | marking all of one more file extends the marks to that file |
| Presence.OutOfBoundsStops | src/main/java/ch/epfl/biop/bdv/uberdataset/MergeXmlDatasets.java:257 | one registered time point outside the table puts the registered time points outside it |
| Presence.CellsMember | src/main/java/ch/epfl/biop/bdv/uberdataset/MergeXmlDatasets.java:235 | a cell is marked exactly when it is inside the table and holds `true` |
| Merger.MergeXmlDatasets.MarkPresent | src/main/java/ch/epfl/biop/bdv/uberdataset/MergeXmlDatasets.java:243-263 | fails exactly when a registered time point does not index the table; otherwise the cells holding `true` are exactly those marked by registered, not-missing views, and every other cell stays `false` |
| Merger.MergeXmlDatasets.MarkFilePresent | src/main/java/ch/epfl/biop/bdv/uberdataset/MergeXmlDatasets.java:244-262 | one file's pass extends the marked cells by exactly that file's not-missing views, or fails only when the whole marking must |
| Merger.MergeXmlDatasets.MarkViewPresent | src/main/java/ch/epfl/biop/bdv/uberdataset/MergeXmlDatasets.java:250-261 | writes `true` to the view's cell when the file does not declare it missing and `false` when it does, failing exactly when the time point is outside the table |
| Presence.RowMember | src/main/java/ch/epfl/biop/bdv/uberdataset/MergeXmlDatasets.java:268-272 | one time point's row lists exactly the unmarked cells of that row |
| Presence.RowOrdered | src/main/java/ch/epfl/biop/bdv/uberdataset/MergeXmlDatasets.java:268-272 | a row lists its cells in strictly increasing view-setup order |
| Presence.MissingListMember | src/main/java/ch/epfl/biop/bdv/uberdataset/MergeXmlDatasets.java:265-273 | the missing list holds exactly the grid cells not present, so present and missing cells partition the grid |
| Presence.MissingListOrdered | src/main/java/ch/epfl/biop/bdv/uberdataset/MergeXmlDatasets.java:265-273 | the missing list is strictly ordered time point first, then view-setup, so each cell appears once |
| Presence.ListMissing | src/main/java/ch/epfl/biop/bdv/uberdataset/MergeXmlDatasets.java:265-273 | the nested loops list the table's `false` cells as the missing list of its `true` cells |
| Presence.MergedMissing | src/main/java/ch/epfl/biop/bdv/uberdataset/MergeXmlDatasets.java:243-273 | a grid cell is listed missing exactly when no registered, not-missing view of any file lands on it |
| Presence.SourceMissingStaysMissing | src/main/java/ch/epfl/biop/bdv/uberdataset/MergeXmlDatasets.java:255-257 | a view a source file declares missing is missing in the merged dataset |
| Presence.SingleDatasetKeepsMissing | src/main/java/ch/epfl/biop/bdv/uberdataset/MergeXmlDatasets.java:243-273 | merging one dataset whose view-setups are numbered 0 .. n - 1 in order and whose registrations cover its grid lists exactly its own missing views |
| Merger.MergeXmlDatasets.MissingViews | src/main/java/ch/epfl/biop/bdv/uberdataset/MergeXmlDatasets.java:228-273 | sizes the table by the cached time points and the counter; fails exactly when the time point ids are not all below their count; otherwise lists the missing grid cells of the registered, not-missing views |
| Merger.MergeXmlDatasets.constructor | src/main/java/ch/epfl/biop/bdv/uberdataset/MergeXmlDatasets.java:31-68 | a new merger has its inputs and flags, no ranges, no kinds to merge, a zero counter and an empty cache |
| Merger.MergeXmlDatasets.MergeViews | src/main/java/ch/epfl/biop/bdv/uberdataset/MergeXmlDatasets.java:149-273 | once ranges are renumbered, the merge is the first failing step's error, or the rebuilt view-setups, the remapped registrations, the registered time points and the missing views; on success `viewSetupCounter` is the number of merged view-setups and the cache holds exactly the merged time points |
| Merger.MergeXmlDatasets.Run | src/main/java/ch/epfl/biop/bdv/uberdataset/MergeXmlDatasets.java:71-273 | `run()` selects the flagged kinds, records and renumbers the ranges, and yields the merge: it goes through exactly when every view-setup has its ranges, every registration is mapped and the time point ids index the table; on success `viewSetupCounter` is the number of merged view-setups and the cache holds exactly the merged time points |

## Left out

- Loading the datasets through `UberImgLoader` (lines 86-92, 97). The loaded datasets are input values; a file is its position in the input list.
- A `File` listed twice. The Java code keys `mapFileToEntitiesIdRange` (lines 59, 123), `viewSetupIndexOldNewMap` (lines 150, 155) and `spimDataFromFiles` by `File`, so both entries share one range map, which line 136 then shifts past its own interval. The second `put` at line 155 also replaces the first old-to-new map, so the registrations of both visits (lines 218, 253) land on the second copy's view-setups and every cell of the first copy is listed missing. The model keys by position and treats the two entries as independent files.
- Ranges as shared objects. Line 141 stores a file's own range object in `currentOccupiedIndexes`, and line 136 later passes that same object to `setToNextAvailableRange` on a later file's range. The model treats ranges as values, which is sound only under the assumed contract that `merge` (line 138) returns a new range and modifies neither argument, and that `setToNextAvailableRange` changes only its receiver, never the occupied range passed to it.
- Merger.MergeXmlDatasets.CopyRegistration: copies a registration's transforms unconditionally. Line 223 casts `getTransformList()` to `ArrayList<ViewTransform>`, and the source itself doubts that cast; the model assumes it succeeds, so the `ClassCastException` it could throw is not modelled.
- EntityRanges.NextAvailable: promises `s.lo > occupied.hi` over unbounded integers. Attribute ids, range bounds and shifts, `viewSetupCounter` and the new view-setup ids are Java `int`; the model uses unbounded `int` and `nat`, so 32-bit overflow is not modelled. In Java no range can lie above an occupied range whose upper end is `Integer.MAX_VALUE`, and the shift at line 136 would wrap around.
- Building and saving the `SequenceDescription` and `SpimData` (lines 275-290). This is XML output through foreign library code, and its exceptions are swallowed. The model ends with the merged value.
- The logger, `printEntitiesNumberingInfo` and the `@Parameter` wiring. These are diagnostics and plugin plumbing.
- `EntityNumberingRange` is not part of this model. `EntityRanges` states the contract the merge relies on, as an assumption.
- View-setup sizes and voxel sizes, and the contents of transform lists. They are copied unchanged; a transform is kept as an opaque value.
- The ordering that `TimePoints` imposes on its time points (lines 230-231). It happens inside a library constructor. The merged time points are a set.
- Attribute kinds other than Tile, Channel, Angle and Illumination. The `ViewSetup` constructors at lines 185-202 take only these four.
- The order in which a `HashMap` hands out kinds and registrations. The model visits both in any order, picking each with `:|` as `keySet().forEach` (line 132) and `forEach` (line 217) do. `RenumberKind` changes only its own kind of the file and that kind's occupied range, so the renumbered ranges do not depend on the order of kinds. The copied registrations are specified by their elements and their number, not their order.
- `getTimePoint` is called twice for the same view at lines 251 and 255. The second call returns the cached object, so the model calls it once.
- A file without a missing-views list (`null` at line 255) is modelled as a file with no missing views.
- The `NullPointerException` and `ArrayIndexOutOfBoundsException` failures are modelled as error results. In Java they escape `run()`.
- A merge may start only from a fresh object.
  - Run: requires a zero counter, an empty cache, no ranges and no kinds to merge. That is the state a new command object is in; a second `run()` on the same object is not modelled.
- Only present view-setups are proved separated.
  - Renumbering.RenumberedIdsSeparate: states separation of renumbered ids only for present view-setups. Ranges are built from present views alone (line 105), so the id of a view-setup whose views are all missing is not kept clear of other files' ranges.
- A malformed view-setup, one carrying two attributes of the same kind, is not modelled. A view-setup here holds at most one id per kind, as the code assumes at line 181; the code has no check for it.
- Time point ids that are not 0 .. n - 1 are not required away. They are followed to the `TimePointIndexOutOfBounds` failure. When ids are out of bounds, the Java code has already written into the table before it fails; the model reports only the failure.
