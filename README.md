# CPH3: level and identity bookkeeping of a multiresolution 3-map

This project models, in Dafny, the class `CPH3` of CGoGN 3
(`cgogn/core/types/cmap/cph3.cpp`). `CPH3` is the bookkeeping layer of an
adaptive, hierarchically refined volume mesh. Each dart (oriented half-edge)
carries three attributes:

- a level: the refinement generation that created the dart;
- an edge id: a colour in {0, 1, 2} used to tell the sub-edges of one coarse
  edge apart;
- a face id: a label used to tell apart the sub-faces of one coarse face.

The class also keeps a histogram of darts per level, the highest non-empty
level, and the level at which the map is currently seen. On top of these it
answers the level queries for edges, faces and volumes that the refinement
code relies on.

The model has five modules:

- `CMapTopology` gives the base topology. The permutations phi1, phi2 and
  phi121 are functions of the level and the dart. Ghost orbit witnesses
  (`cycleAt`, `navAt`) name the face of a dart and its phi121 walk, and
  `Cycle` says what makes a sequence an orbit.
- `LevelHistogram` holds the specification of `change_dart_level` on the pair
  (histogram, maximum level), with the invariants it keeps: an exact
  histogram of the dart levels, a maximum that is the highest non-empty
  bucket, and a constant dart total.
- `Identity` holds the edge-id lookup table and the "first free face id" rule.
- `LevelQueries` holds the reference definitions of the face and volume
  queries, on plain values, and what they mean: minima, first-extremum
  choice, maximal runs, and level bounds.
- `Cph3` holds the class `CPH3`. Its fields are the per-dart attribute
  sequences, `nbDartsPerLevel`, `maximumLevel` and `currentLevel`. Its methods
  follow the C++ loops and are proved equal to the reference definitions.

The class constructor takes the attributes and an exact histogram whose
highest non-empty bucket is the maximum level;
`LevelHistogram.BaseLevelConsistent` shows that a map of base darts gives one.

## Model

| member | source | states |
|---|---|---|
| `Cph3.CPH3.DartLevel` | cgogn/core/types/cmap/cph3.cpp:36-39 | the stored level of d; in a consistent state that level has a non-empty bucket and is at most the maximum level |
| `Cph3.CPH3.SetDartLevel` | cgogn/core/types/cmap/cph3.cpp:41-44 | only the level of d changes, and it becomes l |
| `Cph3.CPH3.ChangeDartLevel` | cgogn/core/types/cmap/cph3.cpp:46-61 | the new (histogram, maximum) pair is `Change` of the old one, and only d's level changes, to l. A consistent state (exact histogram, maximum at its highest non-empty bucket) stays consistent and keeps its dart total. A consistent, tight state stays tight. A tight histogram keeps its dart total |
| `Cph3.CPH3.DropEmptyTop` | cgogn/core/types/cmap/cph3.cpp:54-58 | the trim loop, run on the fields, ends in the state `TrimTop` describes |
| `LevelHistogram.TrimTop` | cgogn/core/types/cmap/cph3.cpp:54-58 | the new maximum lies between the floor and the old maximum and indexes a non-empty bucket. The buckets strictly above it, up to the old maximum, were empty. The result is a prefix of the input, and the length minus the maximum is kept (one bucket popped per level lowered) |
| `LevelHistogram.Change` | cgogn/core/types/cmap/cph3.cpp:46-61 | moving a dart to its own level changes nothing. Raising a dart above the maximum makes its new level the maximum |
| `LevelHistogram.Moved` | cgogn/core/types/cmap/cph3.cpp:48-49 | bucket `from` loses one dart and bucket `to` gains one (nothing changes when they are the same); every other bucket and the length are kept |
| `LevelHistogram.TrimDropsUntrackedBuckets` | cgogn/core/types/cmap/cph3.cpp:54-58 | on the non-tight histogram [1, 1, 5] with maximum 1, lowering a dart from level 1 to 0 gives ([2, 0], 0): the last bucket is popped with its 5 darts, so the total goes from 7 to 2 |
| `LevelHistogram.MovedSum` | cgogn/core/types/cmap/cph3.cpp:48-49 | the decrement and increment keep the histogram length and the dart total |
| `LevelHistogram.TrimTopSum` | cgogn/core/types/cmap/cph3.cpp:54-58 | dropping empty top buckets keeps the total and leaves a tight histogram |
| `LevelHistogram.ChangeKeepsTight` | cgogn/core/types/cmap/cph3.cpp:46-61 | on a tight histogram, the change keeps it tight and keeps the dart total |
| `LevelHistogram.ChangeKeepsCounts` | cgogn/core/types/cmap/cph3.cpp:46-61 | on an exact, tight histogram, the change yields the exact histogram of the relabelled levels, and it is tight |
| `LevelHistogram.ChangeKeepsInvariants` | cgogn/core/types/cmap/cph3.cpp:46-61 | the two facts above, under the weaker preconditions the C++ code itself needs |
| `LevelHistogram.CountsSum` | cgogn/core/types/cmap/cph3.cpp:48-49 | the buckets of an exact histogram add up to the number of darts |
| `LevelHistogram.MovedCounts` | cgogn/core/types/cmap/cph3.cpp:48-49 | on an exact histogram, the moved dart's old bucket is non-empty, and after the decrement and increment the histogram counts the relabelled levels exactly |
| `LevelHistogram.PrefixCounts` | cgogn/core/types/cmap/cph3.cpp:54-58 | popping only empty buckets off an exact histogram leaves it exact |
| `LevelHistogram.ChangeKeepsTopAt` | cgogn/core/types/cmap/cph3.cpp:46-61 | on an exact histogram whose maximum is its highest non-empty bucket, the change to any level with a bucket (a raise above the maximum included) yields the exact histogram of the relabelled levels, with the new maximum at its highest non-empty bucket and the same dart total |
| `LevelHistogram.RaiseAboveMaximum` | cgogn/core/types/cmap/cph3.cpp:50-51 | the raise branch is reachable from a consistent state: with levels [0, 1] and histogram [1, 1, 0], raising the level-1 dart to 2 gives ([1, 0, 1], 2), again consistent |
| `Cph3.CPH3.EdgeId` | cgogn/core/types/cmap/cph3.cpp:67-70 | the stored edge id of d, a plain read |
| `Cph3.CPH3.SetEdgeId` | cgogn/core/types/cmap/cph3.cpp:72-75 | only the edge id of d changes, and it becomes i |
| `Identity.RefinementEdgeId` | cgogn/core/types/cmap/cph3.cpp:77-97 | the new edge id is one of 0, 1, 2, looked up on the 32-bit sum of the parent ids |
| `Identity.RefinementEdgeIdTable` | cgogn/core/types/cmap/cph3.cpp:82-96 | the table for every pair of ids in 0..2 |
| `Identity.RefinementEdgeIdFresh` | cgogn/core/types/cmap/cph3.cpp:77-97 | for parent ids in 0..2, the new id differs from both parents and does not depend on their order |
| `Cph3.CPH3.RefinementEdgeId` | cgogn/core/types/cmap/cph3.cpp:77-97 | the id is at most 2 and differs from the edge ids of d and e whenever those are colours |
| `Cph3.CPH3.FaceId` | cgogn/core/types/cmap/cph3.cpp:103-106 | the stored face id of d, a plain read |
| `Cph3.CPH3.SetFaceId` | cgogn/core/types/cmap/cph3.cpp:108-111 | only the face id of d changes, and it becomes i |
| `Identity.FaceIdsOn` | cgogn/core/types/cmap/cph3.cpp:115-117 | the collected set holds exactly the face ids of the darts of the path |
| `Identity.FaceIdsOnSize` | cgogn/core/types/cmap/cph3.cpp:115-117 | a path of n darts carries at most n face ids |
| `Identity.FirstFreeBound` | cgogn/core/types/cmap/cph3.cpp:118-120 | if every number below r is taken, the set has at least r elements, so the search loop ends |
| `Cph3.CPH3.RefinementFaceId` | cgogn/core/types/cmap/cph3.cpp:113-122 | the result is the smallest natural number not carried by the path: no dart of the path has it, every smaller one is carried, and it is at most the path length |
| `Cph3.CPH3.EdgeLevel` | cgogn/core/types/cmap/cph3.cpp:128-132 | the edge level is the larger of the levels of d and of its phi1 image at the current level |
| `Cph3.CPH3.EdgeYoungestDart` | cgogn/core/types/cmap/cph3.cpp:134-141 | the result is d or its phi2 mate and has the larger of the two levels. On a tie it is the mate |
| `Cph3.CPH3.FaceLevel` | cgogn/core/types/cmap/cph3.cpp:147-194 | the result equals the reference `FaceLevelOf`, and the current level is restored |
| `Cph3.CPH3.ScanFace` | cgogn/core/types/cmap/cph3.cpp:153-170 | one turn of the face yields its first oldest dart and its smallest edge level |
| `Cph3.CPH3.CountSubEdges` | cgogn/core/types/cmap/cph3.cpp:175-183 | nbSubd is the number of steps along the orbit until a dart breaks the run (other edge id, or the start dart's level) or the start is reached again, as `RunLength` defines it (also lines 289-296) |
| `LevelQueries.LowerByHalvings` | cgogn/core/types/cmap/cph3.cpp:185-189 | the level is decremented once per halving of nbSubd, with 32-bit wrap-around |
| `LevelQueries.HalvingsIsLog` | cgogn/core/types/cmap/cph3.cpp:185-189 | the number of halvings is the binary logarithm of nbSubd, rounded down |
| `LevelQueries.DecTimesNoWrap` | cgogn/core/types/cmap/cph3.cpp:188 | k decrements of a level of at least k subtract k, with no wrap-around |
| `LevelQueries.EdgeLevelAt` | cgogn/core/types/cmap/cph3.cpp:128-132 | the edge level of x at level c is the level of x or of its phi1 image, whichever is larger |
| `LevelQueries.MinEdgeLevel` | cgogn/core/types/cmap/cph3.cpp:156-169 | the running minimum `fLevel` over the first n darts of the face; `MinEdgeLevelIsMin` states that it is the smallest of their edge levels |
| `LevelQueries.MinEdgeLevelIsMin` | cgogn/core/types/cmap/cph3.cpp:156-169 | the running minimum is the level of one of the edges seen and is no larger than any of them |
| `LevelQueries.OldestIndex` | cgogn/core/types/cmap/cph3.cpp:212-234 | the position, among the first n darts, that a scan replacing on a strictly smaller level keeps; `OldestIndexIsFirstMin` states that it is the first dart at the smallest level |
| `LevelQueries.OldestIndexIsFirstMin` | cgogn/core/types/cmap/cph3.cpp:162-167 | the kept dart has the smallest level, and every dart before it is strictly younger, so the first one wins |
| `LevelQueries.OldestIndexUnique` | cgogn/core/types/cmap/cph3.cpp:220-229 | any index that is at the smallest level and first there is the scan's choice, which justifies the early return on level 0 |
| `LevelQueries.YoungestIndex` | cgogn/core/types/cmap/cph3.cpp:236-258 | the position, among the first n darts, that a scan replacing on a strictly larger level keeps; `YoungestIndexIsFirstMax` states that it is the first dart at the largest level |
| `LevelQueries.YoungestIndexIsFirstMax` | cgogn/core/types/cmap/cph3.cpp:244-253 | the kept dart has the largest level, and every dart before it is strictly older |
| `LevelQueries.YoungestIndexUnique` | cgogn/core/types/cmap/cph3.cpp:244-253 | any index that is at the largest level and first there is the scan's choice, which justifies the early return on the current level |
| `LevelQueries.RunLength` | cgogn/core/types/cmap/cph3.cpp:179-183 | the value of nbSubd when the do-while stops: between the steps already taken and the orbit length, since coming back to the start stops it (also lines 292-296); `RunLengthIsRun` states the run is maximal |
| `LevelQueries.RunLengthIsRun` | cgogn/core/types/cmap/cph3.cpp:179-183 | the counted run is maximal: each dart in it continues the sub-edge, and the dart after it does not |
| `LevelQueries.OldestBelowEdgeLevels` | cgogn/core/types/cmap/cph3.cpp:153-172 | the face's oldest dart exists at the smallest edge level, so the face can be walked at that level |
| `LevelQueries.FaceLevelOf` | cgogn/core/types/cmap/cph3.cpp:147-194 | 0 at level 0; otherwise the smallest edge level of the face, decremented with wrap-around once per halving of the sub-edge run after the face's oldest dart, walked at that level; `FaceLevelBelowEdges` states what it bounds |
| `LevelQueries.FaceLevelBelowEdges` | cgogn/core/types/cmap/cph3.cpp:147-194 | without wrap-around, the face level is the smallest edge level minus the halvings, so it is at most every edge level of the face |
| `LevelQueries.Origin` | cgogn/core/types/cmap/cph3.cpp:196-210 | the origin of a face is a dart of level 0 |
| `LevelQueries.OriginOfBaseDart` | cgogn/core/types/cmap/cph3.cpp:202-207 | a dart of level 0 is its own origin, so the descent stops there |
| `Cph3.CPH3.FaceOrigin` | cgogn/core/types/cmap/cph3.cpp:196-210 | the result is the reference `Origin`: a dart of level 0. The current level is restored |
| `Cph3.CPH3.FaceOldestDart` | cgogn/core/types/cmap/cph3.cpp:212-234 | the result is the first dart of the face at its smallest level |
| `Cph3.CPH3.FaceYoungestDart` | cgogn/core/types/cmap/cph3.cpp:236-258 | the result is the first dart of the face at its largest level |
| `Cph3.CPH3.VolumeLevel` | cgogn/core/types/cmap/cph3.cpp:264-305 | the result equals the reference `VolumeLevelOf`, and the current level is restored |
| `Cph3.CPH3.ScanVolumeFaces` | cgogn/core/types/cmap/cph3.cpp:271-285 | over the incident faces, this gives the running minimum of the face levels from the largest 32-bit value, and the running oldest dart |
| `Cph3.CPH3.VisitFace` | cgogn/core/types/cmap/cph3.cpp:276-283 | one incident face advances both running values by one face |
| `LevelQueries.VolumeStep` | cgogn/core/types/cmap/cph3.cpp:278-283 | a one-step unfolding of `VolumeOldest` and `VolumeYoungest` at the i-th face, used by the loops; it adds nothing about the source |
| `LevelQueries.VolumeScanStep` | cgogn/core/types/cmap/cph3.cpp:276-277 | a one-step unfolding of `MinFrom` over the face levels at the i-th face, used by the loop; it adds nothing about the source |
| `LevelQueries.MinFrom` | cgogn/core/types/cmap/cph3.cpp:273-277 | the running minimum `v = l < v ? l : v` from init over the first n values; `MinFromIsMin` states it is the smallest of init and those values |
| `LevelQueries.MinFromIsMin` | cgogn/core/types/cmap/cph3.cpp:273-277 | the running minimum is the start value or one of the face levels, and no larger than any of them |
| `LevelQueries.VolumeLevelOf` | cgogn/core/types/cmap/cph3.cpp:264-305 | the smallest face level, decremented with wrap-around once per halving of the sub-edge run along phi121 from the volume's oldest dart, walked at that level; `VolumeLevelBelowFaces` states what it bounds |
| `LevelQueries.VolumeLevelBelowFaces` | cgogn/core/types/cmap/cph3.cpp:264-305 | without wrap-around, the volume level is the smallest face level minus the halvings, so it is at most every incident face level |
| `LevelQueries.VolumeOldest` | cgogn/core/types/cmap/cph3.cpp:307-325 | the fold from d over the first n faces that takes a face's oldest dart when strictly older; a dart of the map; `VolumeOldestIsOldest` states it is the oldest |
| `LevelQueries.VolumeYoungest` | cgogn/core/types/cmap/cph3.cpp:327-345 | the fold from d over the first n faces that takes a face's youngest dart when strictly younger; a dart of the map; `VolumeYoungestIsYoungest` states it is the youngest |
| `LevelQueries.VolumeOldestIsOldest` | cgogn/core/types/cmap/cph3.cpp:307-325 | the result is d or a dart of an incident face, and no such dart is older |
| `LevelQueries.VolumeYoungestIsYoungest` | cgogn/core/types/cmap/cph3.cpp:327-345 | the result is d or a dart of an incident face, and no such dart is younger |
| `Cph3.CPH3.VolumeOldestDart` | cgogn/core/types/cmap/cph3.cpp:307-325 | the result is the reference `VolumeOldest` over all incident faces |
| `Cph3.CPH3.VolumeYoungestDart` | cgogn/core/types/cmap/cph3.cpp:327-345 | the result is the reference `VolumeYoungest` over all incident faces |

## Left out

- The combinatorial map is not modelled. phi1, phi2 and phi121 are functions
  of (level, dart) passed in a `Topology` value. The faces and phi121 walks
  are ghost orbit witnesses, so navigation is assumed correct rather than
  computed. The permutations of the map are not part of this model.
- The `MRCmap3 m2(m, vLevel)` view of `volume_level` is modelled as phi121
  taken at level vLevel, over the same per-dart attributes.
- `foreach_incident_face` is not modelled. The volume queries take the
  sequence `faces` of one representative dart per incident face, in the
  traversal's order.
- The `cgogn_message_assert` checks (the dart exists at the current level)
  become preconditions.
- `Cph3.CPH3.ChangeDartLevel`: `change_dart_level` never grows the histogram,
  so the new level's bucket must already exist (`l < |nbDartsPerLevel|`).
  Growing it before darts are raised to a new level is the caller's job, and
  that code is not part of this model; `Consistent` admits such grown
  histograms, and `LevelHistogram.RaiseAboveMaximum` shows a raise from one.
  The other preconditions (the old level has a non-empty bucket, the maximum
  indexes a bucket, a lowered level is at most the maximum) hold in every
  consistent state, by `LevelHistogram.ChangeKeepsTopAt`. The non-empty old
  bucket is needed because the unsigned decrement of an empty bucket would
  wrap.
- `Cph3.CPH3.ChangeDartLevel`: the requirement that a lowered level is at
  most the maximum level stands in for the C++ loop's reliance on a non-empty
  bucket below. It follows from the histogram invariants.
- `LevelHistogram.ChangeKeepsTight`: the dart total is kept only for
  consistent or tight (length maximum + 1) histograms. A tight histogram
  stays tight, but it has no bucket above the maximum, so it admits no
  raise; grown histograms are covered by `LevelHistogram.ChangeKeepsTopAt`
  instead. The trim loop pops the last bucket, not the bucket at the
  maximum, so on a histogram whose buckets above the maximum are non-empty
  (not a consistent state) they are discarded with their darts; `LevelHistogram.TrimDropsUntrackedBuckets`
  gives the instance ([1, 1, 5], maximum 1, one dart lowered from 1 to 0: the
  total goes from 7 to 2). In a consistent state those buckets are empty, so
  this does not arise there.
- Counters (`nb_darts_per_level_` buckets, nbSubd) are unbounded naturals.
  Their 32-bit overflow is not modelled, because it needs more than 2^32
  darts. The wrap-around of `--fLevel`/`--vLevel` below 0 and of the edge id
  sum is modelled.
- `Cph3.CPH3.FaceOrigin`: termination of the descent needs `Descends`. This
  predicate says every dart above level 0 finds a strictly older dart in its
  face at its own level. It is a property of well-formed hierarchies and is
  taken as a precondition. Without it the C++ do-while (lines 202-207) does
  not terminate: when a dart p of level pLevel > 0 has no strictly older
  dart in its face at that level, `face_oldest_dart` returns a dart of the
  same level and pLevel never decreases. That non-termination is not modelled.
- `Cph3.CPH3.VolumeOldestDart` and `Cph3.CPH3.VolumeYoungestDart`: the C++
  code (lines 309-315 and 329-335) calls the free functions
  `face_oldest_dart(m, f.dart)` and `face_youngest_dart(m, f.dart)` on the
  `MRCmap3` m and reads levels through `m.cph()`. Those free functions are
  not part of this model; the member scans `FaceOldestDart` and
  `FaceYoungestDart` at `currentLevel`, over the same per-dart attributes,
  stand in for them.
- `face_level` and `face_origin` change `current_level_` and restore it. The
  model does the same on the `currentLevel` field. Concurrent access during
  that window is not modelled.
- Edge youngest dart: on equal levels the code returns the phi2 mate, not d.
  The model follows the code.
- Edge id table: for parent ids 1 and 2 the code returns 0, which is the only
  id distinct from both parents. The model follows the code.
