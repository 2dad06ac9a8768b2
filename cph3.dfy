/** CPH3: the level and identity bookkeeping of a multiresolution 3-map.

    The object holds the per-dart attributes (level, edge id, face id) as
    parallel sequences indexed by dart, the histogram of darts per level
    with its tight maximum level, and the current level at which the map
    is seen. The base topology is handed to each query as a Topology value
    together with ghost orbit witnesses (see CMapTopology). */
module Cph3 {
  import opened CMapTopology
  import opened LevelHistogram
  import Identity
  import opened LevelQueries

  class CPH3 {
    var dartLevel: seq<nat>
    var edgeId: seq<nat>
    var faceId: seq<nat>
    var nbDartsPerLevel: seq<nat>
    var maximumLevel: nat
    var currentLevel: nat

    /** The per-dart attributes have one entry per dart. */
    ghost predicate Valid()
      reads this
    {
      |edgeId| == |dartLevel| && |faceId| == |dartLevel|
    }

    /** The histogram counts the dart levels exactly, and the maximum level
        is its highest non-empty bucket. Buckets above it may exist (a caller
        grows the histogram before raising darts to a new level). */
    ghost predicate Consistent()
      reads this
    {
      Counts(nbDartsPerLevel, dartLevel) && TopAt(nbDartsPerLevel, maximumLevel)
    }

    /** A map with the given per-dart attributes and histogram, seen at
        level c. The histogram must count the levels exactly and have its
        highest non-empty bucket at the maximum level (see
        LevelHistogram.BaseLevelConsistent for a map of base darts). */
    constructor (levels: seq<nat>, edgeIds: seq<nat>, faceIds: seq<nat>, h: seq<nat>, m: nat, c: nat)
      requires |edgeIds| == |levels| && |faceIds| == |levels|
      requires Counts(h, levels) && TopAt(h, m)
      ensures dartLevel == levels && edgeId == edgeIds && faceId == faceIds
      ensures nbDartsPerLevel == h && maximumLevel == m && currentLevel == c
      ensures Valid() && Consistent()
    {
      dartLevel, edgeId, faceId := levels, edgeIds, faceIds;
      nbDartsPerLevel, maximumLevel, currentLevel := h, m, c;
    }

    /*********************** levels management ***********************/

    /** The level of dart d. In a consistent state it has a non-empty
        bucket, at or below the maximum level. */
    function DartLevel(d: nat): (r: nat)
      reads this
      requires d < |dartLevel|
      ensures Consistent() ==> r <= maximumLevel && nbDartsPerLevel[r] > 0
    {
      CountOwnLevel(dartLevel, d);
      dartLevel[d]
    }

    /** Records the level of a dart at creation; the histogram is left to
        the caller. */
    method SetDartLevel(d: nat, l: nat)
      requires d < |dartLevel|
      modifies this`dartLevel
      ensures dartLevel == old(dartLevel)[d := l]
    {
      dartLevel := dartLevel[d := l];
    }

    /** Moves dart d to level l: one dart leaves the bucket of its old level
        and enters bucket l; the maximum level rises to l when l is above
        both the old level and the maximum, and when l is below the old level
        the empty top buckets are dropped. Only d's level changes. The
        histogram is never grown, so bucket l must exist. */
    method ChangeDartLevel(d: nat, l: nat)
      requires d < |dartLevel| && l < |nbDartsPerLevel| && maximumLevel < |nbDartsPerLevel|
      requires dartLevel[d] < |nbDartsPerLevel| && nbDartsPerLevel[dartLevel[d]] > 0
      requires l < dartLevel[d] ==> l <= maximumLevel
      modifies this`dartLevel, this`nbDartsPerLevel, this`maximumLevel
      ensures dartLevel == old(dartLevel)[d := l]
      ensures (nbDartsPerLevel, maximumLevel)
           == Change(old(nbDartsPerLevel), old(maximumLevel), old(dartLevel[d]), l)
      ensures old(Consistent()) ==> Consistent() && Sum(nbDartsPerLevel) == old(Sum(nbDartsPerLevel))
      ensures old(Consistent() && Tight(nbDartsPerLevel, maximumLevel)) ==> Tight(nbDartsPerLevel, maximumLevel)
      ensures old(Tight(nbDartsPerLevel, maximumLevel)) ==> Sum(nbDartsPerLevel) == old(Sum(nbDartsPerLevel))
    {
      ghost var h0, m0, levels0 := nbDartsPerLevel, maximumLevel, dartLevel;
      ghost var wasConsistent := Consistent();
      var from := dartLevel[d];
      nbDartsPerLevel := nbDartsPerLevel[from := nbDartsPerLevel[from] - 1];
      nbDartsPerLevel := nbDartsPerLevel[l := nbDartsPerLevel[l] + 1];
      assert nbDartsPerLevel == Moved(h0, from, l);
      if l > from && l > maximumLevel {
        maximumLevel := l;
      }
      if l < from {
        DropEmptyTop(l);
      }
      dartLevel := dartLevel[d := l];
      ChangeKeepsInvariants(h0, m0, levels0, d, l);
      if wasConsistent {
        ChangeKeepsTopAt(h0, m0, levels0, d, l);
      }
    }

    /** The trim loop of change_dart_level: while the bucket of the maximum
        level is empty, lower the maximum and pop the last bucket. The
        non-empty bucket `floor` stops it. */
    method DropEmptyTop(floor: nat)
      requires floor <= maximumLevel < |nbDartsPerLevel| && nbDartsPerLevel[floor] > 0
      modifies this`nbDartsPerLevel, this`maximumLevel
      ensures (nbDartsPerLevel, maximumLevel) == TrimTop(old(nbDartsPerLevel), old(maximumLevel), floor)
    {
      while nbDartsPerLevel[maximumLevel] == 0
        invariant floor <= maximumLevel < |nbDartsPerLevel| && nbDartsPerLevel[floor] > 0
        invariant TrimTop(nbDartsPerLevel, maximumLevel, floor)
               == TrimTop(old(nbDartsPerLevel), old(maximumLevel), floor)
        decreases maximumLevel
      {
        maximumLevel := maximumLevel - 1;
        nbDartsPerLevel := nbDartsPerLevel[..|nbDartsPerLevel| - 1];
      }
    }

    /*********************** edge id management ***********************/

    function EdgeId(d: nat): (r: nat)
      reads this
      requires d < |edgeId|
    {
      edgeId[d]
    }

    method SetEdgeId(d: nat, i: nat)
      requires d < |edgeId|
      modifies this`edgeId
      ensures edgeId == old(edgeId)[d := i]
    {
      edgeId := edgeId[d := i];
    }

    /** The edge id for a new edge splitting the edge between d and e: one
        of 0, 1, 2 that differs from both parents' ids when they are among
        0, 1, 2. */
    function RefinementEdgeId(d: nat, e: nat): (r: nat)
      reads this
      requires d < |edgeId| && e < |edgeId|
      ensures r <= 2
      ensures edgeId[d] <= 2 && edgeId[e] <= 2 ==> r != edgeId[d] && r != edgeId[e]
    {
      Identity.RefinementEdgeId(edgeId[d], edgeId[e])
    }

    /*********************** face id management ***********************/

    function FaceId(d: nat): (r: nat)
      reads this
      requires d < |faceId|
    {
      faceId[d]
    }

    method SetFaceId(d: nat, i: nat)
      requires d < |faceId|
      modifies this`faceId
      ensures faceId == old(faceId)[d := i]
    {
      faceId := faceId[d := i];
    }

    /** The face id for a new face made by a cut along cutPath: the smallest
        natural number that no dart of the path carries as its face id. */
    method RefinementFaceId(cutPath: seq<nat>) returns (r: nat)
      requires forall i :: 0 <= i < |cutPath| ==> cutPath[i] < |faceId|
      ensures forall i :: 0 <= i < |cutPath| ==> faceId[cutPath[i]] != r
      ensures forall k :: 0 <= k < r ==> k in Identity.FaceIdsOn(faceId, cutPath)
      ensures r <= |cutPath|
    {
      var setFid: set<nat> := {};
      for i := 0 to |cutPath|
        invariant setFid == Identity.FaceIdsOn(faceId, cutPath[..i])
      {
        assert cutPath[..i + 1] == cutPath[..i] + [cutPath[i]];
        setFid := setFid + {faceId[cutPath[i]]};
      }
      assert cutPath[..|cutPath|] == cutPath;
      var result := 0;
      while result in setFid
        invariant forall k :: 0 <= k < result ==> k in setFid
        invariant result <= |setFid|
        decreases |setFid| - result
      {
        Identity.FirstFreeBound(setFid, result + 1);
        result := result + 1;
      }
      Identity.FaceIdsOnSize(faceId, cutPath);
      r := result;
    }

    /*************************** edge info ***************************/

    /** The level of the edge of d: the later of the levels of d and of
        its phi1 image, the two darts that bound the edge. */
    function EdgeLevel(t: Topology, d: nat): (r: nat)
      reads this
      requires d < |dartLevel| && dartLevel[d] <= currentLevel
      requires t.phi1(currentLevel, d) < |dartLevel|
      ensures r >= dartLevel[d] && r >= dartLevel[t.phi1(currentLevel, d)]
      ensures r == dartLevel[d] || r == dartLevel[t.phi1(currentLevel, d)]
    {
      EdgeLevelAt(t, dartLevel, currentLevel, d)
    }

    /** Of d and its phi2 mate, the one of strictly higher level; the mate
        on a tie. */
    function EdgeYoungestDart(t: Topology, d: nat): (r: nat)
      reads this
      requires d < |dartLevel| && dartLevel[d] <= currentLevel
      requires t.phi2(currentLevel, d) < |dartLevel|
      ensures r == d || r == t.phi2(currentLevel, d)
      ensures r < |dartLevel| && dartLevel[r] == Max(dartLevel[d], dartLevel[t.phi2(currentLevel, d)])
      ensures dartLevel[d] <= dartLevel[t.phi2(currentLevel, d)] ==> r == t.phi2(currentLevel, d)
    {
      var d2 := t.phi2(currentLevel, d);
      if dartLevel[d] > dartLevel[d2] then d else d2
    }

    /*************************** face info ***************************/

    /** The level of the face of d (see LevelQueries.FaceLevelOf). The
        current level is lowered to the face's smallest edge level while the
        sub-edges are counted, and put back before returning. */
    method FaceLevel(t: Topology, ghost cycleAt: (nat, nat) -> seq<nat>, d: nat) returns (r: nat)
      requires Valid() && FaceOrbits(t, dartLevel, cycleAt)
      requires d < |dartLevel| && dartLevel[d] <= currentLevel
      modifies this`currentLevel
      ensures currentLevel == old(currentLevel)
      ensures r == FaceLevelOf(t, dartLevel, edgeId, currentLevel, cycleAt, d)
    {
      if currentLevel == 0 {
        return 0;
      }
      ghost var c0 := currentLevel;
      ghost var cyc := cycleAt(currentLevel, d);
      var oldest, fLevel := ScanFace(t, cyc, d);
      OldestBelowEdgeLevels(t, dartLevel, currentLevel, cyc);

      var lsave := currentLevel;
      currentLevel := fLevel;
      ghost var sub := cycleAt(fLevel, oldest);
      var nbSubd := CountSubEdges(t.phi1, currentLevel, sub, oldest);
      ghost var fMin := fLevel;
      fLevel := LowerByHalvings(fLevel, nbSubd);
      currentLevel := lsave;
      r := fLevel;
      FaceLevelOfParts(t, dartLevel, edgeId, c0, cycleAt, d, fMin, oldest);
    }

    /** The first do-while of face_level: one turn around the face of d,
        keeping the oldest dart met (replaced only by a strictly older one)
        and the smallest edge level. */
    method ScanFace(t: Topology, ghost cyc: seq<nat>, d: nat) returns (oldest: nat, fLevel: nat)
      requires Cycle(t.phi1, currentLevel, cyc, d, |dartLevel|) && Visible(dartLevel, currentLevel, cyc)
      ensures EdgesIn(t, dartLevel, currentLevel, cyc)
      ensures oldest == cyc[OldestIndex(dartLevel, cyc, |cyc|)]
      ensures fLevel == MinEdgeLevel(t, dartLevel, currentLevel, cyc, |cyc|)
    {
      CycleEdgesIn(t, dartLevel, currentLevel, cyc, d);
      var it := d;
      oldest := it;
      var lOld := dartLevel[oldest];
      fLevel := EdgeLevel(t, it);
      ghost var i := 0;
      while true
        invariant 0 <= i < |cyc| && it == cyc[i]
        invariant oldest == cyc[OldestIndex(dartLevel, cyc, i + 1)] && lOld == dartLevel[oldest]
        invariant fLevel == MinEdgeLevel(t, dartLevel, currentLevel, cyc, i + 1)
        decreases |cyc| - i
      {
        CycleStep(t.phi1, currentLevel, cyc, d, |dartLevel|, i);
        if i + 1 == |cyc| {
          // back at d: the dart and its edge were already taken into account
          OldestIndexIsFirstMin(dartLevel, cyc, i + 1);
          MinEdgeLevelIsMin(t, dartLevel, currentLevel, cyc, i + 1);
        }
        it := t.phi1(currentLevel, it);
        var dl := dartLevel[it];
        if dl < lOld {
          oldest := it;
          lOld := dl;
        }
        var l := EdgeLevel(t, it);
        fLevel := if l < fLevel then l else fLevel;
        if it == d {
          break;
        }
        i := i + 1;
      }
    }

    /** The do-while shared by face_level and volume_level: stepping from
        `start` along its orbit (phi1 or phi121 at level l), count the steps
        while the dart reached carries the edge id of `start` at a different
        level. */
    method CountSubEdges(step: (nat, nat) -> nat, l: nat, ghost orbit: seq<nat>, start: nat)
      returns (nbSubd: nat)
      requires Valid() && Cycle(step, l, orbit, start, |dartLevel|)
      ensures Darts(dartLevel, orbit)
      ensures nbSubd == RunLength(dartLevel, edgeId, orbit, 1)
    {
      nbSubd := 0;
      var it := start;
      var eId := edgeId[start];
      var initDartLevel := dartLevel[it];
      ghost var k := 0;
      while true
        invariant 0 <= k < |orbit| && it == orbit[k] && nbSubd == k
        invariant RunLength(dartLevel, edgeId, orbit, 1) == RunLength(dartLevel, edgeId, orbit, k + 1)
        decreases |orbit| - k
      {
        nbSubd := nbSubd + 1;
        CycleStep(step, l, orbit, start, |dartLevel|, k);
        it := step(l, it);
        if !(edgeId[it] == eId && dartLevel[it] != initDartLevel) {
          break;
        }
        k := k + 1;
      }
    }

    /** The level-0 ancestor of the face of d: repeatedly look at the face
        of the candidate at the candidate's own level and take its oldest
        dart, until that dart is of level 0. The current level is restored
        before returning. */
    method FaceOrigin(t: Topology, ghost cycleAt: (nat, nat) -> seq<nat>, d: nat) returns (p: nat)
      requires FaceOrbits(t, dartLevel, cycleAt) && Descends(dartLevel, cycleAt)
      requires d < |dartLevel| && dartLevel[d] <= currentLevel
      modifies this`currentLevel
      ensures currentLevel == old(currentLevel)
      ensures p == Origin(t, dartLevel, cycleAt, d)
      ensures p < |dartLevel| && dartLevel[p] == 0
    {
      p := d;
      var pLevel := dartLevel[p];
      var lsave := currentLevel;
      while true
        invariant p < |dartLevel| && pLevel == dartLevel[p]
        invariant Origin(t, dartLevel, cycleAt, p) == Origin(t, dartLevel, cycleAt, d)
        decreases pLevel
      {
        currentLevel := pLevel;
        ghost var cyc := cycleAt(pLevel, p);
        p := FaceOldestDart(t, cyc, p);
        OldestIndexIsFirstMin(dartLevel, cyc, |cyc|);
        pLevel := dartLevel[p];
        if pLevel == 0 {
          OriginOfBaseDart(t, dartLevel, cycleAt, p);
          break;
        }
      }
      OriginOfBaseDart(t, dartLevel, cycleAt, p);
      currentLevel := lsave;
    }

    /** The first dart of the face cycle of d at the smallest level. The scan
        stops at the first dart of level 0, as no dart can be older. */
    method FaceOldestDart(t: Topology, ghost cyc: seq<nat>, d: nat) returns (r: nat)
      requires Cycle(t.phi1, currentLevel, cyc, d, |dartLevel|) && Visible(dartLevel, currentLevel, cyc)
      ensures Darts(dartLevel, cyc)
      ensures r == cyc[OldestIndex(dartLevel, cyc, |cyc|)]
    {
      var it := d;
      var oldest := it;
      var lOld := dartLevel[oldest];
      ghost var i := 0;
      while true
        invariant 0 <= i < |cyc| && it == cyc[i]
        invariant oldest == cyc[OldestIndex(dartLevel, cyc, if i == 0 then 1 else i)]
        invariant lOld == dartLevel[oldest]
        invariant forall j :: 0 <= j < i ==> dartLevel[cyc[j]] > 0
        decreases |cyc| - i
      {
        var l := dartLevel[it];
        if l == 0 {
          OldestIndexUnique(dartLevel, cyc, |cyc|, i);
          return it;
        }
        if l < lOld {
          oldest := it;
          lOld := l;
        }
        CycleStep(t.phi1, currentLevel, cyc, d, |dartLevel|, i);
        it := t.phi1(currentLevel, it);
        if it == d {
          break;
        }
        i := i + 1;
      }
      r := oldest;
    }

    /** The first dart of the face cycle of d at the largest level. The scan
        stops at the first dart of the current level, as no dart of the face
        can be younger. */
    method FaceYoungestDart(t: Topology, ghost cyc: seq<nat>, d: nat) returns (r: nat)
      requires Cycle(t.phi1, currentLevel, cyc, d, |dartLevel|) && Visible(dartLevel, currentLevel, cyc)
      ensures Darts(dartLevel, cyc)
      ensures r == cyc[YoungestIndex(dartLevel, cyc, |cyc|)]
    {
      var it := d;
      var youngest := it;
      var lYoung := dartLevel[youngest];
      ghost var i := 0;
      while true
        invariant 0 <= i < |cyc| && it == cyc[i]
        invariant youngest == cyc[YoungestIndex(dartLevel, cyc, if i == 0 then 1 else i)]
        invariant lYoung == dartLevel[youngest]
        invariant forall j :: 0 <= j < i ==> dartLevel[cyc[j]] < currentLevel
        decreases |cyc| - i
      {
        var l := dartLevel[it];
        if l == currentLevel {
          YoungestIndexUnique(dartLevel, cyc, |cyc|, i);
          return it;
        }
        if l > lYoung {
          youngest := it;
          lYoung := l;
        }
        CycleStep(t.phi1, currentLevel, cyc, d, |dartLevel|, i);
        it := t.phi1(currentLevel, it);
        if it == d {
          break;
        }
        i := i + 1;
      }
      r := youngest;
    }

    /************************** volume info **************************/

    /** The level of the volume of d, whose incident faces are represented
        by the darts of `faces` (see LevelQueries.VolumeLevelOf). The walk
        around the volume uses phi121 in the map seen at the volume's
        smallest face level. */
    method VolumeLevel(t: Topology, ghost cycleAt: (nat, nat) -> seq<nat>, ghost navAt: (nat, nat) -> seq<nat>,
                       d: nat, faces: seq<nat>) returns (r: nat)
      requires Valid() && FaceOrbits(t, dartLevel, cycleAt) && NavOrbits(t, |dartLevel|, navAt)
      requires FacesVisible(dartLevel, currentLevel, faces)
      requires d < |dartLevel| && dartLevel[d] <= currentLevel
      modifies this`currentLevel
      ensures currentLevel == old(currentLevel)
      ensures r == VolumeLevelOf(t, dartLevel, edgeId, currentLevel, cycleAt, navAt, d, faces)
    {
      var oldest, vLevel := ScanVolumeFaces(t, cycleAt, d, faces);
      var nbSubd := CountSubEdges(t.phi121, vLevel, navAt(vLevel, oldest), oldest);
      vLevel := LowerByHalvings(vLevel, nbSubd);
      r := vLevel;
    }

    /** The foreach_incident_face loop of volume_level: over the faces of
        the volume, the smallest face level (from the largest 32-bit value)
        and the oldest of d and the faces' oldest darts. */
    method ScanVolumeFaces(t: Topology, ghost cycleAt: (nat, nat) -> seq<nat>, d: nat, faces: seq<nat>)
      returns (oldest: nat, vLevel: nat)
      requires Valid() && FaceOrbits(t, dartLevel, cycleAt)
      requires FacesVisible(dartLevel, currentLevel, faces) && d < |dartLevel|
      modifies this`currentLevel
      ensures currentLevel == old(currentLevel)
      ensures CyclesOk(dartLevel, FaceCycles(cycleAt, currentLevel, faces))
      ensures vLevel == MinFrom(MaxUint32, FaceLevels(t, dartLevel, edgeId, currentLevel, cycleAt, faces), |faces|)
      ensures oldest == VolumeOldest(dartLevel, d, FaceCycles(cycleAt, currentLevel, faces), |faces|)
    {
      FaceCyclesOk(t, dartLevel, cycleAt, currentLevel, faces);
      ghost var cs := FaceCycles(cycleAt, currentLevel, faces);
      ghost var fls := FaceLevels(t, dartLevel, edgeId, currentLevel, cycleAt, faces);
      oldest := d;
      vLevel := MaxUint32;
      for i := 0 to |faces|
        invariant currentLevel == old(currentLevel)
        invariant vLevel == MinFrom(MaxUint32, fls, i)
        invariant oldest == VolumeOldest(dartLevel, d, cs, i)
      {
        vLevel, oldest := VisitFace(t, cycleAt, d, faces, i, cs, fls, vLevel, oldest);
      }
    }

    /** One turn of the volume_level loop: the level of the i-th incident
        face lowers the running minimum, and its oldest dart replaces the
        running oldest dart when strictly older. */
    method VisitFace(t: Topology, ghost cycleAt: (nat, nat) -> seq<nat>, d: nat, faces: seq<nat>, i: nat,
                     ghost cs: seq<seq<nat>>, ghost fls: seq<nat>, vLevel: nat, oldest: nat)
      returns (vLevel': nat, oldest': nat)
      requires Valid() && FaceOrbits(t, dartLevel, cycleAt)
      requires FacesVisible(dartLevel, currentLevel, faces) && d < |dartLevel| && i < |faces|
      requires cs == FaceCycles(cycleAt, currentLevel, faces)
      requires fls == FaceLevels(t, dartLevel, edgeId, currentLevel, cycleAt, faces)
      requires CyclesOk(dartLevel, cs)
      requires vLevel == MinFrom(MaxUint32, fls, i) && oldest == VolumeOldest(dartLevel, d, cs, i)
      modifies this`currentLevel
      ensures currentLevel == old(currentLevel)
      ensures vLevel' == MinFrom(MaxUint32, fls, i + 1) && oldest' == VolumeOldest(dartLevel, d, cs, i + 1)
    {
      VolumeStep(t, dartLevel, cycleAt, currentLevel, d, faces, i);
      VolumeScanStep(t, dartLevel, edgeId, currentLevel, cycleAt, faces, i);
      var fLevel := FaceLevel(t, cycleAt, faces[i]);
      vLevel' := if fLevel < vLevel then fLevel else vLevel;
      var o := FaceOldestDart(t, cycleAt(currentLevel, faces[i]), faces[i]);
      oldest' := if dartLevel[o] < dartLevel[oldest] then o else oldest;
    }

    /** The oldest dart over the faces incident to the volume of d: d, or
        the oldest dart of the first face that holds a strictly older one. */
    method VolumeOldestDart(t: Topology, ghost cycleAt: (nat, nat) -> seq<nat>, d: nat, faces: seq<nat>)
      returns (oldest: nat)
      requires FaceOrbits(t, dartLevel, cycleAt) && FacesVisible(dartLevel, currentLevel, faces)
      requires d < |dartLevel| && dartLevel[d] <= currentLevel
      ensures CyclesOk(dartLevel, FaceCycles(cycleAt, currentLevel, faces))
      ensures oldest == VolumeOldest(dartLevel, d, FaceCycles(cycleAt, currentLevel, faces), |faces|)
    {
      FaceCyclesOk(t, dartLevel, cycleAt, currentLevel, faces);
      ghost var cs := FaceCycles(cycleAt, currentLevel, faces);
      oldest := d;
      var lOld := dartLevel[oldest];
      for i := 0 to |faces|
        invariant oldest == VolumeOldest(dartLevel, d, cs, i) && lOld == dartLevel[oldest]
      {
        VolumeStep(t, dartLevel, cycleAt, currentLevel, d, faces, i);
        var o := FaceOldestDart(t, cycleAt(currentLevel, faces[i]), faces[i]);
        var l := dartLevel[o];
        if l < lOld {
          oldest := o;
          lOld := l;
        }
      }
    }

    /** The youngest dart over the faces incident to the volume of d. */
    method VolumeYoungestDart(t: Topology, ghost cycleAt: (nat, nat) -> seq<nat>, d: nat, faces: seq<nat>)
      returns (youngest: nat)
      requires FaceOrbits(t, dartLevel, cycleAt) && FacesVisible(dartLevel, currentLevel, faces)
      requires d < |dartLevel| && dartLevel[d] <= currentLevel
      ensures CyclesOk(dartLevel, FaceCycles(cycleAt, currentLevel, faces))
      ensures youngest == VolumeYoungest(dartLevel, d, FaceCycles(cycleAt, currentLevel, faces), |faces|)
    {
      FaceCyclesOk(t, dartLevel, cycleAt, currentLevel, faces);
      ghost var cs := FaceCycles(cycleAt, currentLevel, faces);
      youngest := d;
      var lYoung := dartLevel[youngest];
      for i := 0 to |faces|
        invariant youngest == VolumeYoungest(dartLevel, d, cs, i) && lYoung == dartLevel[youngest]
      {
        VolumeStep(t, dartLevel, cycleAt, currentLevel, d, faces, i);
        var y := FaceYoungestDart(t, cycleAt(currentLevel, faces[i]), faces[i]);
        var l := dartLevel[y];
        if l > lYoung {
          youngest := y;
          lYoung := l;
        }
      }
    }
  }
}
