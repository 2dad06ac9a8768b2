/** Reference definitions of the level-aware face and volume queries, on
    plain values: the per-dart levels and edge ids, the level c the map is
    seen at, and the orbits of the base topology. The methods of CPH3 are
    proved equal to these; the lemmas here say what the values mean. */
module LevelQueries {
  import opened CMapTopology

  /** std::numeric_limits<uint32>::max(), the start value of volume_level's
      minimum and the value a decrement of 0 wraps to. */
  const MaxUint32: nat := 0xFFFF_FFFF

  function Max(a: nat, b: nat): (r: nat)
  {
    if a < b then b else a
  }

  /** `--x` on a 32-bit unsigned level. */
  function Dec(x: nat): (r: nat)
  {
    if x == 0 then MaxUint32 else x - 1
  }

  /** k decrements in a row. */
  function DecTimes(x: nat, k: nat): (r: nat)
    decreases k
  {
    if k == 0 then x else DecTimes(Dec(x), k - 1)
  }

  function Pow2(k: nat): (r: nat)
  {
    if k == 0 then 1 else 2 * Pow2(k - 1)
  }

  /** How often `while (n > 1) n /= 2;` runs. */
  function Halvings(n: nat): (r: nat)
  {
    if n <= 1 then 0 else 1 + Halvings(n / 2)
  }

  /** The halving loop shared by face_level and volume_level: the level is
      decremented (with 32-bit wrap-around) once per halving of nbSubd. */
  method LowerByHalvings(level: nat, nbSubd: nat) returns (r: nat)
    ensures r == DecTimes(level, Halvings(nbSubd))
  {
    var n := nbSubd;
    r := level;
    while n > 1
      invariant DecTimes(r, Halvings(n)) == DecTimes(level, Halvings(nbSubd))
      decreases n
    {
      n := n / 2;
      r := Dec(r);
    }
  }

  /** Without wrap-around, k decrements subtract k. */
  lemma {:induction false} DecTimesNoWrap(x: nat, k: nat)
    requires k <= x
    ensures DecTimes(x, k) == x - k
    decreases k
  {
    if k > 0 {
      DecTimesNoWrap(x - 1, k - 1);
    }
  }

  /** The halving loop counts the binary logarithm of n, rounded down. */
  lemma {:induction false} HalvingsIsLog(n: nat)
    requires n >= 1
    ensures Pow2(Halvings(n)) <= n < 2 * Pow2(Halvings(n))
  {
    if n > 1 {
      HalvingsIsLog(n / 2);
    }
  }

  /** Every dart of cyc is a dart of the map. */
  ghost predicate Darts(levels: seq<nat>, cyc: seq<nat>)
  {
    forall i :: 0 <= i < |cyc| ==> cyc[i] < |levels|
  }

  /** Every dart of cyc, and its phi1 image at level c, is a dart of the map. */
  ghost predicate EdgesIn(t: Topology, levels: seq<nat>, c: nat, cyc: seq<nat>)
  {
    && Darts(levels, cyc)
    && forall i {:trigger t.phi1(c, cyc[i])} :: 0 <= i < |cyc| ==> t.phi1(c, cyc[i]) < |levels|
  }

  lemma CycleEdgesIn(t: Topology, levels: seq<nat>, c: nat, cyc: seq<nat>, x: nat)
    requires Cycle(t.phi1, c, cyc, x, |levels|)
    ensures EdgesIn(t, levels, c, cyc) && Darts(levels, cyc)
  {
    forall i | 0 <= i < |cyc|
      ensures t.phi1(c, cyc[i]) < |levels|
    {
      CycleStep(t.phi1, c, cyc, x, |levels|, i);
    }
  }

  /** edge_level: the later of the levels of the two darts bounding the edge
      of x, x and its phi1 image at level c. */
  function EdgeLevelAt(t: Topology, levels: seq<nat>, c: nat, x: nat): (r: nat)
    requires x < |levels| && t.phi1(c, x) < |levels|
    ensures r >= levels[x] && r >= levels[t.phi1(c, x)]
    ensures r == levels[x] || r == levels[t.phi1(c, x)]
  {
    Max(levels[x], levels[t.phi1(c, x)])
  }

  /** Smallest edge level over the first n darts of cyc. */
  function MinEdgeLevel(t: Topology, levels: seq<nat>, c: nat, cyc: seq<nat>, n: nat): (r: nat)
    requires 0 < n <= |cyc| && EdgesIn(t, levels, c, cyc)
    decreases n
  {
    var l := EdgeLevelAt(t, levels, c, cyc[n - 1]);
    if n == 1 then l
    else
      var m := MinEdgeLevel(t, levels, c, cyc, n - 1);
      if l < m then l else m
  }

  /** MinEdgeLevel is the level of one of the first n edges and no larger
      than any of them. */
  lemma {:induction false} MinEdgeLevelIsMin(t: Topology, levels: seq<nat>, c: nat, cyc: seq<nat>, n: nat)
    requires 0 < n <= |cyc| && EdgesIn(t, levels, c, cyc)
    ensures exists i :: 0 <= i < n && MinEdgeLevel(t, levels, c, cyc, n) == EdgeLevelAt(t, levels, c, cyc[i])
    ensures forall i {:trigger EdgeLevelAt(t, levels, c, cyc[i])} :: 0 <= i < n ==>
              MinEdgeLevel(t, levels, c, cyc, n) <= EdgeLevelAt(t, levels, c, cyc[i])
    decreases n
  {
    if n == 1 {
      assert MinEdgeLevel(t, levels, c, cyc, n) == EdgeLevelAt(t, levels, c, cyc[0]);
    } else {
      MinEdgeLevelIsMin(t, levels, c, cyc, n - 1);
    }
  }

  /** Index of the first dart at the smallest level among the first n darts
      of cyc: the dart a left-to-right scan keeps when it only replaces on a
      strictly smaller level. */
  function OldestIndex(levels: seq<nat>, cyc: seq<nat>, n: nat): (k: nat)
    requires 0 < n <= |cyc| && Darts(levels, cyc)
    ensures k < n
    decreases n
  {
    if n == 1 then 0
    else
      var k := OldestIndex(levels, cyc, n - 1);
      if levels[cyc[n - 1]] < levels[cyc[k]] then n - 1 else k
  }

  /** The dart OldestIndex picks is at the smallest level of the first n
      darts, and every dart before it is strictly younger. */
  lemma {:induction false} OldestIndexIsFirstMin(levels: seq<nat>, cyc: seq<nat>, n: nat)
    requires 0 < n <= |cyc| && Darts(levels, cyc)
    ensures forall j :: 0 <= j < n ==> levels[cyc[OldestIndex(levels, cyc, n)]] <= levels[cyc[j]]
    ensures forall j :: 0 <= j < OldestIndex(levels, cyc, n) ==> levels[cyc[j]] > levels[cyc[OldestIndex(levels, cyc, n)]]
    decreases n
  {
    if n > 1 {
      OldestIndexIsFirstMin(levels, cyc, n - 1);
    }
  }

  /** Index of the first dart at the largest level among the first n darts
      of cyc. */
  function YoungestIndex(levels: seq<nat>, cyc: seq<nat>, n: nat): (k: nat)
    requires 0 < n <= |cyc| && Darts(levels, cyc)
    ensures k < n
    decreases n
  {
    if n == 1 then 0
    else
      var k := YoungestIndex(levels, cyc, n - 1);
      if levels[cyc[n - 1]] > levels[cyc[k]] then n - 1 else k
  }

  /** The dart YoungestIndex picks is at the largest level of the first n
      darts, and every dart before it is strictly older. */
  lemma {:induction false} YoungestIndexIsFirstMax(levels: seq<nat>, cyc: seq<nat>, n: nat)
    requires 0 < n <= |cyc| && Darts(levels, cyc)
    ensures forall j :: 0 <= j < n ==> levels[cyc[YoungestIndex(levels, cyc, n)]] >= levels[cyc[j]]
    ensures forall j :: 0 <= j < YoungestIndex(levels, cyc, n) ==> levels[cyc[j]] < levels[cyc[YoungestIndex(levels, cyc, n)]]
    decreases n
  {
    if n > 1 {
      YoungestIndexIsFirstMax(levels, cyc, n - 1);
    }
  }

  /** The two properties of OldestIndex pin the index down: no other index
      is both at the smallest level and the first there. */
  lemma OldestIndexUnique(levels: seq<nat>, cyc: seq<nat>, n: nat, k: nat)
    requires 0 < n <= |cyc| && Darts(levels, cyc) && k < n
    requires forall j :: 0 <= j < n ==> levels[cyc[k]] <= levels[cyc[j]]
    requires forall j :: 0 <= j < k ==> levels[cyc[j]] > levels[cyc[k]]
    ensures OldestIndex(levels, cyc, n) == k
  {
    OldestIndexIsFirstMin(levels, cyc, n);
  }

  /** The same for YoungestIndex. */
  lemma YoungestIndexUnique(levels: seq<nat>, cyc: seq<nat>, n: nat, k: nat)
    requires 0 < n <= |cyc| && Darts(levels, cyc) && k < n
    requires forall j :: 0 <= j < n ==> levels[cyc[k]] >= levels[cyc[j]]
    requires forall j :: 0 <= j < k ==> levels[cyc[j]] < levels[cyc[k]]
    ensures YoungestIndex(levels, cyc, n) == k
  {
    YoungestIndexIsFirstMax(levels, cyc, n);
  }

  /** The dart at position j of cyc continues the sub-edge started at cyc[0]:
      same edge id, different level. */
  ghost predicate SameSubEdge(levels: seq<nat>, edgeIds: seq<nat>, cyc: seq<nat>, j: nat)
    requires j < |cyc| && Darts(levels, cyc) && |edgeIds| == |levels|
  {
    edgeIds[cyc[j]] == edgeIds[cyc[0]] && levels[cyc[j]] != levels[cyc[0]]
  }

  /** Value of nbSubd after the do-while that steps along cyc from cyc[0],
      having already taken k steps, while the dart reached continues the
      sub-edge. Coming back to cyc[0] always stops it. */
  ghost function RunLength(levels: seq<nat>, edgeIds: seq<nat>, cyc: seq<nat>, k: nat): (r: nat)
    requires 1 <= k <= |cyc| && Darts(levels, cyc) && |edgeIds| == |levels|
    ensures k <= r <= |cyc|
    decreases |cyc| - k
  {
    if k == |cyc| then k
    else if SameSubEdge(levels, edgeIds, cyc, k) then RunLength(levels, edgeIds, cyc, k + 1)
    else k
  }

  /** The run is maximal: every dart from position k up to the run length
      continues the sub-edge, and the dart right after it, if any, does not. */
  lemma {:induction false} RunLengthIsRun(levels: seq<nat>, edgeIds: seq<nat>, cyc: seq<nat>, k: nat)
    requires 1 <= k <= |cyc| && Darts(levels, cyc) && |edgeIds| == |levels|
    ensures forall j :: k <= j < RunLength(levels, edgeIds, cyc, k) ==> SameSubEdge(levels, edgeIds, cyc, j)
    ensures RunLength(levels, edgeIds, cyc, k) < |cyc| ==>
              !SameSubEdge(levels, edgeIds, cyc, RunLength(levels, edgeIds, cyc, k))
    decreases |cyc| - k
  {
    if k < |cyc| && SameSubEdge(levels, edgeIds, cyc, k) {
      RunLengthIsRun(levels, edgeIds, cyc, k + 1);
    }
  }

  /** The smallest level of a face bounds every edge level of that face. */
  lemma OldestBelowEdgeLevels(t: Topology, levels: seq<nat>, c: nat, cyc: seq<nat>)
    requires cyc != [] && EdgesIn(t, levels, c, cyc)
    ensures Darts(levels, cyc)
    ensures levels[cyc[OldestIndex(levels, cyc, |cyc|)]] <= MinEdgeLevel(t, levels, c, cyc, |cyc|)
  {
    MinEdgeLevelIsMin(t, levels, c, cyc, |cyc|);
    OldestIndexIsFirstMin(levels, cyc, |cyc|);
    var i :| 0 <= i < |cyc| && MinEdgeLevel(t, levels, c, cyc, |cyc|) == EdgeLevelAt(t, levels, c, cyc[i]);
    assert levels[cyc[OldestIndex(levels, cyc, |cyc|)]] <= levels[cyc[i]];
  }

  /** face_level: the smallest edge level of the face of d seen at level c,
      lowered by one for each halving of the number of sub-edges found
      after the face's oldest dart in the face seen at that smaller level;
      0 when c is 0. */
  ghost function FaceLevelOf(t: Topology, levels: seq<nat>, edgeIds: seq<nat>, c: nat,
                             cycleAt: (nat, nat) -> seq<nat>, d: nat): (r: nat)
    requires FaceOrbits(t, levels, cycleAt) && |edgeIds| == |levels|
    requires d < |levels| && levels[d] <= c
  {
    if c == 0 then 0
    else
      var cyc := cycleAt(c, d);
      CycleEdgesIn(t, levels, c, cyc, d);
      var fMin := MinEdgeLevel(t, levels, c, cyc, |cyc|);
      OldestBelowEdgeLevels(t, levels, c, cyc);
      var oldest := cyc[OldestIndex(levels, cyc, |cyc|)];
      var sub := cycleAt(fMin, oldest);
      CycleEdgesIn(t, levels, fMin, sub, oldest);
      DecTimes(fMin, Halvings(RunLength(levels, edgeIds, sub, 1)))
  }

  /** FaceLevelOf for c > 0, named piece by piece: the smallest edge level
      fMin of the face, its oldest dart, and the run of sub-edges after that
      dart in the face seen at level fMin. */
  lemma FaceLevelOfParts(t: Topology, levels: seq<nat>, edgeIds: seq<nat>, c: nat,
                         cycleAt: (nat, nat) -> seq<nat>, d: nat, fMin: nat, oldest: nat)
    requires FaceOrbits(t, levels, cycleAt) && |edgeIds| == |levels|
    requires d < |levels| && levels[d] <= c && c > 0
    requires EdgesIn(t, levels, c, cycleAt(c, d)) && |cycleAt(c, d)| > 0
    requires fMin == MinEdgeLevel(t, levels, c, cycleAt(c, d), |cycleAt(c, d)|)
    requires oldest == cycleAt(c, d)[OldestIndex(levels, cycleAt(c, d), |cycleAt(c, d)|)]
    requires oldest < |levels| && levels[oldest] <= fMin
    requires Darts(levels, cycleAt(fMin, oldest)) && |cycleAt(fMin, oldest)| > 0
    ensures FaceLevelOf(t, levels, edgeIds, c, cycleAt, d)
         == DecTimes(fMin, Halvings(RunLength(levels, edgeIds, cycleAt(fMin, oldest), 1)))
  {
  }

  /** When the halvings do not wrap below 0, the face level is the
      smallest edge level minus the number of halvings, so it is at most
      the level of every edge of the face; a face with no further same-id
      sub-edge gets its smallest edge level exactly. */
  lemma FaceLevelBelowEdges(t: Topology, levels: seq<nat>, edgeIds: seq<nat>, c: nat,
                            cycleAt: (nat, nat) -> seq<nat>, d: nat)
    requires FaceOrbits(t, levels, cycleAt) && |edgeIds| == |levels|
    requires d < |levels| && levels[d] <= c && c > 0
    ensures EdgesIn(t, levels, c, cycleAt(c, d)) && Darts(levels, cycleAt(c, d))
    ensures var cyc := cycleAt(c, d);
            var fMin := MinEdgeLevel(t, levels, c, cyc, |cyc|);
            var oldest := cyc[OldestIndex(levels, cyc, |cyc|)];
            oldest < |levels| && levels[oldest] <= fMin &&
            Darts(levels, cycleAt(fMin, oldest)) && |cycleAt(fMin, oldest)| >= 1 &&
            var h := Halvings(RunLength(levels, edgeIds, cycleAt(fMin, oldest), 1));
            h <= fMin ==>
              && FaceLevelOf(t, levels, edgeIds, c, cycleAt, d) == fMin - h
              && forall i :: 0 <= i < |cyc| ==>
                   FaceLevelOf(t, levels, edgeIds, c, cycleAt, d) <= EdgeLevelAt(t, levels, c, cyc[i])
  {
    var cyc := cycleAt(c, d);
    CycleEdgesIn(t, levels, c, cyc, d);
    var fMin := MinEdgeLevel(t, levels, c, cyc, |cyc|);
    OldestBelowEdgeLevels(t, levels, c, cyc);
    var oldest := cyc[OldestIndex(levels, cyc, |cyc|)];
    var sub := cycleAt(fMin, oldest);
    CycleEdgesIn(t, levels, fMin, sub, oldest);
    var h := Halvings(RunLength(levels, edgeIds, sub, 1));
    MinEdgeLevelIsMin(t, levels, c, cyc, |cyc|);
    if h <= fMin {
      DecTimesNoWrap(fMin, h);
    }
  }

  /** Every dart of the map that is above level 0 finds, in its face seen
      at its own level, a dart of a smaller level: repeated descent reaches
      level 0. */
  ghost predicate Descends(levels: seq<nat>, cycleAt: (nat, nat) -> seq<nat>)
  {
    forall x :: 0 <= x < |levels| && levels[x] > 0 ==> HasOlder(levels, cycleAt(levels[x], x), levels[x])
  }

  ghost predicate HasOlder(levels: seq<nat>, cyc: seq<nat>, l: nat)
  {
    exists i :: 0 <= i < |cyc| && cyc[i] < |levels| && levels[cyc[i]] < l
  }

  /** face_origin: from x, move to the oldest dart of x's face seen at x's
      level, until that dart is of level 0. */
  ghost function Origin(t: Topology, levels: seq<nat>, cycleAt: (nat, nat) -> seq<nat>, x: nat): (r: nat)
    requires FaceOrbits(t, levels, cycleAt) && Descends(levels, cycleAt) && x < |levels|
    ensures r < |levels| && levels[r] == 0
    decreases levels[x]
  {
    var cyc := cycleAt(levels[x], x);
    OldestIndexIsFirstMin(levels, cyc, |cyc|);
    var o := cyc[OldestIndex(levels, cyc, |cyc|)];
    if levels[o] == 0 then o
    else Origin(t, levels, cycleAt, o)
  }

  /** A dart of level 0 is its own origin. */
  lemma OriginOfBaseDart(t: Topology, levels: seq<nat>, cycleAt: (nat, nat) -> seq<nat>, x: nat)
    requires FaceOrbits(t, levels, cycleAt) && Descends(levels, cycleAt) && x < |levels|
    requires levels[x] == 0
    ensures Origin(t, levels, cycleAt, x) == x
  {
    var cyc := cycleAt(0, x);
    OldestIndexUnique(levels, cyc, |cyc|, 0);
  }

  /** The representative darts of the faces incident to a volume, each a
      dart existing at level c. */
  ghost predicate FacesVisible(levels: seq<nat>, c: nat, faces: seq<nat>)
  {
    forall i :: 0 <= i < |faces| ==> faces[i] < |levels| && levels[faces[i]] <= c
  }

  /** The faces incident to a volume, as their cycles seen at level c. */
  ghost function FaceCycles(cycleAt: (nat, nat) -> seq<nat>, c: nat, faces: seq<nat>): (cs: seq<seq<nat>>)
    ensures |cs| == |faces|
    ensures forall i :: 0 <= i < |faces| ==> cs[i] == cycleAt(c, faces[i])
  {
    seq(|faces|, i requires 0 <= i < |faces| => cycleAt(c, faces[i]))
  }

  /** Every cycle is non-empty and made of darts of the map. */
  ghost predicate CyclesOk(levels: seq<nat>, cycles: seq<seq<nat>>)
  {
    forall i :: 0 <= i < |cycles| ==> cycles[i] != [] && Darts(levels, cycles[i])
  }

  lemma FaceCyclesOk(t: Topology, levels: seq<nat>, cycleAt: (nat, nat) -> seq<nat>, c: nat, faces: seq<nat>)
    requires FaceOrbits(t, levels, cycleAt) && FacesVisible(levels, c, faces)
    ensures CyclesOk(levels, FaceCycles(cycleAt, c, faces))
  {
    var cs := FaceCycles(cycleAt, c, faces);
    forall i | 0 <= i < |cs|
      ensures cs[i] != [] && Darts(levels, cs[i])
    {
      assert cs[i] == cycleAt(c, faces[i]);
      CycleEdgesIn(t, levels, c, cs[i], faces[i]);
    }
  }

  /** volume_oldest_dart over the first n incident faces: starting from d,
      the oldest dart of each face in turn replaces the candidate when its
      level is strictly smaller. */
  function VolumeOldest(levels: seq<nat>, d: nat, cycles: seq<seq<nat>>, n: nat): (r: nat)
    requires n <= |cycles| && CyclesOk(levels, cycles) && d < |levels|
    ensures r < |levels|
    decreases n
  {
    if n == 0 then d
    else
      var prev := VolumeOldest(levels, d, cycles, n - 1);
      var cyc := cycles[n - 1];
      var o := cyc[OldestIndex(levels, cyc, |cyc|)];
      if levels[o] < levels[prev] then o else prev
  }

  /** The result is d or a dart of one of the faces, and neither d nor any
      dart of the faces is older. */
  lemma {:induction false} VolumeOldestIsOldest(levels: seq<nat>, d: nat, cycles: seq<seq<nat>>, n: nat)
    requires n <= |cycles| && CyclesOk(levels, cycles) && d < |levels|
    ensures var r := VolumeOldest(levels, d, cycles, n);
            && levels[r] <= levels[d]
            && (r == d || exists i, j :: 0 <= i < n && 0 <= j < |cycles[i]| && r == cycles[i][j])
            && forall i, j :: 0 <= i < n && 0 <= j < |cycles[i]| ==> levels[r] <= levels[cycles[i][j]]
    decreases n
  {
    if n > 0 {
      VolumeOldestIsOldest(levels, d, cycles, n - 1);
      var cyc := cycles[n - 1];
      OldestIndexIsFirstMin(levels, cyc, |cyc|);
    }
  }

  /** volume_youngest_dart over the first n incident faces: the same with
      the youngest dart of each face and a strictly larger level. */
  function VolumeYoungest(levels: seq<nat>, d: nat, cycles: seq<seq<nat>>, n: nat): (r: nat)
    requires n <= |cycles| && CyclesOk(levels, cycles) && d < |levels|
    ensures r < |levels|
    decreases n
  {
    if n == 0 then d
    else
      var prev := VolumeYoungest(levels, d, cycles, n - 1);
      var cyc := cycles[n - 1];
      var y := cyc[YoungestIndex(levels, cyc, |cyc|)];
      if levels[y] > levels[prev] then y else prev
  }

  /** The result is d or a dart of one of the faces, and neither d nor any
      dart of the faces is younger. */
  lemma {:induction false} VolumeYoungestIsYoungest(levels: seq<nat>, d: nat, cycles: seq<seq<nat>>, n: nat)
    requires n <= |cycles| && CyclesOk(levels, cycles) && d < |levels|
    ensures var r := VolumeYoungest(levels, d, cycles, n);
            && levels[r] >= levels[d]
            && (r == d || exists i, j :: 0 <= i < n && 0 <= j < |cycles[i]| && r == cycles[i][j])
            && forall i, j :: 0 <= i < n && 0 <= j < |cycles[i]| ==> levels[r] >= levels[cycles[i][j]]
    decreases n
  {
    if n > 0 {
      VolumeYoungestIsYoungest(levels, d, cycles, n - 1);
      var cyc := cycles[n - 1];
      YoungestIndexIsFirstMax(levels, cyc, |cyc|);
    }
  }

  /** The face levels of the incident faces. */
  ghost function FaceLevels(t: Topology, levels: seq<nat>, edgeIds: seq<nat>, c: nat,
                            cycleAt: (nat, nat) -> seq<nat>, faces: seq<nat>): (ls: seq<nat>)
    requires FaceOrbits(t, levels, cycleAt) && |edgeIds| == |levels| && FacesVisible(levels, c, faces)
    ensures |ls| == |faces|
    ensures forall i :: 0 <= i < |faces| ==> ls[i] == FaceLevelOf(t, levels, edgeIds, c, cycleAt, faces[i])
  {
    seq(|faces|, i requires 0 <= i < |faces| => FaceLevelOf(t, levels, edgeIds, c, cycleAt, faces[i]))
  }

  /** One more incident face: the running oldest and youngest darts take
      the face's oldest and youngest darts into account. */
  lemma VolumeStep(t: Topology, levels: seq<nat>, cycleAt: (nat, nat) -> seq<nat>, c: nat,
                   d: nat, faces: seq<nat>, i: nat)
    requires FaceOrbits(t, levels, cycleAt) && FacesVisible(levels, c, faces)
    requires d < |levels| && i < |faces|
    ensures CyclesOk(levels, FaceCycles(cycleAt, c, faces))
    ensures var cyc := cycleAt(c, faces[i]);
            |cyc| > 0 && Darts(levels, cyc) &&
            var cs := FaceCycles(cycleAt, c, faces);
            var o := cyc[OldestIndex(levels, cyc, |cyc|)];
            var prev := VolumeOldest(levels, d, cs, i);
            VolumeOldest(levels, d, cs, i + 1) == if levels[o] < levels[prev] then o else prev
    ensures var cyc := cycleAt(c, faces[i]);
            |cyc| > 0 && Darts(levels, cyc) &&
            var cs := FaceCycles(cycleAt, c, faces);
            var y := cyc[YoungestIndex(levels, cyc, |cyc|)];
            var prev := VolumeYoungest(levels, d, cs, i);
            VolumeYoungest(levels, d, cs, i + 1) == if levels[y] > levels[prev] then y else prev
  {
    FaceCyclesOk(t, levels, cycleAt, c, faces);
  }

  /** One more incident face in volume_level's loop: the running minimum
      takes the face's level into account. */
  lemma VolumeScanStep(t: Topology, levels: seq<nat>, edgeIds: seq<nat>, c: nat,
                       cycleAt: (nat, nat) -> seq<nat>, faces: seq<nat>, i: nat)
    requires FaceOrbits(t, levels, cycleAt) && |edgeIds| == |levels|
    requires FacesVisible(levels, c, faces) && i < |faces|
    ensures var fls := FaceLevels(t, levels, edgeIds, c, cycleAt, faces);
            var f := FaceLevelOf(t, levels, edgeIds, c, cycleAt, faces[i]);
            MinFrom(MaxUint32, fls, i + 1) == if f < MinFrom(MaxUint32, fls, i) then f else MinFrom(MaxUint32, fls, i)
  {
  }

  /** The running minimum `v = l < v ? l : v` over the first n values of
      s, from init. */
  function MinFrom(init: nat, s: seq<nat>, n: nat): (r: nat)
    requires n <= |s|
    decreases n
  {
    if n == 0 then init
    else
      var prev := MinFrom(init, s, n - 1);
      if s[n - 1] < prev then s[n - 1] else prev
  }

  /** The running minimum is init or one of the first n values, and no
      larger than init or any of them. */
  lemma {:induction false} MinFromIsMin(init: nat, s: seq<nat>, n: nat)
    requires n <= |s|
    ensures MinFrom(init, s, n) <= init
    ensures MinFrom(init, s, n) == init || exists i :: 0 <= i < n && MinFrom(init, s, n) == s[i]
    ensures forall i :: 0 <= i < n ==> MinFrom(init, s, n) <= s[i]
    decreases n
  {
    if n > 0 {
      MinFromIsMin(init, s, n - 1);
    }
  }

  /** volume_level: the smallest face level of the volume, lowered once per
      halving of the number of same-id sub-edges met when walking phi121
      from the volume's oldest dart in the map seen at that level. */
  ghost function VolumeLevelOf(t: Topology, levels: seq<nat>, edgeIds: seq<nat>, c: nat,
                               cycleAt: (nat, nat) -> seq<nat>, navAt: (nat, nat) -> seq<nat>,
                               d: nat, faces: seq<nat>): (r: nat)
    requires FaceOrbits(t, levels, cycleAt) && NavOrbits(t, |levels|, navAt)
    requires |edgeIds| == |levels| && FacesVisible(levels, c, faces) && d < |levels|
  {
    var vMin := MinFrom(MaxUint32, FaceLevels(t, levels, edgeIds, c, cycleAt, faces), |faces|);
    FaceCyclesOk(t, levels, cycleAt, c, faces);
    var oldest := VolumeOldest(levels, d, FaceCycles(cycleAt, c, faces), |faces|);
    var walk := navAt(vMin, oldest);
    DecTimes(vMin, Halvings(RunLength(levels, edgeIds, walk, 1)))
  }

  /** When the halvings do not wrap below 0, the volume level is at most
      the level of every incident face. */
  lemma VolumeLevelBelowFaces(t: Topology, levels: seq<nat>, edgeIds: seq<nat>, c: nat,
                              cycleAt: (nat, nat) -> seq<nat>, navAt: (nat, nat) -> seq<nat>,
                              d: nat, faces: seq<nat>)
    requires FaceOrbits(t, levels, cycleAt) && NavOrbits(t, |levels|, navAt)
    requires |edgeIds| == |levels| && FacesVisible(levels, c, faces) && d < |levels|
    ensures CyclesOk(levels, FaceCycles(cycleAt, c, faces))
    ensures var vMin := MinFrom(MaxUint32, FaceLevels(t, levels, edgeIds, c, cycleAt, faces), |faces|);
            var walk := navAt(vMin, VolumeOldest(levels, d, FaceCycles(cycleAt, c, faces), |faces|));
            Darts(levels, walk) && |walk| >= 1 &&
            var h := Halvings(RunLength(levels, edgeIds, walk, 1));
            h <= vMin ==>
              && VolumeLevelOf(t, levels, edgeIds, c, cycleAt, navAt, d, faces) == vMin - h
              && forall i :: 0 <= i < |faces| ==>
                   VolumeLevelOf(t, levels, edgeIds, c, cycleAt, navAt, d, faces)
                     <= FaceLevelOf(t, levels, edgeIds, c, cycleAt, faces[i])
  {
    var vMin := MinFrom(MaxUint32, FaceLevels(t, levels, edgeIds, c, cycleAt, faces), |faces|);
    FaceCyclesOk(t, levels, cycleAt, c, faces);
    var walk := navAt(vMin, VolumeOldest(levels, d, FaceCycles(cycleAt, c, faces), |faces|));
    var h := Halvings(RunLength(levels, edgeIds, walk, 1));
    MinFromIsMin(MaxUint32, FaceLevels(t, levels, edgeIds, c, cycleAt, faces), |faces|);
    if h <= vMin {
      DecTimesNoWrap(vMin, h);
    }
  }
}
