/** The base topology the hierarchy bookkeeping walks but does not define.

    Darts are the indices 0 .. n-1 of the per-dart attribute sequences.
    Navigation in a multiresolution map depends on the level the map is
    seen at, so every permutation takes that level as its first argument:
    phi1(l, d) is the next dart around the face of d as seen at level l,
    phi2(l, d) the dart on the other side of the edge, and phi121(l, d) the
    composite phi1 . phi2 . phi1 used to walk around a volume's boundary. */
module CMapTopology {

  datatype Topology = Topology(
    phi1: (nat, nat) -> nat,
    phi2: (nat, nat) -> nat,
    phi121: (nat, nat) -> nat)

  /** cyc is the orbit of x under step(l, _): it starts at x, each dart is
      followed by its image, the last one leads back to x, x does not come
      back before that, and every dart is one of the n darts of the map. */
  ghost predicate Cycle(step: (nat, nat) -> nat, l: nat, cyc: seq<nat>, x: nat, n: nat)
  {
    && |cyc| > 0 && cyc[0] == x
    && (forall i :: 0 <= i < |cyc| ==> cyc[i] < n)
    && (forall i {:trigger step(l, cyc[i])} :: 0 <= i < |cyc| - 1 ==> step(l, cyc[i]) == cyc[i + 1])
    && step(l, cyc[|cyc| - 1]) == cyc[0]
    && (forall i :: 0 < i < |cyc| ==> cyc[i] != x)
  }

  /** Every dart of cyc exists at level l (its level is at most l). */
  ghost predicate Visible(levels: seq<nat>, l: nat, cyc: seq<nat>)
  {
    forall i :: 0 <= i < |cyc| ==> cyc[i] < |levels| && levels[cyc[i]] <= l
  }

  /** cycleAt(l, x) is the face of x as seen at level l, for every dart x
      that exists at level l; that face only holds darts existing at l. */
  ghost predicate FaceOrbits(t: Topology, levels: seq<nat>, cycleAt: (nat, nat) -> seq<nat>)
  {
    forall l: nat, x: nat {:trigger cycleAt(l, x)} :: x < |levels| && levels[x] <= l ==>
      Cycle(t.phi1, l, cycleAt(l, x), x, |levels|) && Visible(levels, l, cycleAt(l, x))
  }

  /** navAt(l, x) is the orbit of x under the composite phi121 in the map
      seen at level l. */
  ghost predicate NavOrbits(t: Topology, n: nat, navAt: (nat, nat) -> seq<nat>)
  {
    forall l: nat, x: nat {:trigger navAt(l, x)} :: x < n ==> Cycle(t.phi121, l, navAt(l, x), x, n)
  }

  /** Stepping from the i-th dart of an orbit lands on the next one, or back
      on the first dart after the last. */
  lemma {:induction false} CycleStep(step: (nat, nat) -> nat, l: nat, cyc: seq<nat>, x: nat, n: nat, i: nat)
    requires Cycle(step, l, cyc, x, n) && i < |cyc|
    ensures i + 1 < |cyc| ==> step(l, cyc[i]) == cyc[i + 1] && cyc[i + 1] != x
    ensures i + 1 == |cyc| ==> step(l, cyc[i]) == x
  {
  }
}
