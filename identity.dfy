/** Identity registry rules: which edge id a new edge gets when an edge is
    split, and which face id a new face gets when a face is cut. */
module Identity {

  /** Ids are 32-bit unsigned values; their sum wraps at this modulus. */
  const Uint32Modulus: nat := 0x1_0000_0000

  /** refinement_edge_id on the edge ids of the two parent darts: a lookup
      on their 32-bit sum, where a sum of 2 splits on whether the ids agree
      and every other sum (3 for ids in 0..2) gives 0. */
  function RefinementEdgeId(dId: nat, eId: nat): (r: nat)
    ensures r <= 2
  {
    var id := (dId + eId) % Uint32Modulus;
    if id == 0 then 1
    else if id == 1 then 2
    else if id == 2 then (if dId == eId then 0 else 1)
    else 0
  }

  /** The table, pair by pair, for the ids 0, 1 and 2. */
  lemma RefinementEdgeIdTable()
    ensures RefinementEdgeId(0, 0) == 1
    ensures RefinementEdgeId(0, 1) == 2 && RefinementEdgeId(1, 0) == 2
    ensures RefinementEdgeId(0, 2) == 1 && RefinementEdgeId(2, 0) == 1
    ensures RefinementEdgeId(1, 1) == 0
    ensures RefinementEdgeId(1, 2) == 0 && RefinementEdgeId(2, 1) == 0
    ensures RefinementEdgeId(2, 2) == 0
  {
  }

  /** With parent ids among 0, 1, 2 the new id is one of the three colours,
      differs from both parents, and does not depend on their order. */
  lemma RefinementEdgeIdFresh(dId: nat, eId: nat)
    requires dId <= 2 && eId <= 2
    ensures RefinementEdgeId(dId, eId) != dId && RefinementEdgeId(dId, eId) != eId
    ensures RefinementEdgeId(dId, eId) == RefinementEdgeId(eId, dId)
  {
  }

  /** The set of face ids carried by the darts of a cut path. */
  function FaceIdsOn(faceIds: seq<nat>, path: seq<nat>): (s: set<nat>)
    requires forall i :: 0 <= i < |path| ==> path[i] < |faceIds|
    ensures forall i :: 0 <= i < |path| ==> faceIds[path[i]] in s
    ensures forall k :: k in s ==> exists i :: 0 <= i < |path| && faceIds[path[i]] == k
  {
    set i | 0 <= i < |path| :: faceIds[path[i]]
  }

  /** A path of n darts carries at most n distinct face ids. */
  lemma {:induction false} FaceIdsOnSize(faceIds: seq<nat>, path: seq<nat>)
    requires forall i :: 0 <= i < |path| ==> path[i] < |faceIds|
    ensures |FaceIdsOn(faceIds, path)| <= |path|
    decreases |path|
  {
    if path != [] {
      var n := |path| - 1;
      var front := path[..n];
      FaceIdsOnSize(faceIds, front);
      var all, rest := FaceIdsOn(faceIds, path), FaceIdsOn(faceIds, front) + {faceIds[path[n]]};
      forall k | k in all
        ensures k in rest
      {
        var i :| 0 <= i < |path| && faceIds[path[i]] == k;
        if i < n {
          assert front[i] == path[i];
        }
      }
      assert rest == all + (rest - all);
    }
  }

  /** If every number below r is in s, then s has at least r elements. */
  lemma {:induction false} FirstFreeBound(s: set<nat>, r: nat)
    requires forall k :: 0 <= k < r ==> k in s
    ensures r <= |s|
    decreases r
  {
    if r > 0 {
      var rest := s - {r - 1};
      FirstFreeBound(rest, r - 1);
      assert s == rest + {r - 1};
    }
  }
}
