/** The histogram of dart counts per level (nb_darts_per_level_) and the
    tight maximum level (maximum_level_) kept beside it. The functions here
    say what change_dart_level does to the pair; the lemmas say which
    invariants that preserves. */
module LevelHistogram {

  /** Sum of all buckets. */
  function Sum(h: seq<nat>): (s: nat)
  {
    if h == [] then 0 else Sum(h[..|h| - 1]) + h[|h| - 1]
  }

  /** Number of darts whose level is k. */
  function Count(levels: seq<nat>, k: nat): (r: nat)
  {
    if levels == [] then 0
    else Count(levels[..|levels| - 1], k) + (if levels[|levels| - 1] == k then 1 else 0)
  }

  /** h is exactly the histogram of levels: bucket k holds the number of
      darts of level k, and every dart has a bucket. */
  ghost predicate Counts(h: seq<nat>, levels: seq<nat>)
  {
    && (forall k :: 0 <= k < |h| ==> h[k] == Count(levels, k))
    && (forall i :: 0 <= i < |levels| ==> levels[i] < |h|)
  }

  /** The histogram has one bucket per level up to m, and the top one is
      not empty. */
  predicate Tight(h: seq<nat>, m: nat)
  {
    |h| == m + 1 && h[m] > 0
  }

  /** The maximum level indexes a non-empty bucket and every bucket above
      it is empty. The histogram may hold more buckets than levels in use,
      as when it has been grown before darts are raised to a new level. */
  ghost predicate TopAt(h: seq<nat>, m: nat)
  {
    m < |h| && h[m] > 0 && forall k :: m < k < |h| ==> h[k] == 0
  }

  /** One dart moves from bucket `from` to bucket `to`: the decrement comes
      first, then the increment, as two separate updates. */
  function Moved(h: seq<nat>, from: nat, to: nat): (r: seq<nat>)
    requires from < |h| && to < |h| && h[from] > 0
    ensures |r| == |h|
    ensures from != to ==> r[from] == h[from] - 1 && r[to] == h[to] + 1
    ensures from == to ==> r == h
    ensures forall k :: 0 <= k < |h| && k != from && k != to ==> r[k] == h[k]
  {
    var dec := h[from := h[from] - 1];
    dec[to := dec[to] + 1]
  }

  /** The trim loop: while the bucket at the maximum level is empty,
      lower the maximum and drop the last bucket of the histogram. The
      non-empty bucket at `floor` stops it. */
  function TrimTop(h: seq<nat>, m: nat, floor: nat): (r: (seq<nat>, nat))
    requires m < |h| && floor <= m && h[floor] > 0
    ensures floor <= r.1 <= m && r.1 < |r.0|
    ensures r.0[r.1] > 0
    ensures |h| - m == |r.0| - r.1
    ensures r.0 == h[..|r.0|]
    ensures forall k :: r.1 < k <= m ==> h[k] == 0
    decreases m
  {
    if h[m] == 0 then TrimTop(h[..|h| - 1], m - 1, floor) else (h, m)
  }

  /** change_dart_level on the pair (histogram, maximum level), for a dart
      moving from level `from` to level `to`. */
  function Change(h: seq<nat>, m: nat, from: nat, to: nat): (r: (seq<nat>, nat))
    requires m < |h| && from < |h| && to < |h| && h[from] > 0
    requires to < from ==> to <= m
    ensures from == to ==> r == (h, m)
    ensures to > from && to > m ==> r.1 == to
  {
    var moved := Moved(h, from, to);
    if to > from && to > m then (moved, to)
    else if to < from then TrimTop(moved, m, to)
    else
      assert from == to ==> moved == h;
      (moved, m)
  }

  /** The trim loop pops the last bucket, not the bucket of the maximum
      level. On a histogram longer than maximum + 1, lowering a dart from
      the maximum level therefore discards the non-empty buckets above the
      maximum, and the dart total is lost: this is why the total is only
      promised for tight histograms. */
  lemma TrimDropsUntrackedBuckets()
    ensures Change([1, 1, 5], 1, 1, 0) == ([2, 0], 0)
    ensures Sum([1, 1, 5]) == 7 && Sum([2, 0]) == 2
  {
    assert Moved([1, 1, 5], 1, 0) == [2, 0, 5];
    assert [2, 0, 5][..2] == [2, 0];
    assert [1, 1, 5][..2] == [1, 1] && [1, 1][..1] == [1];
    assert [2, 0][..1] == [2];
  }

  /** n darts, all of level 0. */
  lemma {:induction false} BaseLevelCount(n: nat)
    ensures Count(seq(n, i => 0), 0) == n
  {
    if n > 0 {
      assert seq(n, i => 0)[..n - 1] == seq(n - 1, i => 0);
      BaseLevelCount(n - 1);
    }
  }

  /** A map whose n > 0 darts are all of level 0 has the one-bucket
      histogram [n] and maximum level 0, which is exact and tight, so its
      maximum is its highest non-empty bucket. */
  lemma BaseLevelConsistent(n: nat)
    requires n > 0
    ensures Counts([n], seq(n, i => 0)) && Tight([n], 0) && TopAt([n], 0)
  {
    BaseLevelCount(n);
  }

  /** Replacing one bucket changes the sum by the difference. */
  lemma {:induction false} SumUpdate(h: seq<nat>, k: nat, v: nat)
    requires k < |h|
    ensures Sum(h[k := v]) + h[k] == Sum(h) + v
    decreases |h|
  {
    var n := |h| - 1;
    var u := h[k := v];
    assert u[..n] == if k < n then h[..n][k := v] else h[..n];
    if k < n {
      SumUpdate(h[..n], k, v);
    }
  }

  /** Moving a dart between buckets keeps the total. */
  lemma MovedSum(h: seq<nat>, from: nat, to: nat)
    requires from < |h| && to < |h| && h[from] > 0
    ensures |Moved(h, from, to)| == |h|
    ensures Sum(Moved(h, from, to)) == Sum(h)
  {
    var dec := h[from := h[from] - 1];
    SumUpdate(h, from, h[from] - 1);
    SumUpdate(dec, to, dec[to] + 1);
  }

  /** Dropping an empty last bucket keeps the total. */
  lemma {:induction false} TrimTopSum(h: seq<nat>, m: nat, floor: nat)
    requires |h| == m + 1 && floor <= m && h[floor] > 0
    ensures Sum(TrimTop(h, m, floor).0) == Sum(h)
    ensures Tight(TrimTop(h, m, floor).0, TrimTop(h, m, floor).1)
    decreases m
  {
    if h[m] == 0 {
      TrimTopSum(h[..|h| - 1], m - 1, floor);
    }
  }

  /** On a tight histogram, change_dart_level keeps it tight and keeps the
      total number of darts. */
  lemma ChangeKeepsTight(h: seq<nat>, m: nat, from: nat, to: nat)
    requires Tight(h, m) && from < |h| && to < |h| && h[from] > 0
    ensures Tight(Change(h, m, from, to).0, Change(h, m, from, to).1)
    ensures Sum(Change(h, m, from, to).0) == Sum(h)
  {
    var moved := Moved(h, from, to);
    MovedSum(h, from, to);
    if to < from {
      TrimTopSum(moved, m, to);
    } else {
      assert moved[m] > 0 by {
        if from == m {
          assert to == m;
        }
      }
    }
  }

  /** Count of a sequence with one dart relabelled. */
  lemma {:induction false} CountUpdate(levels: seq<nat>, d: nat, l: nat, k: nat)
    requires d < |levels|
    ensures Count(levels[d := l], k) + (if levels[d] == k then 1 else 0)
         == Count(levels, k) + (if l == k then 1 else 0)
    decreases |levels|
  {
    var n := |levels| - 1;
    var u := levels[d := l];
    assert u[..n] == if d < n then levels[..n][d := l] else levels[..n];
    if d < n {
      CountUpdate(levels[..n], d, l, k);
    }
  }

  /** A dart's own level has a non-empty count. */
  lemma {:induction false} CountOwnLevel(levels: seq<nat>, i: nat)
    requires i < |levels|
    ensures Count(levels, levels[i]) > 0
    decreases |levels|
  {
    var n := |levels| - 1;
    if i < n {
      CountOwnLevel(levels[..n], i);
    }
  }

  /** The buckets of an exact histogram add up to the number
      of darts. */
  lemma {:induction false} CountsSum(h: seq<nat>, levels: seq<nat>)
    requires Counts(h, levels)
    ensures Sum(h) == |levels|
    decreases |levels|
  {
    if levels == [] {
      AllZeroSum(h);
    } else {
      var n := |levels| - 1;
      var x := levels[n];
      var h' := h[x := h[x] - 1];
      assert h[x] == Count(levels, x) > 0 by { CountOwnLevel(levels, n); }
      forall k | 0 <= k < |h'|
        ensures h'[k] == Count(levels[..n], k)
      {
      }
      CountsSum(h', levels[..n]);
      SumUpdate(h, x, h[x] - 1);
    }
  }

  lemma {:induction false} AllZeroSum(h: seq<nat>)
    requires forall k :: 0 <= k < |h| ==> h[k] == 0
    ensures Sum(h) == 0
    decreases |h|
  {
    if h != [] {
      AllZeroSum(h[..|h| - 1]);
    }
  }

  /** On an exact, tight histogram, relabelling dart d to level `to` (a level
      with a bucket) leaves an exact, tight histogram of the new levels:
      the dart total and the tight top are kept. */
  lemma ChangeKeepsCounts(h: seq<nat>, m: nat, levels: seq<nat>, d: nat, to: nat)
    requires Counts(h, levels) && Tight(h, m) && d < |levels| && to < |h|
    ensures levels[d] < |h| && h[levels[d]] > 0
    ensures Counts(Change(h, m, levels[d], to).0, levels[d := to])
    ensures Tight(Change(h, m, levels[d], to).0, Change(h, m, levels[d], to).1)
  {
    var from := levels[d];
    CountOwnLevel(levels, d);
    var moved := Moved(h, from, to);
    var levels' := levels[d := to];
    forall k | 0 <= k < |moved|
      ensures moved[k] == Count(levels', k)
    {
      CountUpdate(levels, d, to, k);
    }
    ChangeKeepsTight(h, m, from, to);
    var r := Change(h, m, from, to);
    forall i | 0 <= i < |levels'|
      ensures levels'[i] < |r.0|
    {
      CountOwnLevel(levels', i);
    }
  }

  /** The two lemmas above, as change_dart_level's callers rely on them: an
      exact, tight histogram stays exact and tight, and a tight one keeps
      its total. */
  lemma ChangeKeepsInvariants(h: seq<nat>, m: nat, levels: seq<nat>, d: nat, to: nat)
    requires d < |levels| && to < |h| && m < |h| && levels[d] < |h| && h[levels[d]] > 0
    requires to < levels[d] ==> to <= m
    ensures Counts(h, levels) && Tight(h, m) ==>
              Counts(Change(h, m, levels[d], to).0, levels[d := to])
              && Tight(Change(h, m, levels[d], to).0, Change(h, m, levels[d], to).1)
    ensures Tight(h, m) ==> Sum(Change(h, m, levels[d], to).0) == Sum(h)
  {
    if Counts(h, levels) && Tight(h, m) {
      ChangeKeepsCounts(h, m, levels, d, to);
    }
    if Tight(h, m) {
      ChangeKeepsTight(h, m, levels[d], to);
    }
  }

  /** An exact histogram cut to a prefix stays exact when every bucket cut
      off is empty. */
  lemma PrefixCounts(h: seq<nat>, p: seq<nat>, levels: seq<nat>)
    requires Counts(h, levels) && |p| <= |h| && p == h[..|p|]
    requires forall k :: |p| <= k < |h| ==> h[k] == 0
    ensures Counts(p, levels)
  {
    forall k | 0 <= k < |p|
      ensures p[k] == Count(levels, k)
    {
      assert p[k] == h[k];
    }
    forall i | 0 <= i < |levels|
      ensures levels[i] < |p|
    {
      CountOwnLevel(levels, i);
    }
  }

  /** After the decrement and increment, the histogram counts the
      relabelled levels exactly. */
  lemma MovedCounts(h: seq<nat>, levels: seq<nat>, d: nat, to: nat)
    requires Counts(h, levels) && d < |levels| && to < |h|
    ensures levels[d] < |h| && h[levels[d]] > 0
    ensures Counts(Moved(h, levels[d], to), levels[d := to])
  {
    CountOwnLevel(levels, d);
    var moved := Moved(h, levels[d], to);
    forall k | 0 <= k < |moved|
      ensures moved[k] == Count(levels[d := to], k)
    {
      CountUpdate(levels, d, to, k);
    }
  }

  /** On an exact histogram whose maximum is its highest non-empty bucket,
      change_dart_level to any level with a bucket (raising it above the
      maximum included) leaves an exact histogram of the new levels, whose
      maximum is again its highest non-empty bucket, with the same total. */
  lemma ChangeKeepsTopAt(h: seq<nat>, m: nat, levels: seq<nat>, d: nat, to: nat)
    requires Counts(h, levels) && TopAt(h, m) && d < |levels| && to < |h|
    ensures levels[d] < |h| && h[levels[d]] > 0 && levels[d] <= m
    ensures var r := Change(h, m, levels[d], to);
            && Counts(r.0, levels[d := to]) && TopAt(r.0, r.1)
            && Sum(r.0) == Sum(h)
  {
    var from := levels[d];
    MovedCounts(h, levels, d, to);
    var moved := Moved(h, from, to);
    var r := Change(h, m, from, to);
    // above the old maximum, only bucket `to` can have changed
    assert forall k :: m < k < |moved| && k != to ==> moved[k] == 0;
    if to < from {
      assert forall k :: r.1 < k < |moved| ==> moved[k] == 0;
      PrefixCounts(moved, r.0, levels[d := to]);
    }
    CountsSum(r.0, levels[d := to]);
    CountsSum(h, levels);
  }

  /** A reachable raise: darts of levels 0 and 1 with a histogram grown to
      three buckets; raising the level-1 dart to 2 moves the maximum to 2. */
  lemma RaiseAboveMaximum()
    ensures Counts([1, 1, 0], [0, 1]) && TopAt([1, 1, 0], 1)
    ensures Change([1, 1, 0], 1, 1, 2) == ([1, 0, 1], 2)
    ensures Counts([1, 0, 1], [0, 2]) && TopAt([1, 0, 1], 2)
  {
    assert Moved([1, 1, 0], 1, 2) == [1, 0, 1];
    assert [0, 1][..1] == [0] && [0, 2][..1] == [0];
    assert Count([0, 1], 0) == 1 && Count([0, 1], 1) == 1 && Count([0, 1], 2) == 0;
    assert Count([0, 2], 0) == 1 && Count([0, 2], 1) == 0 && Count([0, 2], 2) == 1;
  }
}
