/**
 The repeat test of two captures: every judged sample of one lies within the band
 the other covers over a sliding window. Two monotonic deques hold the window's
 lowest low and highest high, and a count its gaps.
 */
module BandTest {
  import opened Basics

  /** A sample: a number, or a gap. */
  datatype Float = NaN | Num(v: real)

  /** Lows and highs, column by column. */
  datatype Band = Band(lo: seq<Float>, hi: seq<Float>) {
    predicate Ok(n: nat) {
      |lo| == n && |hi| == n
    }

    predicate Gap(k: nat)
      requires |lo| == |hi| && k < |lo|
    {
      lo[k].NaN? || hi[k].NaN?
    }

    /** The column midpoints. */
    function Mid(): (m: seq<Float>)
      requires |lo| == |hi|
      ensures |m| == |lo|
    {
      seq(|lo|, i requires 0 <= i < |lo| =>
        if lo[i].Num? && hi[i].Num? then Num((lo[i].v + hi[i].v) / 2.0) else NaN)
    }
  }

  // ---------------------------------------------------------------- what is judged, and how

  predicate InWindow(n: nat, slack: nat, i: int, k: int) {
    0 <= k < n && i - slack <= k <= i + slack
  }

  /** Neither among the samples at either end, nor a gap, nor with a gap in its window. */
  ghost predicate Judged(x: seq<Float>, band: Band, slack: nat, i: nat)
    requires band.Ok(|x|) && i < |x|
  {
    && Min(slack, (|x| - 1) / 2) <= i < |x| - Min(slack, (|x| - 1) / 2)
    && x[i].Num?
    && forall k :: InWindow(|x|, slack, i, k) ==> !band.Gap(k)
  }

  /** Not under every low of the window by more than tol, nor over every high. */
  ghost predicate Inside(x: seq<Float>, band: Band, tol: real, slack: nat, i: nat)
    requires band.Ok(|x|) && i < |x| && Judged(x, band, slack, i)
  {
    && (exists k :: InWindow(|x|, slack, i, k) && band.lo[k].v - tol <= x[i].v)
    && (exists k :: InWindow(|x|, slack, i, k) && x[i].v <= band.hi[k].v + tol)
  }

  /** The rule in full: the window is slack columns to either side, the record's ends are left out, and a judged sample
      is within the tolerance of the window's lowest low and highest high. */
  lemma RuleIs(x: seq<Float>, band: Band, tol: real, slack: nat, i: nat)
    requires band.Ok(|x|) && i < |x|
    ensures var end := if slack <= (|x| - 1) / 2 then slack else (|x| - 1) / 2;
            Judged(x, band, slack, i)
            <==> && end <= i < |x| - end && x[i].Num?
                 && forall k :: 0 <= k < |x| && i - slack <= k <= i + slack ==> band.lo[k].Num? && band.hi[k].Num?
    ensures Judged(x, band, slack, i) ==>
              (Inside(x, band, tol, slack, i)
               <==> && (exists k :: 0 <= k < |x| && i - slack <= k <= i + slack && band.lo[k].Num? && band.lo[k].v <= x[i].v + tol)
                    && (exists k :: 0 <= k < |x| && i - slack <= k <= i + slack && band.hi[k].Num? && x[i].v - tol <= band.hi[k].v))
  {
    if Judged(x, band, slack, i) {
      forall k | 0 <= k < |x| && i - slack <= k <= i + slack ensures band.lo[k].Num? && band.hi[k].Num? {
        assert InWindow(|x|, slack, i, k);
      }
      if Inside(x, band, tol, slack, i) {
        var k :| InWindow(|x|, slack, i, k) && band.lo[k].v - tol <= x[i].v;
        var l :| InWindow(|x|, slack, i, l) && x[i].v <= band.hi[l].v + tol;
        assert band.lo[k].Num? && band.hi[l].Num?;
        assert band.lo[k].v <= x[i].v + tol && x[i].v - tol <= band.hi[l].v;
      }
      if k :| 0 <= k < |x| && i - slack <= k <= i + slack && band.lo[k].Num? && band.lo[k].v <= x[i].v + tol {
        assert InWindow(|x|, slack, i, k);
      }
      if k :| 0 <= k < |x| && i - slack <= k <= i + slack && band.hi[k].Num? && x[i].v - tol <= band.hi[k].v {
        assert InWindow(|x|, slack, i, k);
      }
    }
  }

  /** A column's midpoint, a gap where either extreme is one. */
  lemma MidIs(a: Band, i: nat)
    requires |a.lo| == |a.hi| && i < |a.lo|
    ensures a.Mid()[i].Num? <==> a.lo[i].Num? && a.hi[i].Num?
    ensures a.Mid()[i].Num? ==> a.Mid()[i].v + a.Mid()[i].v == a.lo[i].v + a.hi[i].v
  {
  }

  /** The judged samples among the first i. */
  ghost function JudgedCount(x: seq<Float>, band: Band, slack: nat, i: nat): nat
    requires band.Ok(|x|) && i <= |x|
  {
    if i == 0 then 0
    else JudgedCount(x, band, slack, i - 1) + if Judged(x, band, slack, i - 1) then 1 else 0
  }

  function GapCount(band: Band, from: nat, to: nat): (c: nat)
    requires |band.lo| == |band.hi| && from <= to <= |band.lo|
    ensures c == 0 <==> forall k :: from <= k < to ==> !band.Gap(k)
  {
    if from == to then 0 else GapCount(band, from, to - 1) + if band.Gap(to - 1) then 1 else 0
  }

  lemma NoGaps(band: Band)
    requires |band.lo| == |band.hi|
    ensures GapCount(band, 0, 0) == 0
  {
  }

  lemma {:induction false} GapCountFront(band: Band, from: nat, to: nat)
    requires |band.lo| == |band.hi| && from < to <= |band.lo|
    ensures GapCount(band, from, to) == GapCount(band, from + 1, to) + if band.Gap(from) then 1 else 0
  {
    if from + 1 < to {
      GapCountFront(band, from, to - 1);
    }
  }

  // ---------------------------------------------------------------- a monotonic deque

  /** The lows as keys, and the highs turned over: the lowest key is the window's extreme either way. */
  ghost function LoKeys(band: Band): seq<real> {
    seq(|band.lo|, k requires 0 <= k < |band.lo| => if band.lo[k].Num? then band.lo[k].v else 0.0)
  }

  ghost function HiKeys(band: Band): seq<real> {
    seq(|band.hi|, k requires 0 <= k < |band.hi| => if band.hi[k].Num? then -band.hi[k].v else 0.0)
  }

  ghost predicate Members(q: seq<nat>, band: Band, from: int, next: nat)
    requires |band.lo| == |band.hi| && next <= |band.lo|
  {
    forall j :: 0 <= j < |q| ==> from <= q[j] < next && !band.Gap(q[j])
  }

  ghost predicate Rising(q: seq<nat>, key: seq<real>) {
    && (forall j :: 0 <= j < |q| ==> q[j] < |key|)
    && (forall j, l :: 0 <= j < l < |q| ==> q[j] < q[l] && key[q[j]] < key[q[l]])
  }

  ghost predicate Dominated(q: seq<nat>, key: seq<real>, k: nat)
    requires k < |key|
  {
    exists j :: 0 <= j < |q| && k <= q[j] < |key| && key[q[j]] <= key[k]
  }

  /** q holds indices of from..next without gaps, rising, with rising keys, and something at or after every
      gapless index of from..next with a key as low. */
  ghost predicate Deque(q: seq<nat>, key: seq<real>, band: Band, from: int, next: nat)
    requires |key| == |band.lo| == |band.hi| && next <= |key|
  {
    && Members(q, band, from, next)
    && Rising(q, key)
    && (forall k: nat :: from <= k < next && !band.Gap(k) ==> Dominated(q, key, k))
  }

  /** The front is the window's extreme. */
  lemma FrontIsLowest(q: seq<nat>, key: seq<real>, band: Band, from: int, next: nat, k: nat)
    requires |key| == |band.lo| == |band.hi| && next <= |key| && Deque(q, key, band, from, next)
    requires from <= k < next && !band.Gap(k)
    ensures q != [] && from <= q[0] < next && !band.Gap(q[0]) && key[q[0]] <= key[k]
  {
    assert Dominated(q, key, k);
  }

  lemma EmptyDeque(key: seq<real>, band: Band, from: int)
    requires |key| == |band.lo| == |band.hi|
    ensures Deque([], key, band, from, 0)
  {
  }

  lemma PushKeepsRising(q: seq<nat>, j: nat, key: seq<real>, next: nat)
    requires Rising(q, key) && j <= |q| && next < |key| && forall l :: 0 <= l < |q| ==> q[l] < next
    requires j > 0 ==> key[q[j - 1]] < key[next]
    ensures Rising(q[..j] + [next], key)
  {
    var p := q[..j] + [next];
    forall l | 0 <= l < j ensures key[p[l]] < key[next] {
      assert p[l] == q[l];
      if l < j - 1 {
        assert key[q[l]] < key[q[j - 1]];
      }
    }
  }

  lemma PushKeepsDominated(q: seq<nat>, j: nat, key: seq<real>, next: nat, k: nat)
    requires k < |key| && Dominated(q, key, k) && j <= |q| && k < next < |key| && forall l :: 0 <= l < |q| ==> q[l] < next
    requires forall l :: j <= l < |q| ==> key[q[l]] >= key[next]
    ensures Dominated(q[..j] + [next], key, k)
  {
    var p := q[..j] + [next];
    var l :| 0 <= l < |q| && k <= q[l] < |key| && key[q[l]] <= key[k];
    assert p[if l < j then l else j] == if l < j then q[l] else next;
  }

  /** Cutting the back at j and putting next there keeps the deque, when next's key is as low as any cut and
      lower than none kept. */
  lemma PushKeepsDeque(q: seq<nat>, j: nat, key: seq<real>, band: Band, from: int, next: nat)
    requires |key| == |band.lo| == |band.hi| && next < |key| && Deque(q, key, band, from, next) && j <= |q|
    requires !band.Gap(next) && from <= next
    requires forall l :: j <= l < |q| ==> key[q[l]] >= key[next]
    requires j > 0 ==> key[q[j - 1]] < key[next]
    ensures Deque(q[..j] + [next], key, band, from, next + 1)
  {
    hide Rising, Dominated;
    var p := q[..j] + [next];
    PushKeepsRising(q, j, key, next);
    assert forall l :: 0 <= l < j ==> p[l] == q[l];
    forall k: nat | from <= k < next + 1 && !band.Gap(k) ensures Dominated(p, key, k) {
      if k < next {
        PushKeepsDominated(q, j, key, next, k);
      } else {
        LastDominates(p, key);
      }
    }
  }

  lemma LastDominates(p: seq<nat>, key: seq<real>)
    requires p != [] && p[|p| - 1] < |key|
    ensures Dominated(p, key, p[|p| - 1])
  {
  }

  lemma SkipKeepsDeque(q: seq<nat>, key: seq<real>, band: Band, from: int, next: nat)
    requires |key| == |band.lo| == |band.hi| && next < |key| && Deque(q, key, band, from, next) && band.Gap(next)
    ensures Deque(q, key, band, from, next + 1)
  {
    hide Rising, Dominated;
  }

  lemma DropKeepsDominated(q: seq<nat>, j: nat, key: seq<real>, k: nat)
    requires k < |key| && Dominated(q, key, k) && j <= |q| && forall l :: 0 <= l < j ==> q[l] < k
    ensures Dominated(q[j..], key, k)
  {
    var l :| 0 <= l < |q| && k <= q[l] < |key| && key[q[l]] <= key[k];
    assert q[j..][l - j] == q[l];
  }

  lemma DropKeepsRising(q: seq<nat>, j: nat, key: seq<real>, from': int)
    requires Rising(q, key) && j <= |q| && (j < |q| ==> q[j] >= from')
    ensures Rising(q[j..], key) && forall l :: 0 <= l < |q[j..]| ==> q[j..][l] == q[l + j] >= from'
  {
  }

  /** Cutting front indices that left the window keeps the deque. */
  lemma DropKeepsDeque(q: seq<nat>, j: nat, key: seq<real>, band: Band, from: int, from': int, next: nat)
    requires |key| == |band.lo| == |band.hi| && next <= |key| && Deque(q, key, band, from, next) && j <= |q|
    requires from <= from' && (forall l :: 0 <= l < j ==> q[l] < from') && (j < |q| ==> q[j] >= from')
    ensures Deque(q[j..], key, band, from', next)
  {
    hide Rising, Dominated;
    DropKeepsRising(q, j, key, from');
    forall k: nat | from' <= k < next && !band.Gap(k) ensures Dominated(q[j..], key, k) {
      DropKeepsDominated(q, j, key, k);
    }
  }

  method PushLo(q: seq<nat>, band: Band, ghost from: int, next: nat) returns (p: seq<nat>)
    requires |band.lo| == |band.hi| && next < |band.lo| && from <= next && !band.Gap(next)
    requires Deque(q, LoKeys(band), band, from, next)
    ensures Deque(p, LoKeys(band), band, from, next + 1)
  {
    hide Rising, Dominated;
    ghost var key := LoKeys(band);
    var j := |q|;
    while j > 0 && band.lo[q[j - 1]].v >= band.lo[next].v
      invariant 0 <= j <= |q| && forall l :: j <= l < |q| ==> key[q[l]] >= key[next]
    {
      j := j - 1;
    }
    PushKeepsDeque(q, j, key, band, from, next);
    return q[..j] + [next];
  }

  method PushHi(q: seq<nat>, band: Band, ghost from: int, next: nat) returns (p: seq<nat>)
    requires |band.lo| == |band.hi| && next < |band.lo| && from <= next && !band.Gap(next)
    requires Deque(q, HiKeys(band), band, from, next)
    ensures Deque(p, HiKeys(band), band, from, next + 1)
  {
    hide Rising, Dominated;
    ghost var key := HiKeys(band);
    var j := |q|;
    while j > 0 && band.hi[q[j - 1]].v <= band.hi[next].v
      invariant 0 <= j <= |q| && forall l :: j <= l < |q| ==> key[q[l]] >= key[next]
    {
      j := j - 1;
    }
    PushKeepsDeque(q, j, key, band, from, next);
    return q[..j] + [next];
  }

  method DropBefore(q: seq<nat>, from': int, ghost key: seq<real>, ghost band: Band, ghost from: int, ghost next: nat)
    returns (p: seq<nat>)
    requires |key| == |band.lo| == |band.hi| && next <= |key| && Deque(q, key, band, from, next) && from <= from'
    ensures Deque(p, key, band, from', next)
  {
    hide Rising, Dominated;
    var j := 0;
    while j < |q| && q[j] < from'
      invariant j <= |q| && forall l :: 0 <= l < j ==> q[l] < from'
    {
      j := j + 1;
    }
    DropKeepsDeque(q, j, key, band, from, from', next);
    return q[j..];
  }

  // ---------------------------------------------------------------- the test

  /** Lets the indices up to i + slack into the window. */
  method Enter(band: Band, minQ: seq<nat>, maxQ: seq<nat>, next: nat, gaps: nat, i: nat, slack: nat)
    returns (minQ': seq<nat>, maxQ': seq<nat>, next': nat, gaps': nat)
    requires |band.lo| == |band.hi| && i < |band.lo| && next == (if i == 0 then 0 else Min(|band.lo|, i + slack))
    requires Deque(minQ, LoKeys(band), band, i - 1 - slack, next) && Deque(maxQ, HiKeys(band), band, i - 1 - slack, next)
    requires gaps == GapCount(band, Min(Max(0, i - 1 - slack), next), next)
    ensures next' == Min(|band.lo|, i + slack + 1)
    ensures Deque(minQ', LoKeys(band), band, i - 1 - slack, next')
    ensures Deque(maxQ', HiKeys(band), band, i - 1 - slack, next')
    ensures gaps' == GapCount(band, Max(0, i - 1 - slack), next')
  {
    hide Deque;
    minQ', maxQ', next', gaps' := minQ, maxQ, next, gaps;
    while next' < |band.lo| && next' <= i + slack
      invariant next <= next' <= Min(|band.lo|, i + slack + 1)
      invariant Deque(minQ', LoKeys(band), band, i - 1 - slack, next')
      invariant Deque(maxQ', HiKeys(band), band, i - 1 - slack, next')
      invariant gaps' == GapCount(band, Max(0, i - 1 - slack), next')
    {
      if band.lo[next'].NaN? || band.hi[next'].NaN? {
        SkipKeepsDeque(minQ', LoKeys(band), band, i - 1 - slack, next');
        SkipKeepsDeque(maxQ', HiKeys(band), band, i - 1 - slack, next');
        gaps' := gaps' + 1;
      } else {
        minQ' := PushLo(minQ', band, i - 1 - slack, next');
        maxQ' := PushHi(maxQ', band, i - 1 - slack, next');
      }
      next' := next' + 1;
    }
  }

  /** What the loop skips is not judged: with no gap in its window a sample's own column is in the deque. */
  lemma NotJudged(x: seq<Float>, band: Band, slack: nat, i: nat, minQ: seq<nat>, next: nat, gaps: nat)
    requires band.Ok(|x|) && i < |x| && next == Min(|x|, i + slack + 1)
    requires gaps == GapCount(band, Max(0, i - slack), next) && Deque(minQ, LoKeys(band), band, i - slack, next)
    requires var end := Min(slack, (|x| - 1) / 2);
             i < end || i >= |x| - end || x[i].NaN? || gaps > 0 || minQ == []
    ensures !Judged(x, band, slack, i)
  {
    if gaps > 0 {
      var k :| Max(0, i - slack) <= k < next && band.Gap(k);
      assert InWindow(|x|, slack, i, k);
    } else if minQ == [] {
      FrontIsLowest(minQ, LoKeys(band), band, i - slack, next, i);
    }
  }

  lemma AllJudged(x: seq<Float>, band: Band, slack: nat, i: nat, next: nat, gaps: nat)
    requires band.Ok(|x|) && i < |x| && next == Min(|x|, i + slack + 1) && gaps == GapCount(band, Max(0, i - slack), next)
    requires var end := Min(slack, (|x| - 1) / 2); end <= i < |x| - end && x[i].Num? && gaps == 0
    ensures Judged(x, band, slack, i)
  {
  }

  /** The deques' fronts are the window's lowest low and highest high. */
  lemma FrontsDecide(x: seq<Float>, band: Band, tol: real, slack: nat, i: nat, minQ: seq<nat>, maxQ: seq<nat>, next: nat)
    requires band.Ok(|x|) && i < |x| && next == Min(|x|, i + slack + 1) && Judged(x, band, slack, i) && minQ != []
    requires Deque(minQ, LoKeys(band), band, i - slack, next) && Deque(maxQ, HiKeys(band), band, i - slack, next)
    ensures maxQ != [] && minQ[0] < |x| && maxQ[0] < |x| && band.lo[minQ[0]].Num? && band.hi[maxQ[0]].Num?
    ensures Inside(x, band, tol, slack, i)
            <==> band.lo[minQ[0]].v - tol <= x[i].v && x[i].v <= band.hi[maxQ[0]].v + tol
  {
    hide Deque;
    FrontIsLowest(minQ, LoKeys(band), band, i - slack, next, i);
    FrontIsLowest(maxQ, HiKeys(band), band, i - slack, next, i);
    assert InWindow(|x|, slack, i, minQ[0]) && InWindow(|x|, slack, i, maxQ[0]);
    forall k | InWindow(|x|, slack, i, k)
      ensures band.lo[minQ[0]].v <= band.lo[k].v && band.hi[k].v <= band.hi[maxQ[0]].v
    {
      FrontIsLowest(minQ, LoKeys(band), band, i - slack, next, k);
      FrontIsLowest(maxQ, HiKeys(band), band, i - slack, next, k);
    }
  }

  /** The number of judged samples of x, or -1 when one lies outside the band's sliding window by more than tol. */
  method Within(x: seq<Float>, band: Band, tol: real, slack: nat) returns (r: int)
    requires band.Ok(|x|)
    ensures r == -1 <==> exists i :: 0 <= i < |x| && Judged(x, band, slack, i) && !Inside(x, band, tol, slack, i)
    ensures r != -1 ==> r == JudgedCount(x, band, slack, |x|)
  {
    hide Deque, Judged, Inside, GapCount;
    var n := |x|;
    var minQ: seq<nat>, maxQ: seq<nat> := [], [];
    var next, gaps, tested := 0, 0, 0;
    ghost var lows, highs := LoKeys(band), HiKeys(band);
    EmptyDeque(lows, band, -1 - slack);
    EmptyDeque(highs, band, -1 - slack);
    NoGaps(band);
    for i := 0 to n
      invariant next == (if i == 0 then 0 else Min(n, i + slack))
      invariant Deque(minQ, lows, band, i - 1 - slack, next) && Deque(maxQ, highs, band, i - 1 - slack, next)
      invariant gaps == GapCount(band, Min(Max(0, i - 1 - slack), next), next)
      invariant tested == JudgedCount(x, band, slack, i)
      invariant forall j :: 0 <= j < i ==> Judged(x, band, slack, j) ==> Inside(x, band, tol, slack, j)
    {
      minQ, maxQ, next, gaps := Enter(band, minQ, maxQ, next, gaps, i, slack);
      var out := i - slack - 1;
      if out >= 0 {
        GapCountFront(band, out, next);
        if band.lo[out].NaN? || band.hi[out].NaN? {
          gaps := gaps - 1;
        }
      }
      minQ := DropBefore(minQ, i - slack, lows, band, i - 1 - slack, next);
      maxQ := DropBefore(maxQ, i - slack, highs, band, i - 1 - slack, next);
      var end := Min(slack, (n - 1) / 2);
      if i < end || i >= n - end || x[i].NaN? || gaps > 0 || |minQ| == 0 {
        NotJudged(x, band, slack, i, minQ, next, gaps);
        continue;
      }
      AllJudged(x, band, slack, i, next, gaps);
      FrontsDecide(x, band, tol, slack, i, minQ, maxQ, next);
      if x[i].v < band.lo[minQ[0]].v - tol || x[i].v > band.hi[maxQ[0]].v + tol {
        return -1;
      }
      tested := tested + 1;
    }
    return tested;
  }

  // ---------------------------------------------------------------- two captures

  /** Every judged midpoint of a lies in b's band, and there is one. */
  ghost predicate Covered(a: Band, b: Band, tol: real, slack: nat)
    requires |a.lo| == |a.hi| && b.Ok(|a.lo|)
  {
    && (exists i :: 0 <= i < |a.lo| && Judged(a.Mid(), b, slack, i))
    && forall i :: 0 <= i < |a.lo| && Judged(a.Mid(), b, slack, i) ==> Inside(a.Mid(), b, tol, slack, i)
  }

  ghost predicate Repeats(prev: Band, cur: Band, tol: Float, slack: int) {
    && |cur.lo| > 0 && cur.Ok(|cur.lo|) && prev.Ok(|cur.lo|)
    && tol.Num? && tol.v >= 0.0
    && Covered(cur, prev, tol.v, Max(0, slack)) && Covered(prev, cur, tol.v, Max(0, slack))
  }

  /** Whether two consecutive captures repeat. */
  method RepeatsBand(prev: Band, cur: Band, tol: Float, slack: int) returns (r: bool)
    ensures r == Repeats(prev, cur, tol, slack)
  {
    var n := |cur.lo|;
    if n == 0 || |cur.hi| != n || |prev.lo| != n || |prev.hi| != n || !(tol.Num? && tol.v >= 0.0) {
      return false;
    }
    var a := Within(cur.Mid(), prev, tol.v, Max(0, slack));
    var b := Within(prev.Mid(), cur, tol.v, Max(0, slack));
    CountIsCovered(cur, prev, tol.v, Max(0, slack), a);
    CountIsCovered(prev, cur, tol.v, Max(0, slack), b);
    return a > 0 && b > 0;
  }

  lemma {:induction false} CountIsPositive(x: seq<Float>, band: Band, slack: nat, i: nat)
    requires band.Ok(|x|) && i <= |x|
    ensures JudgedCount(x, band, slack, i) > 0 <==> exists j :: 0 <= j < i && Judged(x, band, slack, j)
  {
    if i > 0 {
      CountIsPositive(x, band, slack, i - 1);
    }
  }

  lemma CountIsCovered(a: Band, b: Band, tol: real, slack: nat, r: int)
    requires |a.lo| == |a.hi| && b.Ok(|a.lo|)
    requires r == -1 <==> exists i :: 0 <= i < |a.lo| && Judged(a.Mid(), b, slack, i) && !Inside(a.Mid(), b, tol, slack, i)
    requires r != -1 ==> r == JudgedCount(a.Mid(), b, slack, |a.lo|)
    ensures r > 0 <==> Covered(a, b, tol, slack)
  {
    CountIsPositive(a.Mid(), b, slack, |a.lo|);
  }

  /** What repeating is: captures of one length, a tolerance, and each with a judged midpoint and none outside the other's
      band; a slack under 0 is 0. */
  lemma RepeatingIs(prev: Band, cur: Band, tol: Float, slack: int)
    ensures Repeats(prev, cur, tol, slack)
            <==> && |cur.lo| > 0 && |cur.hi| == |prev.lo| == |prev.hi| == |cur.lo| && tol.Num? && tol.v >= 0.0
                 && var s: nat := if slack < 0 then 0 else slack;
                    && (exists i :: 0 <= i < |cur.lo| && Judged(cur.Mid(), prev, s, i))
                    && (exists i :: 0 <= i < |cur.lo| && Judged(prev.Mid(), cur, s, i))
                    && (forall i :: 0 <= i < |cur.lo| && Judged(cur.Mid(), prev, s, i) ==> Inside(cur.Mid(), prev, tol.v, s, i))
                    && (forall i :: 0 <= i < |cur.lo| && Judged(prev.Mid(), cur, s, i) ==> Inside(prev.Mid(), cur, tol.v, s, i))
  {
    hide Judged, Inside;
  }

  /** The test takes its two captures alike. */
  lemma RepeatsIsSymmetric(prev: Band, cur: Band, tol: Float, slack: int)
    ensures Repeats(prev, cur, tol, slack) == Repeats(cur, prev, tol, slack)
  {
  }

  /** A capture's copy moved s columns, within the slack, is never outside: a jitter under the slack repeats,
      where it is judged, at any tolerance. */
  lemma ShiftedStaysInside(a: Band, b: Band, s: int, tol: real, slack: nat, i: nat)
    requires |a.lo| == |a.hi| && b.Ok(|a.lo|) && i < |a.lo| && tol >= 0.0 && Abs(s) <= slack
    requires 0 <= i + s < |a.lo| && a.lo[i] == b.lo[i + s] && a.hi[i] == b.hi[i + s]
    requires a.lo[i].Num? && a.hi[i].Num? ==> a.lo[i].v <= a.hi[i].v
    requires Judged(a.Mid(), b, slack, i)
    ensures Inside(a.Mid(), b, tol, slack, i)
  {
    assert InWindow(|a.lo|, slack, i, i + s);
  }
}
