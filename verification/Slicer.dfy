/**
 A channel's codes sliced into levels: a Schmitt trigger about a threshold, scanned
 run by run in integers, and the levels read back from its edges.
 */
module Slicer {
  import opened Basics
  import opened Edges

  function Ceil(t: real): int {
    -((-t).Floor)
  }

  /** The least code at or above t, 256 for none. */
  function CodeCeil(t: real): int {
    if t > 255.0 then 256 else Max(0, Ceil(t))
  }

  /** The greatest code at or below t, -1 for none. */
  function CodeFloor(t: real): int {
    if t < 0.0 then -1 else Min(255, t.Floor)
  }

  /** Comparing a code with a real threshold and with its integer is the same. */
  lemma CodeBounds(v: byte, t: real)
    ensures v as real >= t <==> v >= CodeCeil(t)
    ensures v as real <= t <==> v <= CodeFloor(t)
  {
  }

  // ---------------------------------------------------------------- the trigger, sample by sample

  datatype Slice = Slice(threshold: real, band: real) {
    function Hi(): real {
      threshold + band
    }

    function Lo(): real {
      threshold - band
    }

    function Flips(level: bit, v: byte): bool {
      if level == 0 then v as real >= Hi() else v as real <= Lo()
    }

    function Level(codes: seq<byte>, k: nat): bit
      requires k < |codes|
    {
      if k == 0 then (if codes[0] as real >= threshold then 1 else 0)
      else
        var p := Level(codes, k - 1);
        if Flips(p, codes[k]) then 1 - p else p
    }
  }

  /** The trigger of a channel of a swing: up at a tenth of it over the threshold, down at a tenth under, and between
      them as it was; the first level is by the threshold alone. */
  lemma TriggerIs(codes: seq<byte>, threshold: real, amp: real, k: nat)
    requires k < |codes| && amp >= 20.0
    ensures var s, v := Slice(threshold, 0.2 * amp / 2.0), codes[k] as real;
            && (k == 0 ==> (s.Level(codes, k) == 1 <==> v >= threshold))
            && (k > 0 && v >= threshold + amp / 10.0 ==> s.Level(codes, k) == 1)
            && (k > 0 && v <= threshold - amp / 10.0 ==> s.Level(codes, k) == 0)
            && (k > 0 && threshold - amp / 10.0 < v < threshold + amp / 10.0 ==> s.Level(codes, k) == s.Level(codes, k - 1))
  {
  }

  lemma {:induction false} QuietLevels(s: Slice, codes: seq<byte>, i: nat, j: nat, level: bit)
    requires i <= j < |codes| && s.Level(codes, i) == level
    requires forall k :: i < k <= j ==> !s.Flips(level, codes[k])
    ensures s.Level(codes, j) == level
    decreases j
  {
    if i < j {
      QuietLevels(s, codes, i, j - 1, level);
    }
  }

  // ---------------------------------------------------------------- the run scan

  /** The first index at or after from whose code is k or more, the record's length for none. */
  method ScanAtLeast(codes: seq<byte>, from: nat, k: int) returns (j: nat)
    requires from <= |codes|
    ensures from <= j <= |codes| && (forall q :: from <= q < j ==> codes[q] < k) && (j < |codes| ==> codes[j] >= k)
  {
    j := from;
    while j < |codes| && codes[j] < k
      invariant from <= j <= |codes| && forall q :: from <= q < j ==> codes[q] < k
    {
      j := j + 1;
    }
  }

  method ScanAtMost(codes: seq<byte>, from: nat, k: int) returns (j: nat)
    requires from <= |codes|
    ensures from <= j <= |codes| && (forall q :: from <= q < j ==> codes[q] > k) && (j < |codes| ==> codes[j] <= k)
  {
    j := from;
    while j < |codes| && codes[j] > k
      invariant from <= j <= |codes| && forall q :: from <= q < j ==> codes[q] > k
    {
      j := j + 1;
    }
  }

  /** Where the line from (p, a) to (p + 1, b) meets t, when a crossing is there to meet. */
  function Crossing(p: nat, a: byte, b: byte, t: real): real {
    if a != b then p as real + (t - a as real) / (b as real - a as real) else (p + 1) as real
  }

  /** An edge's place is where the line between the codes about it meets the threshold. */
  predicate CrossesAt(codes: seq<byte>, e: Edge, threshold: real) {
    && 0 < e.i < |codes| && codes[e.i] != codes[e.i - 1]
    && var a, b := codes[e.i - 1] as real, codes[e.i] as real;
       e.x == (e.i - 1) as real + (threshold - a) / (b - a)
  }

  lemma CrossingIsBefore(p: nat, a: byte, b: byte, t: real)
    requires (a < b && t <= b as real) || (a > b && t >= b as real)
    ensures Crossing(p, a, b, t) <= (p + 1) as real
  {
    var n, d := t - a as real, b as real - a as real;
    if d > 0.0 {
      QuotientAtMostOne(n, d);
    } else {
      QuotientAtMostOne(-n, -d);
      assert n / d == (-n) / (-d);
    }
  }

  lemma QuotientAtMostOne(n: real, d: real)
    requires d > 0.0 && n <= d
    ensures n / d <= 1.0
  {
  }

  /** The first level and edges of a channel: the changes of the trigger's level, no others, in time and in turn,
      each crossing at or before its sample. A swing under 20 codes is refused before. */
  method SliceChannel(codes: seq<byte>, threshold: real, amp: real) returns (line: Line)
    requires amp >= 20.0
    ensures var s := Slice(threshold, 0.2 * amp / 2.0);
            && (forall k :: 0 <= k < |codes| ==> line.At(k) == s.Level(codes, k))
            && (forall e :: e in line.edges ==> 0 < e.i < |codes| && s.Level(codes, e.i) != s.Level(codes, e.i - 1))
    ensures Rising(line.edges) && Alternating(line.first, line.edges)
    ensures forall e :: e in line.edges ==> e.x <= e.i as real && CrossesAt(codes, e, threshold)
  {
    hide CrossesAt, Sliced, Slice.Level, Rising, Alternating, Line.At;
    var s := Slice(threshold, 0.2 * amp / 2.0);
    var on, hiAt, loAt := CodeCeil(s.threshold), CodeCeil(s.Hi()), CodeFloor(s.Lo());
    var n := |codes|;
    var cur: bit := 0;
    if n > 0 && codes[0] >= on {
      cur := 1;
    }
    line := Line(cur, []);
    StartIsSliced(s, codes, line);
    var i := 0;
    while i < n
      invariant 0 <= i <= n && Sliced(s, codes, line, cur, i)
    {
      var j;
      if cur == 0 {
        j := ScanAtLeast(codes, i, hiAt);
      } else {
        j := ScanAtMost(codes, i, loAt);
      }
      RunIsQuiet(s, codes, line, cur, i, j);
      if j >= n {
        SlicedSoFar(s, codes, line, cur, i);
        return;
      }
      if j > 0 { // sample 0 only sets the first level
        var e := Edge(j, if cur == 1 then -1 else 1, Crossing(j - 1, codes[j - 1], codes[j], s.threshold));
        EdgeIsNext(s, codes, line, cur, i, j, e);
        line := Line(line.first, line.edges + [e]);
        cur := 1 - cur;
      }
      i := j + 1;
    }
    SlicedSoFar(s, codes, line, cur, i);
  }

  /** The line's edges are well formed, before i, and lead to the current level. */
  ghost predicate Shape(line: Line, cur: bit, i: nat) {
    && Rising(line.edges) && Alternating(line.first, line.edges)
    && cur == (if |line.edges| % 2 == 0 then line.first else 1 - line.first)
    && (forall j :: 0 <= j < |line.edges| ==> line.edges[j].i < i)
    && (i == 0 ==> line.edges == [])
  }

  ghost predicate Follows(s: Slice, codes: seq<byte>, line: Line, cur: bit, i: nat)
    requires i <= |codes|
  {
    && (forall k :: 0 <= k < i ==> line.At(k) == s.Level(codes, k))
    && (forall k: nat :: k >= i ==> line.At(k) == cur)
  }

  ghost predicate EdgeOk(s: Slice, codes: seq<byte>, e: Edge) {
    && 0 < e.i < |codes| && s.Level(codes, e.i) != s.Level(codes, e.i - 1) && e.x <= e.i as real
    && CrossesAt(codes, e, s.threshold)
  }

  /** The code before i made the current level; before the first sample it is the first level. */
  ghost predicate Last(s: Slice, codes: seq<byte>, cur: bit, i: nat)
    requires i <= |codes|
  {
    if i == 0 then codes != [] ==> s.Level(codes, 0) == cur
    else s.Level(codes, i - 1) == cur && s.Flips(1 - cur, codes[i - 1])
  }

  /** What holds once the first i samples are scanned: the line's edges are the trigger's changes so far. */
  ghost predicate Sliced(s: Slice, codes: seq<byte>, line: Line, cur: bit, i: nat)
    requires i <= |codes|
  {
    && s.band > 0.0
    && Shape(line, cur, i) && Follows(s, codes, line, cur, i) && Last(s, codes, cur, i)
    && forall e :: e in line.edges ==> EdgeOk(s, codes, e)
  }

  lemma StartIsSliced(s: Slice, codes: seq<byte>, line: Line)
    requires s.band > 0.0 && line.edges == []
    requires line.first == if codes != [] && codes[0] >= CodeCeil(s.threshold) then 1 else 0
    ensures Sliced(s, codes, line, line.first, 0)
  {
    if codes != [] {
      CodeBounds(codes[0], s.threshold);
    }
  }

  lemma SlicedSoFar(s: Slice, codes: seq<byte>, line: Line, cur: bit, i: nat)
    requires i <= |codes| && Sliced(s, codes, line, cur, i)
    ensures Rising(line.edges) && Alternating(line.first, line.edges)
    ensures forall k :: 0 <= k < i ==> line.At(k) == s.Level(codes, k)
    ensures forall e :: e in line.edges ==>
              0 < e.i < |codes| && s.Level(codes, e.i) != s.Level(codes, e.i - 1) && e.x <= e.i as real
              && CrossesAt(codes, e, s.threshold)
  {
    hide CrossesAt, Slice.Level, Line.At, Last, Rising, Alternating;
  }

  lemma RunIsQuiet(s: Slice, codes: seq<byte>, line: Line, cur: bit, i: nat, j: nat)
    requires i <= j <= |codes| && i < |codes| && Sliced(s, codes, line, cur, i)
    requires forall k :: i <= k < j ==> if cur == 0 then codes[k] < CodeCeil(s.Hi()) else codes[k] > CodeFloor(s.Lo())
    ensures forall k :: i <= k < j ==> !s.Flips(cur, codes[k])
    ensures forall k :: 0 <= k < j ==> line.At(k) == s.Level(codes, k)
    ensures j > 0 ==> s.Level(codes, j - 1) == cur
    ensures j < |codes| && s.Flips(cur, codes[j]) ==> j > 0
    ensures j < |codes| && (if cur == 0 then codes[j] >= CodeCeil(s.Hi()) else codes[j] <= CodeFloor(s.Lo())) ==>
              s.Flips(cur, codes[j])
  {
    hide CodeCeil, CodeFloor, Shape, Line.At;
    forall k | i <= k <= j && k < |codes|
      ensures s.Flips(cur, codes[k]) == if cur == 0 then codes[k] >= CodeCeil(s.Hi()) else codes[k] <= CodeFloor(s.Lo())
    {
      CodeBounds(codes[k], if cur == 0 then s.Hi() else s.Lo());
    }
    forall k | i <= k < j ensures s.Level(codes, k) == cur {
      QuietLevels(s, codes, if i == 0 then 0 else i - 1, k, cur);
    }
  }

  lemma EdgeKeepsShape(line: Line, cur: bit, i: nat, e: Edge)
    requires Shape(line, cur, i) && 0 < e.i && i <= e.i && e.dir == (if cur == 1 then -1 else 1)
    ensures Shape(Line(line.first, line.edges + [e]), 1 - cur, e.i + 1)
  {
  }

  lemma EdgeKeepsFollows(s: Slice, codes: seq<byte>, line: Line, cur: bit, i: nat, e: Edge)
    requires i <= e.i < |codes| && Follows(s, codes, line, cur, i) && Rising(line.edges + [e]) && e.Level() == 1 - cur
    requires forall k :: 0 <= k < e.i ==> line.At(k) == s.Level(codes, k)
    requires s.Level(codes, e.i) == 1 - cur
    ensures Follows(s, codes, Line(line.first, line.edges + [e]), 1 - cur, e.i + 1)
  {
    hide Slice.Level, Rising;
    var more := Line(line.first, line.edges + [e]);
    forall k: nat ensures more.At(k) == if k >= e.i then 1 - cur else line.At(k) {
      LevelAtAppend(line.first, line.edges, e, k);
    }
  }

  /** The scan's stop is the trigger's next change. */
  lemma EdgeIsNext(s: Slice, codes: seq<byte>, line: Line, cur: bit, i: nat, j: nat, e: Edge)
    requires i <= j < |codes| && 0 < j && Sliced(s, codes, line, cur, i)
    requires forall k :: i <= k < j ==> !s.Flips(cur, codes[k])
    requires forall k :: 0 <= k < j ==> line.At(k) == s.Level(codes, k)
    requires s.Level(codes, j - 1) == cur && s.Flips(cur, codes[j])
    requires e == Edge(j, if cur == 1 then -1 else 1, Crossing(j - 1, codes[j - 1], codes[j], s.threshold))
    ensures Sliced(s, codes, Line(line.first, line.edges + [e]), 1 - cur, j + 1)
  {
    hide Shape, Follows, Line.At, Crossing;
    EdgeKeepsShape(line, cur, i, e);
    EdgeOkAt(s, codes, cur, i, j, e);
    ShapeRises(Line(line.first, line.edges + [e]), 1 - cur, j + 1);
    EdgeKeepsFollows(s, codes, line, cur, i, e);
  }

  lemma ShapeRises(line: Line, cur: bit, i: nat)
    requires Shape(line, cur, i)
    ensures Rising(line.edges)
  {
  }

  lemma EdgeOkAt(s: Slice, codes: seq<byte>, cur: bit, i: nat, j: nat, e: Edge)
    requires s.band > 0.0 && i <= j < |codes| && 0 < j && Last(s, codes, cur, i)
    requires forall k :: i <= k < j ==> !s.Flips(cur, codes[k])
    requires s.Level(codes, j - 1) == cur && s.Flips(cur, codes[j])
    requires e == Edge(j, if cur == 1 then -1 else 1, Crossing(j - 1, codes[j - 1], codes[j], s.threshold))
    ensures EdgeOk(s, codes, e) && s.Level(codes, j) == 1 - cur
  {
    CrossingIsBefore(j - 1, codes[j - 1], codes[j], s.threshold);
  }

  // ---------------------------------------------------------------- levels read back

  /** The level of every sample of a record, from its line's edges. */
  method Levels(n: nat, line: Line) returns (level: array<bit>)
    requires Rising(line.edges) && forall e :: e in line.edges ==> e.i < n
    ensures fresh(level) && level.Length == n && forall k :: 0 <= k < n ==> level[k] == line.At(k)
  {
    level := new bit[n](_ => 0);
    var cur, at := line.first, 0;
    var j := 0;
    while j < |line.edges|
      invariant j <= |line.edges| && at <= n && (j < |line.edges| ==> at <= line.edges[j].i)
      invariant forall k :: 0 <= k < at ==> level[k] == line.At(k)
      invariant forall k: nat :: k >= at ==> line.At(k) == LevelAt(cur, line.edges[j..], k)
    {
      var e := line.edges[j];
      assert e in line.edges;
      at := Fill(level, line, cur, j, at, e.i);
      DropEdge(cur, line.edges[j..]);
      assert line.edges[j..][1..] == line.edges[j + 1..];
      cur, j := e.Level(), j + 1;
    }
    at := Fill(level, line, cur, j, at, n);
  }

  method Fill(level: array<bit>, ghost line: Line, cur: bit, ghost j: nat, from: nat, to: nat) returns (at: nat)
    requires from <= to <= level.Length && j <= |line.edges| && Rising(line.edges)
    requires line.edges[j..] == [] || line.edges[j].i >= to
    requires forall k :: 0 <= k < from ==> level[k] == line.At(k)
    requires forall k: nat :: k >= from ==> line.At(k) == LevelAt(cur, line.edges[j..], k)
    modifies level
    ensures at == to && forall k :: 0 <= k < to ==> level[k] == line.At(k)
  {
    at := from;
    while at < to
      invariant from <= at <= to && forall k :: 0 <= k < at ==> level[k] == line.At(k)
    {
      FirstLevels(cur, line.edges[j..], at);
      level[at] := cur;
      at := at + 1;
    }
  }

  /** No sample is nearer; of two as near it is the one farther from zero. */
  lemma RoundIsNearest(x: real)
    ensures -0.5 <= Round(x) as real - x <= 0.5
    ensures Round(x) as real - x == 0.5 ==> x > 0.0
    ensures Round(x) as real - x == -0.5 ==> x < 0.0
  {
  }

  /** The nearest sample, halves away from zero. */
  function Round(x: real): int {
    if x >= 0.0 then (x + 0.5).Floor else -((-x + 0.5).Floor)
  }

  /** The level of an edge-only line at the sample nearest x, -1 past the record's ends: a binary search for the
      edges passed, and their parity. */
  method LogicAt(n: nat, line: Line, codes: Option<seq<byte>>, threshold: real, x: real) returns (level: int)
    requires Rising(line.edges) && Alternating(line.first, line.edges) && (codes.Some? ==> |codes.value| == n)
    ensures var i := Round(x);
            level == if !(0 <= i < n) then -1
                     else if codes.None? then line.At(i)
                     else if codes.value[i] as real >= threshold then 1 else 0
  {
    var i := Round(x);
    if i < 0 || i >= n {
      return -1;
    }
    if codes.Some? {
      return if codes.value[i] as real >= threshold then 1 else 0;
    }
    var lo, hi := 0, |line.edges|;
    while lo < hi
      invariant 0 <= lo <= hi <= |line.edges|
      invariant forall j :: 0 <= j < lo ==> line.edges[j].i <= i
      invariant forall j :: hi <= j < |line.edges| ==> line.edges[j].i > i
    {
      var h := (lo + hi) / 2;
      if line.edges[h].i > i {
        hi := h;
      } else {
        lo := h + 1;
      }
    }
    ParityIsLevel(line.first, line.edges, i, lo);
    return (line.first + lo) % 2;
  }

  /** A channel's levels read back are the trigger's, at every sample: from the line's edges. */
  method SliceAndRead(codes: seq<byte>, threshold: real, amp: real) returns (level: array<bit>)
    requires amp >= 20.0
    ensures fresh(level) && level.Length == |codes|
    ensures forall k :: 0 <= k < |codes| ==> level[k] == Slice(threshold, 0.2 * amp / 2.0).Level(codes, k)
  {
    var line := SliceChannel(codes, threshold, amp);
    level := Levels(|codes|, line);
  }
}
