/**
 The I2C decode: a state machine over the levels of SCL and SDA (sections 3.1.4 to
 3.1.6 and 3.1.10 of NXP UM10204), walked sample by sample or over the two lines'
 merged edges.
 */
module I2c {
  import opened Basics
  import opened Edges

  /** Both lines at a sample: SCL's and SDA's level, and the bit SDA's code reads as there, which may differ from
      its level inside the slicer's hysteresis. */
  datatype Sample = Sample(cl: bit, da: bit, raw: bit)

  datatype Token = START | STOP | ADDR(addr: nat) | WRITE | READ | DATA(byte: nat) | ACK | NAK

  datatype Kind = Start | Stop | Addr | Rw(read: bool) | Data | Ack | Nak | NoStop

  datatype Span = Span(i0: int, i1: int, kind: Kind, val: nat)

  /** Everything but where the tokens lie. */
  datatype Core = Core(inTxn: bool, expectAddr: bool, bitCount: nat, val: nat, toks: seq<Token>, bytes: seq<nat>)

  datatype State = State(core: Core, bitStart: int, spans: seq<Span>)

  const INIT := State(Core(false, false, 0, 0, [], []), 0, [])

  predicate Starts(prev: Sample, cur: Sample) {
    cur.cl == 1 && prev.da == 1 && cur.da == 0
  }

  predicate Stops(prev: Sample, cur: Sample) {
    cur.cl == 1 && prev.da == 0 && cur.da == 1
  }

  predicate Clocks(prev: Sample, cur: Sample) {
    prev.cl == 0 && cur.cl == 1
  }

  function ByteTokens(expectAddr: bool, v: nat): seq<Token> {
    if expectAddr then [ADDR(v / 2), if v % 2 != 0 then READ else WRITE] else [DATA(v)]
  }

  /** A bit taken at a rise of SCL. */
  function TakeBit(c: Core, bit: nat): Core {
    if c.bitCount < 8 then
      var v := 2 * (if c.bitCount == 0 then 0 else c.val) + bit;
      if c.bitCount + 1 == 8 then
        c.(bitCount := 8, val := v, toks := c.toks + ByteTokens(c.expectAddr, v), expectAddr := false,
        bytes := if c.expectAddr then c.bytes else c.bytes + [v])
      else c.(bitCount := c.bitCount + 1, val := v)
    else c.(toks := c.toks + [if bit == 0 then ACK else NAK], bitCount := 0, val := 0)
  }

  function StepCore(c: Core, prev: Sample, cur: Sample): Core {
    if Starts(prev, cur) then Core(true, true, 0, 0, c.toks + [START], c.bytes)
    else if Stops(prev, cur) then c.(inTxn := false, bitCount := 0, toks := c.toks + [STOP])
    else if Clocks(prev, cur) && c.inTxn then TakeBit(c, cur.raw)
    else c
  }

  /** The machine at sample i, where the lines go from prev to cur. */
  function Step(s: State, i: int, prev: Sample, cur: Sample): State {
    var c := s.core;
    var core := StepCore(c, prev, cur);
    if Starts(prev, cur) then State(core, s.bitStart, s.spans + [Span(i, i, Start, 0)])
    else if Stops(prev, cur) then State(core, s.bitStart, s.spans + [Span(i, i, Stop, 0)])
    else if Clocks(prev, cur) && c.inTxn then
      var from := if c.bitCount == 0 then i else s.bitStart;
      if c.bitCount == 7 then
        State(core, from, s.spans + if c.expectAddr then [Span(from, i, Addr, core.val / 2), Span(i, i, Rw(core.val % 2 != 0), 0)]
                                    else [Span(from, i, Data, core.val)])
      else if c.bitCount < 8 then State(core, from, s.spans)
      else State(core, s.bitStart, s.spans + [Span(i, i, if cur.raw == 0 then Ack else Nak, 0)])
    else s
  }

  /** The machine over every sample of a record. */
  function Walk(w: seq<Sample>): State {
    var n := |w|;
    if n <= 1 then INIT else Step(Walk(w[..n - 1]), n - 1, w[n - 2], w[n - 1])
  }

  /** The method the machine is written as: its variables, updated at a sample. */
  class Decoder {
    var inTxn: bool
    var expectAddr: bool
    var bitCount: nat
    var val: nat
    var bitStart: int
    var spans: seq<Span>
    var toks: seq<Token>
    var bytes: seq<nat>

    ghost function View(): State
      reads this
    {
      State(Core(inTxn, expectAddr, bitCount, val, toks, bytes), bitStart, spans)
    }

    constructor ()
      ensures View() == INIT
    {
      inTxn, expectAddr, bitCount, val, bitStart, spans, toks, bytes := false, false, 0, 0, 0, [], [], [];
    }

    method StepAt(i: int, pcl: bit, pda: bit, cl: bit, da: bit, raw: bit)
      modifies this
      ensures forall praw: bit :: View() == Step(old(View()), i, Sample(pcl, pda, praw), Sample(cl, da, raw))
    {
      if cl == 1 && pda == 1 && da == 0 {
        spans := spans + [Span(i, i, Start, 0)];
        toks := toks + [START];
        inTxn, expectAddr, bitCount, val := true, true, 0, 0;
        return;
      }
      if cl == 1 && pda == 0 && da == 1 {
        spans := spans + [Span(i, i, Stop, 0)];
        toks := toks + [STOP];
        inTxn, bitCount := false, 0;
        return;
      }
      if pcl == 0 && cl == 1 && inTxn {
        if bitCount < 8 {
          if bitCount == 0 {
            bitStart, val := i, 0;
          }
          val := val * 2 + (raw as nat);
          bitCount := bitCount + 1;
          if bitCount == 8 {
            if expectAddr {
              spans := spans + [Span(bitStart, i, Addr, val / 2), Span(i, i, Rw(val % 2 != 0), 0)];
              toks := toks + [ADDR(val / 2), if val % 2 != 0 then READ else WRITE];
              expectAddr := false;
            } else {
              spans := spans + [Span(bitStart, i, Data, val)];
              toks := toks + [DATA(val)];
              bytes := bytes + [val];
            }
          }
        } else {
          spans := spans + [Span(i, i, if raw == 0 then Ack else Nak, 0)];
          toks := toks + [if raw == 0 then ACK else NAK];
          bitCount, val := 0, 0;
        }
      }
    }

    /** The walk over every sample. */
    method WalkSamples(w: seq<Sample>)
      requires View() == INIT
      modifies this
      ensures View() == Walk(w)
    {
      for i := 0 to |w|
        invariant View() == Walk(w[..i])
      {
        assert w[..i + 1][..i] == w[..i];
        if i > 0 {
          StepAt(i, w[i - 1].cl, w[i - 1].da, w[i].cl, w[i].da, w[i].raw);
        }
      }
      assert w[..|w|] == w;
    }

    /** A line's level at sample i, its edge there if it has one dropped. */
    method PassEdge(ghost line: Line, level: bit, es: seq<Edge>, ghost at: nat, i: nat) returns (level': bit, es': seq<Edge>)
      requires Follows(line, level, es, at) && 1 <= at <= i && From(es, i)
      ensures Follows(line, level', es', i + 1) && |es'| == |es| - (if es != [] && es[0].i == i then 1 else 0)
      ensures level == line.At(i - 1) && level' == line.At(i)
    {
      level', es' := level, es;
      FirstLevels(level, es, i - 1);
      if |es| > 0 && es[0].i == i {
        DropEdge(level, es);
        level', es' := es[0].Level(), es[1..];
      }
      FirstLevels(level', es', i);
    }

    /** The walk over both lines' edges, merged in time, from the lines' first levels: the same as over every
        sample with the levels the edges give. */
    method WalkEdges(n: nat, clLine: Line, daLine: Line, raw: seq<bit>)
      requires View() == INIT && |raw| == n && Rising(clLine.edges) && Rising(daLine.edges)
      modifies this
      ensures View() == Walk(Rebuilt(clLine, daLine, raw))
    {
      hide Walk, Walked, Step, Line.At, Follows, Rising;
      WalkedAll(clLine, daLine, raw);
      if n == 0 {
        WalkOfNone(Rebuilt(clLine, daLine, raw));
        return;
      }
      var cl, da := clLine.first, daLine.first;
      var ce, de := clLine.edges, daLine.edges;
      ghost var at := 1; // the samples before it are walked
      FollowsStart(clLine);
      FollowsStart(daLine);
      while true
        invariant 1 <= at <= n && View() == Walked(clLine, daLine, raw, at)
        invariant Follows(clLine, cl, ce, at) && Follows(daLine, da, de, at)
        decreases |ce| + |de|
      {
        var i := n;
        if |ce| > 0 {
          i := Min(i, ce[0].i);
        }
        if |de| > 0 {
          i := Min(i, de[0].i);
        }
        FollowsFrom(clLine, cl, ce, at);
        FollowsFrom(daLine, da, de, at);
        QuietWalk(clLine, daLine, raw, at, i, cl, ce, da, de);
        if i >= n {
          break;
        }
        var pcl, pda := cl, da;
        cl, ce := PassEdge(clLine, cl, ce, at, i);
        da, de := PassEdge(daLine, da, de, at, i);
        WalkedNext(clLine, daLine, raw, i);
        StepAt(i, pcl, pda, cl, da, raw[i]);
        at := i + 1;
      }
    }
  }

  // ---------------------------------------------------------------- the lines' edges

  /** Every sample of the record the edges stand for. */
  function Rebuilt(cl: Line, da: Line, raw: seq<bit>): (w: seq<Sample>)
    ensures |w| == |raw|
  {
    seq(|raw|, k requires 0 <= k < |raw| => Sample(cl.At(k), da.At(k), raw[k]))
  }

  /** The machine over the first k samples. */
  ghost function Walked(cl: Line, da: Line, raw: seq<bit>, k: nat): State
    requires k <= |raw|
  {
    Walk(Rebuilt(cl, da, raw)[..k])
  }

  lemma WalkedAll(cl: Line, da: Line, raw: seq<bit>)
    ensures Walked(cl, da, raw, |raw|) == Walk(Rebuilt(cl, da, raw))
    ensures raw != [] ==> Walked(cl, da, raw, 1) == INIT
  {
    var w := Rebuilt(cl, da, raw);
    assert w[..|raw|] == w;
  }

  lemma WalkedNext(cl: Line, da: Line, raw: seq<bit>, i: nat)
    requires 1 <= i < |raw|
    ensures Walked(cl, da, raw, i + 1)
            == Step(Walked(cl, da, raw, i), i, Sample(cl.At(i - 1), da.At(i - 1), raw[i - 1]), Sample(cl.At(i), da.At(i), raw[i]))
  {
    hide Walk, Step, Line.At;
    WalkNext(Rebuilt(cl, da, raw), i);
  }

  /** level and es are what is left of the line once the samples before at are passed. */
  ghost predicate Follows(line: Line, level: bit, es: seq<Edge>, at: nat) {
    Rising(es) && From(es, at) && forall k: nat :: k >= at - 1 ==> line.At(k) == LevelAt(level, es, k)
  }

  lemma FollowsStart(line: Line)
    requires Rising(line.edges)
    ensures Follows(line, line.first, line.edges, 1)
  {
  }

  lemma FollowsFrom(line: Line, level: bit, es: seq<Edge>, at: nat)
    requires Follows(line, level, es, at)
    ensures From(es, at)
  {
  }

  lemma WalkOfNone(w: seq<Sample>)
    requires w == []
    ensures Walk(w) == INIT
  {
  }

  lemma WalkNext(w: seq<Sample>, i: nat)
    requires 1 <= i < |w|
    ensures Walk(w[..i + 1]) == Step(Walk(w[..i]), i, w[i - 1], w[i])
  {
    assert w[..i + 1][..i] == w[..i];
  }

  /** A sample where neither line's level changes is no START, STOP or clock. */
  lemma QuietStep(s: State, i: int, prev: Sample, cur: Sample)
    requires prev.cl == cur.cl && prev.da == cur.da
    ensures Step(s, i, prev, cur) == s
  {
  }

  lemma QuietLevel(line: Line, level: bit, es: seq<Edge>, at: nat, k: nat)
    requires Follows(line, level, es, at) && at <= k + 1 && From(es, k + 1)
    ensures line.At(k) == level
  {
    FirstLevels(level, es, k);
  }

  lemma QuietNext(cl: Line, da: Line, raw: seq<bit>, k: nat)
    requires 1 <= k < |raw| && cl.At(k) == cl.At(k - 1) && da.At(k) == da.At(k - 1)
    ensures Walked(cl, da, raw, k + 1) == Walked(cl, da, raw, k)
  {
    hide Step, Walked, LevelAt, Line.At;
    WalkedNext(cl, da, raw, k);
    QuietStep(Walked(cl, da, raw, k), k, Sample(cl.At(k - 1), da.At(k - 1), raw[k - 1]), Sample(cl.At(k), da.At(k), raw[k]));
  }

  /** Up to the next edge of either line nothing happens. */
  lemma {:induction false} QuietWalk(clLine: Line, daLine: Line, raw: seq<bit>, at: nat, i: nat,
                                     cl: bit, ce: seq<Edge>, da: bit, de: seq<Edge>)
    requires 1 <= at <= i <= |raw| && From(ce, i) && From(de, i)
    requires Follows(clLine, cl, ce, at) && Follows(daLine, da, de, at)
    ensures Walked(clLine, daLine, raw, i) == Walked(clLine, daLine, raw, at)
    decreases i
  {
    hide Walked, Follows, LevelAt, Line.At, Rising;
    if at < i {
      QuietWalk(clLine, daLine, raw, at, i - 1, cl, ce, da, de);
      QuietLevel(clLine, cl, ce, at, i - 1);
      QuietLevel(daLine, da, de, at, i - 1);
      QuietLevel(clLine, cl, ce, at, i - 2);
      QuietLevel(daLine, da, de, at, i - 2);
      QuietNext(clLine, daLine, raw, i - 1);
    }
  }
}
