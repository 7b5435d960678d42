/**
 A byte stream's words grouped into packets: a packet runs until the line idles, a
 UART break, or a frame the decoder could not complete.
 */
module Packets {
  import opened Basics
  import QuickSelect

  datatype Kind = Data | FrameError | ParityError | Gap | Other

  datatype Span = Span(i0: int, i1: int, kind: Kind, val: nat) {
    predicate IsWord() {
      kind.Data? || kind.FrameError? || kind.ParityError?
    }

    function Last(): int {
      Max(i0, i1)
    }

    function First(): int {
      Min(i0, i1)
    }
  }

  type int64 = v: int | -0x8000_0000_0000_0000 <= v < 0x8000_0000_0000_0000

  /** One message of a bus, the samples i0 to i1 of the record; a byte stream's has no address and no fault. */
  datatype Packet = Packet(i0: int, i1: int, bytes: seq<byte>, byteErr: seq<bool>, complete: bool,
                           hasAddr: bool, addr: int64, read: bool, err: seq<byte>)

  /** The decode the packets are made of: its record of n samples, its words' width in bytes, its idle time. */
  datatype Env = Env(uart: bool, idle: real, n: int, width: nat) {
    predicate IsBreak(sp: Span) {
      uart && sp.kind.FrameError? && sp.val == 0
    }

    /** A word that goes into a packet. */
    predicate Carries(sp: Span) {
      sp.IsWord() && !IsBreak(sp)
    }

    predicate Over(d: int) {
      d as real > idle
    }
  }

  // ---------------------------------------------------------------- words as bytes

  /** The w low bytes of a word, most significant first. */
  function WordBytes(v: nat, w: nat): (b: seq<byte>)
    ensures |b| == w
  {
    if w == 0 then [] else [v / Pow256(w - 1) % 256] + WordBytes(v, w - 1)
  }

  lemma WordBytesNext(v: nat, w: nat)
    ensures WordBytes(v, w + 1) == [v / Pow256(w) % 256] + WordBytes(v, w)
  {
  }

  function GetBE(b: seq<byte>): nat {
    if b == [] then 0 else b[0] * Pow256(|b| - 1) + GetBE(b[1..])
  }

  /** The bytes hold the word modulo 256 to their number. */
  lemma {:induction false} WordBytesHold(v: nat, w: nat)
    ensures GetBE(WordBytes(v, w)) == v % Pow256(w)
  {
    if w > 0 {
      var b := WordBytes(v, w);
      assert b[1..] == WordBytes(v, w - 1);
      WordBytesHold(v, w - 1);
      SplitMod(v, Pow256(w - 1));
    }
  }

  lemma SplitMod(v: nat, p: nat)
    requires p > 0
    ensures v / p % 256 * p + v % p == v % (256 * p)
  {
    var q, r := v / p, v % p;
    var d, e := q / 256, q % 256;
    assert v == q * p + r && q == d * 256 + e;
    assert q * p == d * (256 * p) + e * p by {
      assert (d * 256 + e) * p == d * 256 * p + e * p;
    }
    MulMono(e, 255, p);
    DivModIs(v, 256 * p, d, e * p + r);
  }

  function TopOf(ss: seq<Span>): nat {
    if ss == [] then 0
    else
      var top := TopOf(ss[..|ss| - 1]);
      var sp := ss[|ss| - 1];
      if sp.IsWord() then Max(top, sp.val) else top
  }

  method TopVal(ss: seq<Span>) returns (top: nat)
    ensures top == TopOf(ss)
  {
    top := 0;
    for i := 0 to |ss|
      invariant top == TopOf(ss[..i])
    {
      assert ss[..i + 1][..i] == ss[..i];
      if ss[i].IsWord() {
        top := Max(top, ss[i].val);
      }
    }
    assert ss[..|ss|] == ss;
  }

  /** The bytes a word of the stream takes; an SPI word takes one. */
  method WordWidth(spi: bool, ss: seq<Span>) returns (w: nat)
    ensures w == Width(spi, TopOf(ss))
  {
    if spi {
      return 1;
    }
    var top := TopVal(ss);
    if top > 0xffff {
      return 3;
    } else if top > 0xff {
      return 2;
    }
    return 1;
  }

  function Width(spi: bool, top: nat): nat {
    if spi || top <= 0xff then 1 else if top <= 0xffff then 2 else 3
  }

  lemma {:induction false} TopBounds(ss: seq<Span>, i: nat)
    requires i < |ss| && ss[i].IsWord()
    ensures ss[i].val <= TopOf(ss)
  {
    if i < |ss| - 1 {
      TopBounds(ss[..|ss| - 1], i);
    }
  }

  lemma {:induction false} TopIsReached(ss: seq<Span>) returns (i: nat)
    requires TopOf(ss) > 0
    ensures i < |ss| && ss[i].IsWord() && ss[i].val == TopOf(ss)
  {
    var n := |ss| - 1;
    if ss[n].IsWord() && ss[n].val == TopOf(ss) {
      i := n;
    } else {
      i := TopIsReached(ss[..n]);
    }
  }

  /** No width under the one chosen holds every word of the stream. */
  lemma WidthIsLeast(spi: bool, ss: seq<Span>, w: nat)
    requires w < Width(spi, TopOf(ss)) && TopOf(ss) > 0
    ensures exists i :: 0 <= i < |ss| && ss[i].IsWord() && GetBE(WordBytes(ss[i].val, w)) != ss[i].val
  {
    var i := TopIsReached(ss);
    WordBytesHold(ss[i].val, w);
    assert Pow256(0) == 1 && Pow256(1) == 0x100 && Pow256(2) == 0x1_0000;
    assert ss[i].val % Pow256(w) < Pow256(w);
  }

  /** The bytes of a word give it back exactly when it has at most 24 bits (8 on SPI). */
  lemma WidthLosesNothing(spi: bool, ss: seq<Span>, i: nat)
    requires i < |ss| && ss[i].IsWord()
    ensures var b := WordBytes(ss[i].val, Width(spi, TopOf(ss)));
            GetBE(b) == ss[i].val <==> ss[i].val < if spi then 0x100 else 0x100_0000
  {
    var v, w := ss[i].val, Width(spi, TopOf(ss));
    TopBounds(ss, i);
    WordBytesHold(v, w);
    assert Pow256(1) == 0x100 && Pow256(2) == 0x1_0000 && Pow256(3) == 256 * Pow256(2);
    if v < Pow256(w) {
      DivModIs(v, Pow256(w), 0, v);
    } else {
      assert v % Pow256(w) < Pow256(w);
    }
  }

  // ---------------------------------------------------------------- the packets of a stream, by their extent

  /** The bytes of the words among spans, in order. */
  function Sent(ss: seq<Span>, env: Env): seq<byte> {
    if ss == [] then []
    else
      var sp := ss[|ss| - 1];
      Sent(ss[..|ss| - 1], env) + if env.Carries(sp) then WordBytes(sp.val, env.width) else []
  }

  /** A mark for each byte sent: its word was a faulty one. */
  function Marks(ss: seq<Span>, env: Env): seq<bool> {
    if ss == [] then []
    else
      var sp := ss[|ss| - 1];
      Marks(ss[..|ss| - 1], env) + if env.Carries(sp) then seq(env.width, _ => !sp.kind.Data?) else []
  }

  /** How far the words among the spans s up to k reach, the first being one. */
  function Reach(ss: seq<Span>, s: nat, k: nat, env: Env): int
    requires s < k <= |ss|
    decreases k
  {
    if k == s + 1 then ss[s].Last()
    else
      var r := Reach(ss, s, k - 1, env);
      if env.Carries(ss[k - 1]) then Max(r, ss[k - 1].Last()) else r
  }

  function Origin(ss: seq<Span>, s: nat, k: nat, env: Env): int
    requires s < k <= |ss|
    decreases k
  {
    if k == s + 1 then ss[s].First()
    else
      var r := Origin(ss, s, k - 1, env);
      if env.Carries(ss[k - 1]) then Min(r, ss[k - 1].First()) else r
  }

  /** Span k ends a packet begun at s: an incomplete frame, a break, or a word after too long an idle. */
  predicate Ends(ss: seq<Span>, s: nat, k: nat, env: Env)
    requires s < k < |ss|
  {
    ss[k].kind.Gap? || env.IsBreak(ss[k]) || (ss[k].IsWord() && env.Over(ss[k].i0 - Reach(ss, s, k, env)))
  }

  datatype Prev = Nothing | Word | Break | Cut

  /** What came before span k, of what the grouping looks at. */
  function Before(ss: seq<Span>, k: nat, env: Env): Prev
    requires k <= |ss|
  {
    if k == 0 then Nothing
    else if ss[k - 1].kind.Gap? then Cut
    else if env.IsBreak(ss[k - 1]) then Break
    else if ss[k - 1].IsWord() then Word
    else Before(ss, k - 1, env)
  }

  /** Where the latest of them ended. */
  function EndBefore(ss: seq<Span>, k: nat): int
    requires k <= |ss|
  {
    if k == 0 then 0
    else
      var e := EndBefore(ss, k - 1);
      if ss[k - 1].kind.Other? then e else Max(e, ss[k - 1].i1)
  }

  /** A packet's start is not cut: something ended before it, or the line idled long enough. */
  predicate StartSeen(ss: seq<Span>, s: nat, env: Env)
    requires s < |ss|
  {
    match Before(ss, s, env)
    case Nothing => ss[s].i0 as real >= env.idle
    case Cut => env.Over(ss[s].i0 - EndBefore(ss, s))
    case _ => true
  }

  /** A packet's end is not cut. */
  predicate EndSeen(ss: seq<Span>, s: nat, e: nat, env: Env)
    requires s < e <= |ss|
  {
    var reach := Reach(ss, s, e, env);
    if e == |ss| then (env.n - 1 - reach) as real >= env.idle
    else ss[e].kind.Gap? ==> env.Over(ss[e].i0 - reach)
  }

  /** The spans s up to e make one packet: nothing between ends it, and what follows does. */
  datatype Part = Part(s: nat, e: nat) {
    predicate Within(ss: seq<Span>, env: Env) {
      && s < e <= |ss| && env.Carries(ss[s])
      && (forall k :: s < k < e ==> !Ends(ss, s, k, env))
      && (e < |ss| ==> Ends(ss, s, e, env))
    }

    /** The packet holds what the part's words say, but for its bounds and its completeness. */
    predicate Fills(ss: seq<Span>, p: Packet, env: Env) {
      && s < e <= |ss| && !p.hasAddr && !p.read && p.err == []
      && p.bytes == Sent(ss[s..e], env) && p.byteErr == Marks(ss[s..e], env)
    }

    predicate Is(ss: seq<Span>, p: Packet, env: Env) {
      && Fills(ss, p, env)
      && p.i0 == Clamp(Origin(ss, s, e, env), 0, env.n - 1) && p.i1 == Clamp(Reach(ss, s, e, env), 0, env.n - 1)
      && p.complete == (StartSeen(ss, s, env) && EndSeen(ss, s, e, env))
    }
  }

  /** Parts in order, each whole, that take in the words of the first m spans. */
  ghost predicate Covers(parts: seq<Part>, ss: seq<Span>, m: nat, env: Env)
    requires m <= |ss|
  {
    && (forall p :: 0 <= p < |parts| ==> parts[p].Within(ss, env))
    && (forall p, q :: 0 <= p < q < |parts| ==> parts[p].e <= parts[q].s)
    && (forall k :: 0 <= k < m && env.Carries(ss[k]) ==> exists p :: 0 <= p < |parts| && parts[p].s <= k < parts[p].e)
  }

  // ---------------------------------------------------------------- one more span

  lemma {:induction false} ReachAhead(ss: seq<Span>, sp: Span, s: nat, k: nat, env: Env)
    requires s < k <= |ss|
    ensures Reach(ss + [sp], s, k, env) == Reach(ss, s, k, env) && Origin(ss + [sp], s, k, env) == Origin(ss, s, k, env)
  {
    if k > s + 1 {
      ReachAhead(ss, sp, s, k - 1, env);
    }
  }

  lemma {:induction false} BeforeAhead(ss: seq<Span>, sp: Span, k: nat, env: Env)
    requires k <= |ss|
    ensures Before(ss + [sp], k, env) == Before(ss, k, env) && EndBefore(ss + [sp], k) == EndBefore(ss, k)
  {
    if k > 0 {
      BeforeAhead(ss, sp, k - 1, env);
    }
  }

  /** A part that ended stays what it is. */
  lemma EndedStays(part: Part, ss: seq<Span>, sp: Span, p: Packet, env: Env)
    requires part.Within(ss, env) && part.e < |ss| && part.Is(ss, p, env)
    ensures part.Within(ss + [sp], env) && part.Is(ss + [sp], p, env)
  {
    hide Origin, Env.Carries, Sent, Marks;
    var tt := ss + [sp];
    forall k | part.s < k <= part.e ensures Ends(tt, part.s, k, env) == Ends(ss, part.s, k, env) {
      ReachAhead(ss, sp, part.s, k, env);
    }
    ReachAhead(ss, sp, part.s, part.e, env);
    BeforeAhead(ss, sp, part.s, env);
    assert tt[part.s..part.e] == ss[part.s..part.e];
  }

  /** The open part, with a span more that does not end it. */
  lemma OpenGrows(part: Part, ss: seq<Span>, sp: Span, env: Env)
    requires part.Within(ss, env) && part.e == |ss| && !Ends(ss + [sp], part.s, |ss|, env)
    ensures Part(part.s, |ss| + 1).Within(ss + [sp], env)
  {
    hide Reach, Env.Carries;
    var tt := ss + [sp];
    forall k | part.s < k < part.e ensures Ends(tt, part.s, k, env) == Ends(ss, part.s, k, env) {
      ReachAhead(ss, sp, part.s, k, env);
    }
  }

  // ---------------------------------------------------------------- the packets so far

  function Closed(p: Packet, n: int, complete: bool): Packet {
    p.(i0 := Clamp(p.i0, 0, n - 1), i1 := Clamp(p.i1, 0, n - 1), complete := complete)
  }

  function Widened(p: Packet, sp: Span): Packet {
    p.(i0 := Min(p.i0, sp.First()), i1 := Max(p.i1, sp.Last()))
  }

  function Worded(p: Packet, sp: Span, w: nat): Packet {
    var q := Widened(p, sp);
    q.(bytes := p.bytes + WordBytes(sp.val, w), byteErr := p.byteErr + seq(w, _ => !sp.kind.Data?))
  }

  function Opened(i0: int): Packet {
    Packet(i0, i0, [], [], false, false, 0, false, [])
  }

  /** The packets of parts that ended before the last span; the words before it are all in them. */
  ghost predicate Settled(parts: seq<Part>, ss: seq<Span>, out: seq<Packet>, env: Env)
    requires ss != []
  {
    && Covers(parts, ss, |ss| - 1, env) && |out| == |parts|
    && forall p :: 0 <= p < |parts| ==> parts[p].e < |ss| && parts[p].Is(ss, out[p], env)
  }

  /** The packet of a part that goes on. */
  ghost predicate Going(part: Part, ss: seq<Span>, p: Packet, start: bool, env: Env) {
    && part.Within(ss, env) && part.e == |ss| && part.Fills(ss, p, env)
    && p.i0 == Origin(ss, part.s, part.e, env) && p.i1 == Reach(ss, part.s, part.e, env)
    && start == StartSeen(ss, part.s, env)
  }

  ghost predicate Holding(parts: seq<Part>, ss: seq<Span>, out: seq<Packet>, cur: bool, start: bool, env: Env) {
    && Covers(parts, ss, |ss|, env) && |out| == |parts|
    && (forall p :: 0 <= p < |parts| && !(cur && p == |parts| - 1) ==> parts[p].e < |ss| && parts[p].Is(ss, out[p], env))
    && (cur ==> parts != [] && Going(parts[|parts| - 1], ss, out[|parts| - 1], start, env))
  }

  lemma ClosedSettles(parts: seq<Part>, ss: seq<Span>, sp: Span, out: seq<Packet>, start: bool, env: Env)
    requires Holding(parts, ss, out, false, start, env)
    ensures Settled(parts, ss + [sp], out, env)
  {
    hide Part.Within, Part.Is, Env.Carries;
    forall p | 0 <= p < |parts| ensures parts[p].Within(ss + [sp], env) && parts[p].Is(ss + [sp], out[p], env) {
      EndedStays(parts[p], ss, sp, out[p], env);
    }
  }

  /** The next span ends the open packet. */
  lemma EndSettles(parts: seq<Part>, ss: seq<Span>, sp: Span, out: seq<Packet>, start: bool, env: Env)
    requires Holding(parts, ss, out, true, start, env) && Ends(ss + [sp], parts[|parts| - 1].s, |ss|, env)
    ensures var n := |parts| - 1;
            Settled(parts, ss + [sp],
                    out[n := Closed(out[n], env.n, start && EndSeen(ss + [sp], parts[n].s, |ss|, env))], env)
  {
    hide Part.Is, Part.Within, Env.Carries;
    var n := |parts| - 1;
    var p := Closed(out[n], env.n, start && EndSeen(ss + [sp], parts[n].s, |ss|, env));
    forall q | 0 <= q < n ensures parts[q].Within(ss + [sp], env) && parts[q].Is(ss + [sp], out[q], env) {
      EndedStays(parts[q], ss, sp, out[q], env);
    }
    OpenCloses(parts[n], ss, sp, out[n], start, env);
  }

  lemma OpenCloses(part: Part, ss: seq<Span>, sp: Span, p: Packet, start: bool, env: Env)
    requires Going(part, ss, p, start, env) && Ends(ss + [sp], part.s, |ss|, env)
    ensures part.Within(ss + [sp], env)
    ensures part.Is(ss + [sp], Closed(p, env.n, start && EndSeen(ss + [sp], part.s, |ss|, env)), env)
  {
    hide Origin, Reach, Env.Carries, Sent, Marks, Before, EndBefore, EndSeen;
    var tt := ss + [sp];
    forall k | part.s < k <= part.e ensures k < part.e ==> Ends(tt, part.s, k, env) == Ends(ss, part.s, k, env) {
      ReachAhead(ss, sp, part.s, k, env);
    }
    ReachAhead(ss, sp, part.s, part.e, env);
    BeforeAhead(ss, sp, part.s, env);
    assert tt[part.s..part.e] == ss[part.s..part.e];
  }

  /** A span that is no packet's word leaves no packet open. */
  lemma SettledHolds(parts: seq<Part>, ss: seq<Span>, out: seq<Packet>, start: bool, env: Env)
    requires ss != [] && Settled(parts, ss, out, env) && !env.Carries(ss[|ss| - 1])
    ensures Holding(parts, ss, out, false, start, env)
  {
    hide Part.Is, Part.Within, Env.Carries;
  }

  /** A word opens a packet. */
  lemma WordOpens(parts: seq<Part>, ss: seq<Span>, out: seq<Packet>, env: Env)
    requires ss != [] && Settled(parts, ss, out, env) && env.Carries(ss[|ss| - 1])
    ensures var k := |ss| - 1;
            Holding(parts + [Part(k, k + 1)], ss, out + [Worded(Opened(ss[k].i0), ss[k], env.width)], true,
                    StartSeen(ss, k, env), env)
  {
    hide Part.Is, Part.Within, Env.Carries, Going, Worded, StartSeen;
    var k := |ss| - 1;
    var part, p := Part(k, k + 1), Worded(Opened(ss[k].i0), ss[k], env.width);
    WordGoes(ss, k, env);
    var all := parts + [part];
    forall q | 0 <= q < |ss| && env.Carries(ss[q]) ensures exists p :: 0 <= p < |all| && all[p].s <= q < all[p].e {
      if q == k {
        assert all[|parts|].s <= q < all[|parts|].e;
      } else {
        var p :| 0 <= p < |parts| && parts[p].s <= q < parts[p].e;
        assert all[p].s <= q < all[p].e;
      }
    }
  }

  lemma WordGoes(ss: seq<Span>, k: nat, env: Env)
    requires k + 1 == |ss| && env.Carries(ss[k])
    ensures Going(Part(k, k + 1), ss, Worded(Opened(ss[k].i0), ss[k], env.width), StartSeen(ss, k, env), env)
    ensures Part(k, k + 1).Within(ss, env)
  {
    hide StartSeen, Env.Carries;
    assert ss[k..k + 1] == [ss[k]] && [ss[k]][..0] == [];
    assert Sent([], env) == [] && Marks([], env) == [];
    assert Sent([ss[k]], env) == [] + WordBytes(ss[k].val, env.width);
    assert Marks([ss[k]], env) == [] + seq(env.width, _ => !ss[k].kind.Data?);
  }

  function Taken(p: Packet, sp: Span, env: Env): Packet {
    if env.Carries(sp) then Worded(p, sp, env.width) else p
  }

  /** A span that does not end the open packet goes into it, or by it. */
  lemma OpenTakes(parts: seq<Part>, ss: seq<Span>, sp: Span, out: seq<Packet>, start: bool, env: Env)
    requires Holding(parts, ss, out, true, start, env) && !Ends(ss + [sp], parts[|parts| - 1].s, |ss|, env)
    ensures var n := |parts| - 1;
            Holding(parts[n := Part(parts[n].s, |ss| + 1)], ss + [sp], out[n := Taken(out[n], sp, env)], true, start, env)
  {
    hide Part.Is, Part.Within, Env.Carries, Going, Taken;
    var n, tt := |parts| - 1, ss + [sp];
    var part := Part(parts[n].s, |tt|);
    var all := parts[n := part];
    forall q | 0 <= q < n ensures parts[q].Within(tt, env) && parts[q].Is(tt, out[q], env) {
      EndedStays(parts[q], ss, sp, out[q], env);
    }
    GoingOn(parts[n], ss, sp, out[n], start, env);
    forall q | 0 <= q < |tt| && env.Carries(tt[q]) ensures exists p :: 0 <= p < |all| && all[p].s <= q < all[p].e {
      if q == |ss| {
        assert all[n].s <= q < all[n].e;
      } else {
        var p :| 0 <= p < |parts| && parts[p].s <= q < parts[p].e;
        assert all[p].s <= q < all[p].e;
      }
    }
  }

  lemma GoingOn(part: Part, ss: seq<Span>, sp: Span, p: Packet, start: bool, env: Env)
    requires Going(part, ss, p, start, env) && !Ends(ss + [sp], part.s, |ss|, env)
    ensures Going(Part(part.s, |ss| + 1), ss + [sp], Taken(p, sp, env), start, env)
    ensures part.s < |ss| && Part(part.s, |ss| + 1).Within(ss + [sp], env)
  {
    hide Env.Carries, Before, EndBefore, Ends, Sent, Marks;
    OpenGrows(part, ss, sp, env);
    ReachAhead(ss, sp, part.s, |ss|, env);
    BeforeAhead(ss, sp, part.s, env);
    FillsOn(part, ss, sp, p, env);
  }

  lemma FillsOn(part: Part, ss: seq<Span>, sp: Span, p: Packet, env: Env)
    requires part.e == |ss| && part.Fills(ss, p, env)
    ensures Part(part.s, |ss| + 1).Fills(ss + [sp], Taken(p, sp, env), env)
  {
    hide Env.Carries;
    var tt := ss + [sp];
    assert tt[part.s..|ss| + 1] == ss[part.s..|ss|] + [sp];
    assert (ss[part.s..|ss|] + [sp])[..|ss| - part.s] == ss[part.s..|ss|];
  }

  // ---------------------------------------------------------------- the grouping

  function Widths(ss: seq<Span>): seq<real> {
    if ss == [] then []
    else
      var sp := ss[|ss| - 1];
      Widths(ss[..|ss| - 1]) + if sp.IsWord() then [Abs(sp.i1 - sp.i0) as real] else []
  }

  /** Idle for 1.5 byte times: the median word and a bit, taken as a ninth of it when unknown. */
  function IdleTime(med: real, bit: real): real {
    var b := if bit == 0.0 then med / 9.0 else bit;
    var idle := 1.5 * (med + b);
    if idle > 1.0 then idle else 1.0
  }

  class Grouper {
    const n: int
    const bit: real
    const width: nat
    var out: seq<Packet>
    var cur: bool  // the last packet of out is open
    var start: bool

    constructor (n: int, bit: real, width: nat)
      ensures this.n == n && this.bit == bit && this.width == width && out == [] && !cur
    {
      this.n, this.bit, this.width := n, bit, width;
      out, cur, start := [], false, false;
    }

    method Open(i0: int, startOK: bool)
      modifies this
      ensures out == old(out) + [Opened(i0)] && cur && start == startOK
    {
      out := out + [Packet(i0, i0, [], [], false, false, 0, false, [])];
      cur, start := true, startOK;
    }

    method Close(endOK: bool)
      requires cur ==> out != []
      modifies this
      ensures !cur && start == old(start)
      ensures out == if !old(cur) then old(out)
                     else old(out)[|old(out)| - 1 := Closed(old(out)[|old(out)| - 1], n, start && endOK)]
    {
      if !cur {
        return;
      }
      var p := out[|out| - 1];
      out := out[|out| - 1 := p.(i0 := Clamp(p.i0, 0, n - 1), i1 := Clamp(p.i1, 0, n - 1), complete := start && endOK)];
      cur := false;
    }

    method Word(sp: Span)
      requires cur && out != []
      modifies this
      ensures cur && start == old(start) && out == old(out)[|old(out)| - 1 := Worded(old(out)[|old(out)| - 1], sp, width)]
    {
      hide WordBytes, Pow256, Span.First, Span.Last, Min, Max;
      var last := |out| - 1;
      var p := out[last];
      out := out[last := p.(i0 := Min(p.i0, sp.First()), i1 := Max(p.i1, sp.Last()))];
      var k := width;
      while k > 0
        invariant 0 <= k <= width && |out| == last + 1 && cur && start == old(start)
        invariant out == old(out)[last := out[last]]
        invariant out[last] == Widened(p, sp).(bytes := out[last].bytes, byteErr := out[last].byteErr)
        invariant out[last].bytes + WordBytes(sp.val, k) == p.bytes + WordBytes(sp.val, width)
        invariant out[last].byteErr == p.byteErr + seq(width - k, _ => !sp.kind.Data?)
      {
        k := k - 1;
        var q := out[last];
        var b := sp.val / Pow256(k) % 256;
        WordBytesNext(sp.val, k);
        assert q.bytes + WordBytes(sp.val, k + 1) == q.bytes + [b] + WordBytes(sp.val, k);
        out := out[last := q.(bytes := q.bytes + [b], byteErr := q.byteErr + [!sp.kind.Data?])];
      }
      assert out[last].bytes + [] == out[last].bytes;
    }

    /** The widths of the words, their median found by selection. */
    method Median(spans: seq<Span>) returns (med: real, any: bool)
      ensures any <==> Widths(spans) != []
      ensures any ==> med >= 0.0 && QuickSelect.Ranks(Widths(spans), |Widths(spans)| / 2, med)
    {
      var ws := [];
      med := 0.0;
      for i := 0 to |spans|
        invariant ws == Widths(spans[..i]) && forall k :: 0 <= k < |ws| ==> ws[k] >= 0.0
      {
        assert spans[..i + 1][..i] == spans[..i];
        if spans[i].IsWord() {
          ws := ws + [Abs(spans[i].i1 - spans[i].i0) as real];
        }
      }
      assert spans[..|spans|] == spans;
      any := ws != [];
      if any {
        var a := new real[|ws|](k requires 0 <= k < |ws| => ws[k]);
        assert a[..] == ws;
        med := QuickSelect.Select(a, |ws| / 2);
        assert med in multiset(ws);
      }
    }

    /** Closes the open packet, if there is one: the next span, sp, ends it. */
    method Shut(endOK: bool, ghost sp: Span, ghost ss: seq<Span>, ghost parts: seq<Part>, ghost env: Env)
      requires env.n == n && Holding(parts, ss, out, cur, start, env)
      requires cur ==> parts != [] && parts[|parts| - 1].s < |ss| && Ends(ss + [sp], parts[|parts| - 1].s, |ss|, env)
                       && endOK == EndSeen(ss + [sp], parts[|parts| - 1].s, |ss|, env)
      modifies this
      ensures !cur && Settled(parts, ss + [sp], out, env)
    {
      hide Ends, EndSeen, Going, Covers, Part.Is;
      if cur {
        EndSettles(parts, ss, sp, out, start, env);
      } else {
        ClosedSettles(parts, ss, sp, out, start, env);
      }
      Close(endOK);
    }

    /** Opens a packet with its first word, the last of ss. */
    method Begin(sp: Span, startOK: bool, ghost ss: seq<Span>, ghost parts: seq<Part>, ghost env: Env)
      requires env.n == n && env.width == width && ss != [] && sp == ss[|ss| - 1] && env.Carries(sp)
      requires !cur && Settled(parts, ss, out, env) && startOK == StartSeen(ss, |ss| - 1, env)
      modifies this
      ensures Holding(parts + [Part(|ss| - 1, |ss|)], ss, out, cur, start, env)
    {
      hide Holding, Settled, StartSeen;
      WordOpens(parts, ss, out, env);
      ghost var was := out;
      Open(sp.i0, startOK);
      Word(sp);
      assert out == was + [Worded(Opened(sp.i0), sp, width)];
    }

    /** Takes the next span. */
    method Take(uart: bool, idle: real, sp: Span, prev: Prev, prevEnd: int, ghost ss: seq<Span>, ghost parts: seq<Part>)
      returns (prev': Prev, prevEnd': int, ghost parts': seq<Part>)
      requires Holding(parts, ss, out, cur, start, Env(uart, idle, n, width))
      requires prev == Before(ss, |ss|, Env(uart, idle, n, width)) && prevEnd == EndBefore(ss, |ss|)
      modifies this
      ensures Holding(parts', ss + [sp], out, cur, start, Env(uart, idle, n, width))
      ensures prev' == Before(ss + [sp], |ss| + 1, Env(uart, idle, n, width))
      ensures prevEnd' == EndBefore(ss + [sp], |ss| + 1)
    {
      hide Holding, Settled, Going, Covers, Part.Is, Reach;
      ghost var env := Env(uart, idle, n, width);
      BeforeAhead(ss, sp, |ss|, env);
      OpenReach(parts, ss, sp, out, cur, start, env);
      prev', prevEnd', parts' := prev, prevEnd, parts;
      if sp.kind.Gap? {
        Shut(cur && (sp.i0 - out[|out| - 1].i1) as real > idle, sp, ss, parts, env);
        SettledHolds(parts, ss + [sp], out, start, env);
        prev', prevEnd' := Cut, Max(prevEnd, sp.i1);
      } else if uart && sp.kind.FrameError? && sp.val == 0 {
        Shut(true, sp, ss, parts, env);
        SettledHolds(parts, ss + [sp], out, start, env);
        prev', prevEnd' := Break, Max(prevEnd, sp.i1);
      } else if sp.IsWord() {
        if !cur || (sp.i0 - out[|out| - 1].i1) as real > idle {
          Shut(true, sp, ss, parts, env);
          var startOK :=
            match prev
            case Nothing => sp.i0 as real >= idle
            case Cut => (sp.i0 - prevEnd) as real > idle
            case _ => true;
          parts' := parts + [Part(|ss|, |ss| + 1)];
          Begin(sp, startOK, ss + [sp], parts, env);
        } else {
          OpenTakes(parts, ss, sp, out, start, env);
          parts' := parts[|parts| - 1 := Part(parts[|parts| - 1].s, |ss| + 1)];
          Word(sp);
        }
        prev', prevEnd' := Prev.Word, Max(prevEnd, sp.i1);
      } else if cur {
        OpenTakes(parts, ss, sp, out, start, env);
        assert out[|out| - 1 := out[|out| - 1]] == out;
        parts' := parts[|parts| - 1 := Part(parts[|parts| - 1].s, |ss| + 1)];
      } else {
        ClosedSettles(parts, ss, sp, out, start, env);
        SettledHolds(parts, ss + [sp], out, start, env);
      }
    }

    /** Groups a byte stream's words into packets. */
    method Gaps(uart: bool, spans: seq<Span>) returns (ghost med: real, ghost parts: seq<Part>)
      requires out == [] && !cur
      modifies this
      ensures var ws, env := Widths(spans), Env(uart, IdleTime(med, bit), n, width);
              if ws == [] then out == []
              else QuickSelect.Ranks(ws, |ws| / 2, med) && Made(parts, spans, out, env)
    {
      hide Holding, QuickSelect.Ranks, Before, Made;
      var m, any := Median(spans);
      med, parts := m, [];
      if !any {
        return;
      }
      var b := if bit == 0.0 then m / 9.0 else bit;
      var idle := 1.5 * (m + b);
      idle := if idle > 1.0 then idle else 1.0;
      ghost var env := Env(uart, idle, n, width);
      var prev, prevEnd := Nothing, 0;
      NoSpans(out, start, env);
      assert spans[..0] == [];
      for i := 0 to |spans|
        invariant Holding(parts, spans[..i], out, cur, start, env)
        invariant prev == Before(spans[..i], i, env) && prevEnd == EndBefore(spans[..i], i)
      {
        assert spans[..i + 1] == spans[..i] + [spans[i]];
        prev, prevEnd, parts := Take(uart, idle, spans[i], prev, prevEnd, spans[..i], parts);
      }
      assert spans[..|spans|] == spans;
      OpenReach(parts, spans, spans[0], out, cur, start, env);
      Finished(parts, spans, out, cur, start, env);
      Close(cur && (n - 1 - out[|out| - 1].i1) as real >= idle);
    }
  }

  /** The packets are those of the parts, which take in every word. */
  ghost predicate Made(parts: seq<Part>, ss: seq<Span>, out: seq<Packet>, env: Env) {
    Covers(parts, ss, |ss|, env) && |out| == |parts| && forall p :: 0 <= p < |parts| ==> parts[p].Is(ss, out[p], env)
  }

  lemma NoSpans(out: seq<Packet>, start: bool, env: Env)
    requires out == []
    ensures Holding([], [], out, false, start, env) && Before([], 0, env) == Nothing
  {
  }

  /** The record's end closes the packet still open. */
  lemma Finished(parts: seq<Part>, ss: seq<Span>, out: seq<Packet>, cur: bool, start: bool, env: Env)
    requires Holding(parts, ss, out, cur, start, env)
    ensures !cur ==> Made(parts, ss, out, env)
    ensures cur ==> out != [] && var n := |out| - 1;
                    var endOK := (env.n - 1 - out[n].i1) as real >= env.idle;
                    Made(parts, ss, out[n := Closed(out[n], env.n, start && endOK)], env)
  {
    hide Going, Part.Is, Part.Within, Env.Carries;
    if cur {
      LastIs(parts[|parts| - 1], ss, out[|out| - 1], start, env);
    }
  }

  lemma LastIs(part: Part, ss: seq<Span>, p: Packet, start: bool, env: Env)
    requires Going(part, ss, p, start, env)
    ensures part.Is(ss, Closed(p, env.n, start && (env.n - 1 - p.i1) as real >= env.idle), env)
  {
    hide Reach, Origin, Env.Carries, StartSeen;
  }

  lemma OpenReach(parts: seq<Part>, ss: seq<Span>, sp: Span, out: seq<Packet>, cur: bool, start: bool, env: Env)
    requires Holding(parts, ss, out, cur, start, env)
    ensures |out| == |parts|
    ensures cur ==> parts != [] && parts[|parts| - 1].s < |ss|
                    && out[|out| - 1].i1 == Reach(ss + [sp], parts[|parts| - 1].s, |ss|, env)
  {
    hide Covers, Part.Is, Env.Carries;
    if cur {
      ReachAhead(ss, sp, parts[|parts| - 1].s, |ss|, env);
    }
  }

  // ---------------------------------------------------------------- what a grouping says

  lemma Where(parts: seq<Part>, ss: seq<Span>, env: Env, p: nat, i: nat, k: nat)
    requires Covers(parts, ss, |ss|, env) && p < |parts| && i < |parts| && parts[p].s <= k < parts[p].e
    ensures p < i ==> k < parts[i].s
    ensures p > i ==> parts[i].e <= k
    ensures parts[i].s < parts[i].e <= |ss|
  {
    hide Env.Carries, Ends;
    assert parts[i].Within(ss, env);
  }

  lemma SameEnd(x: Part, y: Part, ss: seq<Span>, env: Env)
    requires x.Within(ss, env) && y.Within(ss, env) && x.s == y.s
    ensures x == y
  {
    hide Env.Carries, Ends;
  }

  /** Two lists of parts that take in every word are one list: where a packet ends is settled by the spans. */
  lemma {:induction false} PartsAgree(a: seq<Part>, b: seq<Part>, ss: seq<Span>, env: Env, i: nat)
    requires Covers(a, ss, |ss|, env) && Covers(b, ss, |ss|, env) && i <= |a| && i <= |b|
    ensures forall q :: 0 <= q < i ==> a[q] == b[q]
  {
    hide Part.Within, Env.Carries;
    if i > 0 {
      PartsAgree(a, b, ss, env, i - 1);
      NotBefore(a, b, ss, env, i - 1);
      NotBefore(b, a, ss, env, i - 1);
      SameEnd(a[i - 1], b[i - 1], ss, env);
    }
  }

  lemma NotBefore(a: seq<Part>, b: seq<Part>, ss: seq<Span>, env: Env, i: nat)
    requires Covers(a, ss, |ss|, env) && Covers(b, ss, |ss|, env) && i < |a| && i < |b|
    requires forall q :: 0 <= q < i ==> a[q] == b[q]
    ensures b[i].s <= a[i].s
  {
    hide Covers;
    var k := a[i].s;
    var p := PartOf(a, b, ss, env, i);
    Where(b, ss, env, p, i, k);
    if p < i {
      Where(a, ss, env, p, i, k);
    }
  }

  lemma PartOf(a: seq<Part>, b: seq<Part>, ss: seq<Span>, env: Env, i: nat) returns (p: nat)
    requires Covers(a, ss, |ss|, env) && Covers(b, ss, |ss|, env) && i < |a|
    ensures p < |b| && b[p].s <= a[i].s < b[p].e
  {
    hide Env.Carries, Ends;
    assert a[i].Within(ss, env);
    p := PartFor(b, ss, env, a[i].s);
  }

  lemma PartFor(parts: seq<Part>, ss: seq<Span>, env: Env, k: nat) returns (p: nat)
    requires Covers(parts, ss, |ss|, env) && k < |ss| && env.Carries(ss[k])
    ensures p < |parts| && parts[p].s <= k < parts[p].e
  {
    p :| 0 <= p < |parts| && parts[p].s <= k < parts[p].e;
  }

  lemma NoMore(a: seq<Part>, b: seq<Part>, ss: seq<Span>, env: Env)
    requires Covers(a, ss, |ss|, env) && Covers(b, ss, |ss|, env)
    ensures |b| <= |a|
  {
    hide Covers;
    if |a| < |b| {
      var n := |a|;
      PartsAgree(a, b, ss, env, n);
      var p := PartOf(b, a, ss, env, n);
      Where(b, ss, env, p, n, b[n].s);
    }
  }

  lemma PartsAreOne(a: seq<Part>, b: seq<Part>, ss: seq<Span>, env: Env)
    requires Covers(a, ss, |ss|, env) && Covers(b, ss, |ss|, env)
    ensures a == b
  {
    hide Covers;
    NoMore(a, b, ss, env);
    NoMore(b, a, ss, env);
    PartsAgree(a, b, ss, env, |a|);
  }

  function AllBytes(out: seq<Packet>): seq<byte> {
    if out == [] then [] else AllBytes(out[..|out| - 1]) + out[|out| - 1].bytes
  }

  function AllMarks(out: seq<Packet>): seq<bool> {
    if out == [] then [] else AllMarks(out[..|out| - 1]) + out[|out| - 1].byteErr
  }

  lemma {:induction false} SentAppends(ss: seq<Span>, tt: seq<Span>, env: Env)
    ensures Sent(ss + tt, env) == Sent(ss, env) + Sent(tt, env) && Marks(ss + tt, env) == Marks(ss, env) + Marks(tt, env)
  {
    hide Env.Carries;
    if tt == [] {
      assert ss + tt == ss;
    } else {
      assert (ss + tt)[..|ss + tt| - 1] == ss + tt[..|tt| - 1];
      SentAppends(ss, tt[..|tt| - 1], env);
    }
  }

  lemma {:induction false} NothingSent(ss: seq<Span>, env: Env)
    requires forall k :: 0 <= k < |ss| ==> !env.Carries(ss[k])
    ensures Sent(ss, env) == [] && Marks(ss, env) == []
  {
    if ss != [] {
      NothingSent(ss[..|ss| - 1], env);
    }
  }

  lemma PartFacts(parts: seq<Part>, ss: seq<Span>, out: seq<Packet>, env: Env, p: nat)
    requires Made(parts, ss, out, env) && p < |parts|
    ensures |out| == |parts| && parts[p].s < parts[p].e <= |ss| && parts[p].Fills(ss, out[p], env)
  {
    hide Env.Carries, Ends, StartSeen, EndSeen, Origin, Reach;
    assert parts[p].Within(ss, env) && parts[p].Is(ss, out[p], env);
  }

  lemma InOrder(parts: seq<Part>, ss: seq<Span>, env: Env, i: nat)
    requires Covers(parts, ss, |ss|, env) && i < |parts|
    ensures i > 0 ==> parts[i - 1].e <= parts[i].s
  {
    hide Part.Within, Env.Carries;
  }

  lemma PartCount(parts: seq<Part>, ss: seq<Span>, out: seq<Packet>, env: Env)
    requires Made(parts, ss, out, env)
    ensures |out| == |parts|
  {
    hide Covers;
  }

  /** The first parts' packets hold the words up to where the next could begin. */
  lemma {:induction false} PartsKeepWords(parts: seq<Part>, ss: seq<Span>, out: seq<Packet>, env: Env, i: nat, m: nat)
    requires Made(parts, ss, out, env) && i <= |parts| == |out| && m <= |ss|
    requires m == (if i < |parts| then parts[i].s else |ss|)
    ensures AllBytes(out[..i]) == Sent(ss[..m], env) && AllMarks(out[..i]) == Marks(ss[..m], env)
  {
    hide Made, Covers, Sent, Marks;
    var from := if i == 0 then 0 else parts[i - 1].e;
    Between(parts, ss, out, env, i, from, m);
    assert ss[..m] == ss[..from] + ss[from..m];
    SentAppends(ss[..from], ss[from..m], env);
    if i > 0 {
      PartFacts(parts, ss, out, env, i - 1);
      var s := parts[i - 1].s;
      PartsKeepWords(parts, ss, out, env, i - 1, s);
      assert out[..i][..i - 1] == out[..i - 1];
      assert ss[..from] == ss[..s] + ss[s..from];
      SentAppends(ss[..s], ss[s..from], env);
    } else {
      assert ss[..0] == [] && out[..0] == [];
      NothingSent([], env);
    }
  }

  /** No word lies between two parts. */
  lemma Between(parts: seq<Part>, ss: seq<Span>, out: seq<Packet>, env: Env, i: nat, from: nat, m: nat)
    requires Made(parts, ss, out, env) && i <= |parts|
    requires from == (if i == 0 then 0 else parts[i - 1].e) && m == (if i < |parts| then parts[i].s else |ss|)
    ensures from <= m <= |ss| && Sent(ss[from..m], env) == [] && Marks(ss[from..m], env) == []
  {
    hide Env.Carries, Covers, Part.Is;
    if i > 0 {
      PartFacts(parts, ss, out, env, i - 1);
    }
    if i < |parts| {
      PartFacts(parts, ss, out, env, i);
      InOrder(parts, ss, env, i);
    }
    forall k | from <= k < m && env.Carries(ss[k]) ensures false {
      var p := PartFor(parts, ss, env, k);
      if i > 0 {
        Where(parts, ss, env, p, i - 1, k);
      }
      if i < |parts| {
        Where(parts, ss, env, p, i, k);
      }
    }
    NothingSent(ss[from..m], env);
  }

  /** Each word but the breaks is in the packets once and in order, a mark to each of its bytes. */
  lemma WordsAreKept(parts: seq<Part>, ss: seq<Span>, out: seq<Packet>, env: Env)
    requires Made(parts, ss, out, env)
    ensures AllBytes(out) == Sent(ss, env) && AllMarks(out) == Marks(ss, env)
    ensures forall p :: 0 <= p < |out| ==> |out[p].bytes| == |out[p].byteErr|
  {
    hide Made, Covers;
    PartCount(parts, ss, out, env);
    PartsKeepWords(parts, ss, out, env, |parts|, |ss|);
    assert out[..|parts|] == out && ss[..|ss|] == ss;
    forall p | 0 <= p < |out| ensures |out[p].bytes| == |out[p].byteErr| {
      PartFacts(parts, ss, out, env, p);
      MarkEach(ss[parts[p].s..parts[p].e], env);
    }
  }

  lemma {:induction false} MarkEach(ss: seq<Span>, env: Env)
    ensures |Sent(ss, env)| == |Marks(ss, env)|
  {
    hide Env.Carries;
    if ss != [] {
      MarkEach(ss[..|ss| - 1], env);
    }
  }

  /** The words of w bytes each that a run of bytes makes. */
  function Unpacked(b: seq<byte>, w: nat): seq<nat>
    requires w > 0
    decreases |b|
  {
    if |b| < w then [] else Unpacked(b[..|b| - w], w) + [GetBE(b[|b| - w..])]
  }

  function Values(ss: seq<Span>, env: Env): seq<nat> {
    if ss == [] then []
    else
      var sp := ss[|ss| - 1];
      Values(ss[..|ss| - 1], env) + if env.Carries(sp) then [sp.val] else []
  }

  lemma UnpackedAppends(b: seq<byte>, c: seq<byte>)
    requires c != []
    ensures Unpacked(b + c, |c|) == Unpacked(b, |c|) + [GetBE(c)]
  {
    var s := b + c;
    assert s[..|s| - |c|] == b && s[|s| - |c|..] == c;
  }

  lemma NoneUnpacks(w: nat)
    requires w > 0
    ensures Unpacked([], w) == []
  {
  }

  lemma {:induction false} SentUnpacks(ss: seq<Span>, env: Env)
    requires env.width > 0 && forall k :: 0 <= k < |ss| && env.Carries(ss[k]) ==> ss[k].val < Pow256(env.width)
    ensures Unpacked(Sent(ss, env), env.width) == Values(ss, env)
  {
    hide Env.Carries, Unpacked, Pow256;
    if ss == [] {
      NoneUnpacks(env.width);
    } else {
      var rest, sp := ss[..|ss| - 1], ss[|ss| - 1];
      SentUnpacks(rest, env);
      if env.Carries(sp) {
        UnpackedAppends(Sent(rest, env), WordBytes(sp.val, env.width));
        WordBytesHold(sp.val, env.width);
        DivModIs(sp.val, Pow256(env.width), 0, sp.val);
      } else {
        assert Sent(ss, env) == Sent(rest, env) && Values(ss, env) == Values(rest, env);
      }
    }
  }

  /** The packets' bytes, taken one after another, give back every word of up to 24 bits (8 on SPI). */
  lemma WordsReadBack(parts: seq<Part>, ss: seq<Span>, out: seq<Packet>, env: Env, spi: bool)
    requires Made(parts, ss, out, env) && env.width == Width(spi, TopOf(ss))
    requires forall k :: 0 <= k < |ss| && ss[k].IsWord() ==> ss[k].val < if spi then 0x100 else 0x100_0000
    ensures Unpacked(AllBytes(out), env.width) == Values(ss, env)
  {
    hide Made, TopOf;
    WordsAreKept(parts, ss, out, env);
    assert Pow256(1) == 0x100 && Pow256(2) == 0x1_0000 && Pow256(3) == 256 * Pow256(2);
    forall k | 0 <= k < |ss| && env.Carries(ss[k]) ensures ss[k].val < Pow256(env.width) {
      TopBounds(ss, k);
    }
    SentUnpacks(ss, env);
  }
}
