/**
 The factory calibration blob: word 0 makes the byte sum zero, and the payload after
 it is scrambled (complemented at the triangular positions, its back half
 complemented, and reversed).
 */
module Calibration {
  import opened Basics

  const FILE: nat := 2752
  const PAYLOAD: nat := 2748
  const BACK: nat := PAYLOAD - PAYLOAD / 2
  const SLOTS: nat := 12

  /** The gain is kept as the bits of its float. */
  datatype Rec = Rec(gainDAC: int, zero: int, gain: nat) {
    predicate Fits() {
      -0x8000 <= gainDAC < 0x8000 && -0x8000 <= zero < 0x8000 && gain < TWO32
    }
  }

  type Table = seq<seq<Rec>>

  predicate IsTable(t: Table) {
    |t| == 2 && |t[0]| == SLOTS && |t[1]| == SLOTS
  }

  // ---------------------------------------------------------------- the byte sum

  function Total(b: seq<byte>): nat {
    if b == [] then 0 else Total(b[..|b| - 1]) + b[|b| - 1]
  }

  lemma {:induction false} TotalAppends(b: seq<byte>, c: seq<byte>)
    ensures Total(b + c) == Total(b) + Total(c)
  {
    if c == [] {
      assert b + c == b;
    } else {
      assert (b + c)[..|b + c| - 1] == b + c[..|c| - 1];
      TotalAppends(b, c[..|c| - 1]);
    }
  }

  lemma {:induction false} TotalUpdates(b: seq<byte>, i: nat, v: byte)
    requires i < |b|
    ensures Total(b[i := v]) == Total(b) - b[i] + v
  {
    var n := |b| - 1;
    if i == n {
      assert b[i := v][..n] == b[..n];
    } else {
      assert b[i := v][..n] == b[..n][i := v];
      TotalUpdates(b[..n], i, v);
    }
  }

  const LANE: nat := 0x1_0000

  /** Four 16-bit lanes of a 64-bit word. */
  function Lanes(a: nat, b: nat, c: nat, d: nat): nat {
    a + LANE * (b + LANE * (c + LANE * d))
  }

  /** A word under the mask 0x00ff00ff00ff00ff. */
  function LowBytes(w: nat): nat {
    Lanes(w % 256, w / 0x1_0000 % 256, w / 0x1_0000_0000 % 256, w / 0x1_0000_0000_0000 % 256)
  }

  /** The lanes' sum: each masked or shifted out of the word. */
  function Folded(w: nat): nat {
    w % LANE + w / LANE % LANE + w / 0x1_0000_0000 % LANE + w / 0x1_0000_0000_0000
  }

  lemma FoldedLanes(a: nat, b: nat, c: nat, d: nat)
    requires a < LANE && b < LANE && c < LANE && d < LANE
    ensures Folded(Lanes(a, b, c, d)) == a + b + c + d
    ensures Lanes(a, b, c, d) < TWO64
  {
    var w, x, y := Lanes(a, b, c, d), b + LANE * (c + LANE * d), c + LANE * d;
    DivModIs(w, LANE, x, a);
    DivModIs(x, LANE, y, b);
    DivModIs(w, 0x1_0000_0000, y, a + LANE * b);
    DivModIs(y, LANE, d, c);
    DivModIs(w, 0x1_0000_0000_0000, d, a + LANE * (b + LANE * c));
  }

  /** The word whose bytes are x0 to x7. */
  function WordOf(x0: nat, x1: nat, x2: nat, x3: nat, x4: nat, x5: nat, x6: nat, x7: nat): nat {
    x0 + 256 * (x1 + 256 * (x2 + 256 * (x3 + 256 * (x4 + 256 * (x5 + 256 * (x6 + 256 * x7))))))
  }

  lemma LowBytesOf(x0: byte, x1: byte, x2: byte, x3: byte, x4: byte, x5: byte, x6: byte, x7: byte)
    ensures LowBytes(WordOf(x0, x1, x2, x3, x4, x5, x6, x7)) == Lanes(x0, x2, x4, x6)
  {
    var w := WordOf(x0, x1, x2, x3, x4, x5, x6, x7);
    var w1 := WordOf(x1, x2, x3, x4, x5, x6, x7, 0);
    var w2 := WordOf(x2, x3, x4, x5, x6, x7, 0, 0);
    var w4 := WordOf(x4, x5, x6, x7, 0, 0, 0, 0);
    var w6 := WordOf(x6, x7, 0, 0, 0, 0, 0, 0);
    DivModIs(w, 256, w1, x0);
    DivModIs(w, 0x1_0000, w2, WordOf(x0, x1, 0, 0, 0, 0, 0, 0));
    DivModIs(w2, 256, WordOf(x3, x4, x5, x6, x7, 0, 0, 0), x2);
    DivModIs(w, 0x1_0000_0000, w4, WordOf(x0, x1, x2, x3, 0, 0, 0, 0));
    DivModIs(w4, 256, WordOf(x5, x6, x7, 0, 0, 0, 0, 0), x4);
    DivModIs(w, 0x1_0000_0000_0000, w6, WordOf(x0, x1, x2, x3, x4, x5, 0, 0));
    DivModIs(w6, 256, x7, x6);
  }

  function Pair(b: seq<byte>, k: nat): (r: nat)
    requires 2 * k + 1 < |b|
    ensures r <= 510
  {
    b[2 * k] as nat + b[2 * k + 1] as nat
  }

  /** A word's even bytes added to its odd ones: a pair to a lane. */
  lemma PairedBytes(b: seq<byte>)
    requires |b| == 8
    ensures LowBytes(GetLE(b)) + LowBytes(GetLE(b) / 256) == Lanes(Pair(b, 0), Pair(b, 1), Pair(b, 2), Pair(b, 3))
  {
    hide LowBytes;
    EightBytes(b);
    LowBytesOf(b[0], b[1], b[2], b[3], b[4], b[5], b[6], b[7]);
    LowBytesOf(b[1], b[2], b[3], b[4], b[5], b[6], b[7], 0);
    DivModIs(GetLE(b), 256, WordOf(b[1], b[2], b[3], b[4], b[5], b[6], b[7], 0), b[0]);
  }

  lemma EightBytes(b: seq<byte>)
    requires |b| == 8
    ensures GetLE(b) == WordOf(b[0], b[1], b[2], b[3], b[4], b[5], b[6], b[7])
  {
    hide GetLE;
    GetOne(b, 0);
    GetOne(b, 1);
    GetOne(b, 2);
    GetOne(b, 3);
    GetOne(b, 4);
    GetOne(b, 5);
    GetOne(b, 6);
    GetOne(b, 7);
    assert b[0..] == b && GetLE(b[8..]) == 0 by {
      GetNone(b[8..]);
    }
  }

  lemma GetNone(b: seq<byte>)
    requires b == []
    ensures GetLE(b) == 0
  {
  }

  lemma GetOne(b: seq<byte>, k: nat)
    requires k < |b|
    ensures GetLE(b[k..]) == b[k] + 256 * GetLE(b[k + 1..])
  {
    assert b[k..][1..] == b[k + 1..];
  }

  lemma EightTotal(b: seq<byte>)
    requires |b| == 8
    ensures Total(b) == Pair(b, 0) + Pair(b, 1) + Pair(b, 2) + Pair(b, 3)
  {
    hide Total, Pair;
    TotalTwo(b, 0);
    TotalTwo(b, 1);
    TotalTwo(b, 2);
    TotalTwo(b, 3);
    assert b[..0] == [] && b[..8] == b;
    TotalNone();
  }

  lemma TotalNone()
    ensures Total([]) == 0
  {
  }

  lemma TotalTwo(b: seq<byte>, k: nat)
    requires 2 * k + 2 <= |b|
    ensures Total(b[..2 * k + 2]) == Total(b[..2 * k]) + Pair(b, k)
  {
    assert b[..2 * k + 2][..2 * k + 1] == b[..2 * k + 1];
    assert b[..2 * k + 1][..2 * k] == b[..2 * k];
  }

  /** The four lanes, apart, of a sum of n words: none has carried into the next. */
  datatype Quad = Quad(a: nat, b: nat, c: nat, d: nat) {
    predicate Holds(lanes: nat, n: nat, sum: nat) {
      && lanes == Lanes(a, b, c, d) && a + b + c + d == sum
      && a <= 510 * n && b <= 510 * n && c <= 510 * n && d <= 510 * n
    }

    function Add(word: seq<byte>): Quad
      requires |word| == 8
    {
      Quad(a + Pair(word, 0), b + Pair(word, 1), c + Pair(word, 2), d + Pair(word, 3))
    }
  }

  lemma LanesSum(a: nat, b: nat, c: nat, d: nat, a': nat, b': nat, c': nat, d': nat)
    ensures Lanes(a, b, c, d) + Lanes(a', b', c', d') == Lanes(a + a', b + b', c + c', d + d')
  {
  }

  lemma LanesAdd(q: Quad, lanes: nat, n: nat, sum: nat, word: seq<byte>)
    requires q.Holds(lanes, n, sum) && |word| == 8 && n < 128
    ensures var next := lanes + LowBytes(GetLE(word)) + LowBytes(GetLE(word) / 256);
            next < TWO64 && q.Add(word).Holds(next, n + 1, sum + Total(word))
  {
    hide LowBytes, Lanes, Pair, Total, GetLE, Quad.Holds;
    PairedBytes(word);
    EightTotal(word);
    HoldsOneMore(q, lanes, n, sum, Pair(word, 0), Pair(word, 1), Pair(word, 2), Pair(word, 3));
  }

  /** A pair more to each lane, none of them over two bytes' worth. */
  lemma HoldsOneMore(q: Quad, lanes: nat, n: nat, sum: nat, a: nat, b: nat, c: nat, d: nat)
    requires q.Holds(lanes, n, sum) && n < 128
    requires a <= 510 && b <= 510 && c <= 510 && d <= 510
    ensures lanes + Lanes(a, b, c, d) < TWO64
    ensures Quad(q.a + a, q.b + b, q.c + c, q.d + d).Holds(lanes + Lanes(a, b, c, d), n + 1, sum + (a + b + c + d))
  {
    hide Lanes, Folded;
    LanesSum(q.a, q.b, q.c, q.d, a, b, c, d);
    FoldedLanes(q.a + a, q.b + b, q.c + c, q.d + d);
  }

  /** The sum of the bytes modulo 2^32, eight at a time: for any length no lane carries and nothing is lost. */
  method ByteSum(b: seq<byte>) returns (sum: nat)
    ensures sum == Total(b) % TWO32
  {
    hide Total, Folded, LowBytes;
    var acc, at := 0, 0;
    TotalNone();
    while |b| - at >= 8
      invariant at <= |b| && acc == Total(b[..at]) % TWO64
    {
      var n := Min((|b| - at) / 8, 128);
      var lanes := SumLanes(b[at..at + 8 * n], n);
      assert b[..at] + b[at..at + 8 * n] == b[..at + 8 * n];
      TotalAppends(b[..at], b[at..at + 8 * n]);
      at := at + 8 * n;
      acc := (acc + Folded(lanes)) % TWO64;
    }
    while at < |b|
      invariant at <= |b| && acc == Total(b[..at]) % TWO64
    {
      assert b[..at + 1] == b[..at] + [b[at]];
      TotalAppends(b[..at], [b[at]]);
      TotalOne(b[at]);
      acc := (acc + b[at]) % TWO64;
      at := at + 1;
    }
    assert b[..at] == b;
    ModMod(Total(b));
    sum := acc % TWO32;
  }

  lemma TotalOne(v: byte)
    ensures Total([v]) == v
  {
    assert [v][..0] == [];
  }

  lemma ModMod(t: nat)
    ensures t % TWO64 % TWO32 == t % TWO32
  {
    var q, r := t / TWO64, t % TWO64;
    DivModIs(t, TWO32, q * TWO32 + r / TWO32, r % TWO32);
  }

  /** The lanes of at most 128 words. */
  method SumLanes(b: seq<byte>, n: nat) returns (lanes: nat)
    requires |b| == 8 * n && n <= 128
    ensures Folded(lanes) == Total(b)
  {
    hide Total, LowBytes, Quad.Holds, Quad.Add, Folded;
    lanes := 0;
    ghost var q := NoLanes();
    assert b[..0] == [];
    for k := 0 to n
      invariant q.Holds(lanes, k, Total(b[..8 * k]))
    {
      var word := b[8 * k..8 * k + 8];
      LanesAdd(q, lanes, k, Total(b[..8 * k]), word);
      assert b[..8 * k + 8] == b[..8 * k] + word;
      TotalAppends(b[..8 * k], word);
      var w := GetLE(word);
      lanes := (lanes + LowBytes(w) + LowBytes(w / 256)) % TWO64;
      q := q.Add(word);
    }
    assert b[..8 * n] == b;
    LanesFold(q, lanes, n, Total(b));
  }

  lemma LanesFold(q: Quad, lanes: nat, n: nat, sum: nat)
    requires q.Holds(lanes, n, sum) && n <= 128
    ensures Folded(lanes) == sum
  {
    hide Lanes, Folded;
    FoldedLanes(q.a, q.b, q.c, q.d);
  }

  lemma NoLanes() returns (q: Quad)
    ensures q.Holds(0, 0, Total([]))
  {
    q := Quad(0, 0, 0, 0);
  }

  // ---------------------------------------------------------------- the scramble

  /** k(k + 1)/2 for some k of at least 1. */
  ghost predicate Triangular(p: nat) {
    exists k: nat :: k >= 1 && p == Triangle(k)
  }

  function Not(b: byte): byte {
    255 - b
  }

  ghost function Flipped(s: seq<byte>): (r: seq<byte>)
    ensures |r| == |s|
  {
    seq(|s|, i requires 0 <= i < |s| => if Triangular(i) then Not(s[i]) else s[i])
  }

  /** Just the triangular positions are complemented, each once. */
  method NotTriangular(buf: array<byte>)
    modifies buf
    ensures buf[..] == Flipped(old(buf[..]))
  {
    ghost var was := buf[..];
    var pos, step := 1, 2;
    while pos < buf.Length
      invariant step >= 2 && pos == Triangle(step - 1)
      invariant forall i :: 0 <= i < buf.Length ==> buf[i] == if i < pos && Triangular(i) then Not(was[i]) else was[i]
      decreases buf.Length - pos
    {
      buf[pos] := Not(buf[pos]);
      forall i | pos < i < pos + step ensures !Triangular(i) {
        BetweenTriangles(i, step - 1);
      }
      assert Triangular(pos);
      pos := pos + step;
      step := step + 1;
    }
  }

  lemma BetweenTriangles(i: nat, k: nat)
    requires Triangle(k) < i < Triangle(k) + k + 1
    ensures !Triangular(i)
  {
    if Triangular(i) {
      var j: nat :| j >= 1 && i == Triangle(j);
      if j < k {
        TriangleGrows(j, k);
      } else if k < j {
        TriangleGrows(k, j);
      }
    }
  }

  lemma FlippedTwice(s: seq<byte>)
    ensures Flipped(Flipped(s)) == s
  {
  }

  /** The back half complemented, once reversed. */
  function Turned(src: seq<byte>): (r: seq<byte>)
    requires |src| == PAYLOAD
    ensures |r| == PAYLOAD
  {
    seq(PAYLOAD, i requires 0 <= i < PAYLOAD => if i >= BACK then Not(src[PAYLOAD - 1 - i]) else src[PAYLOAD - 1 - i])
  }

  /** Reversed, once the back half is complemented. */
  function Unturned(s: seq<byte>): (src: seq<byte>)
    requires |s| == PAYLOAD
    ensures |src| == PAYLOAD
  {
    seq(PAYLOAD, i requires 0 <= i < PAYLOAD =>
          if PAYLOAD - 1 - i >= BACK then Not(s[PAYLOAD - 1 - i]) else s[PAYLOAD - 1 - i])
  }

  lemma TurnedBack(s: seq<byte>)
    requires |s| == PAYLOAD
    ensures Turned(Unturned(s)) == s && Unturned(Turned(s)) == s
  {
    var u, t := Unturned(s), Turned(s);
    forall i | 0 <= i < PAYLOAD ensures Turned(u)[i] == s[i] && Unturned(t)[i] == s[i] {
      var j := PAYLOAD - 1 - i;
      assert u[j] == if i >= BACK then Not(s[i]) else s[i];
      assert t[j] == if j >= BACK then Not(s[i]) else s[i];
      assert Turned(u)[i] == if i >= BACK then Not(u[j]) else u[j];
      assert Unturned(t)[i] == if j >= BACK then Not(t[j]) else t[j];
    }
  }

  /** The scramble: complement at the triangular positions, complement the back half, reverse. */
  ghost function Scrambled(payload: seq<byte>): (src: seq<byte>)
    requires |payload| == PAYLOAD
    ensures |src| == PAYLOAD
  {
    Unturned(Flipped(payload))
  }

  /** The payload behind scrambled bytes. */
  ghost function Descrambled(src: seq<byte>): (payload: seq<byte>)
    requires |src| == PAYLOAD
    ensures |payload| == PAYLOAD
    ensures Scrambled(payload) == src
  {
    FlippedTwice(Turned(src));
    TurnedBack(src);
    Flipped(Turned(src))
  }

  lemma DescrambledScrambled(payload: seq<byte>)
    requires |payload| == PAYLOAD
    ensures Descrambled(Scrambled(payload)) == payload
  {
    hide Turned, Unturned, Flipped;
    TurnedBack(Flipped(payload));
    FlippedTwice(payload);
  }

  /** i is 1 + 2 + ... + k. */
  predicate Sums(i: int, k: int) {
    k >= 1 && 2 * i == k * (k + 1)
  }

  /** Byte by byte: reversed, and complemented from the middle on and at 1, 3, 6, 10 and so on, so twice or not at all where
      both. */
  lemma DescrambledAt(src: seq<byte>, i: nat)
    requires |src| == 2748 && i < 2748
    ensures var tri := exists k :: Sums(i, k);
            Descrambled(src)[i] == if (i >= 1374) != tri then 255 - src[2747 - i] else src[2747 - i]
  {
    if Triangular(i) {
      var k: nat :| k >= 1 && i == Triangle(k);
      TriangleIs(k);
      assert Sums(i, k);
    }
    if k :| Sums(i, k) {
      TriangleIs(k);
      assert i == Triangle(k);
    }
    assert Turned(src)[i] == if i >= 1374 then Not(src[2747 - i]) else src[2747 - i];
  }

  // ---------------------------------------------------------------- the table

  function ToInt16(w: nat): int
    requires w < 0x1_0000
  {
    if w < 0x8000 then w else w - 0x1_0000
  }

  function FromInt16(v: int): nat
    requires -0x8000 <= v < 0x8000
  {
    if v < 0 then v + 0x1_0000 else v
  }

  function RecAt(payload: seq<byte>, at: nat): Rec
    requires at + 8 <= |payload|
  {
    Rec(Int16At(payload, at), Int16At(payload, at + 2), GetLE(payload[at + 4..at + 8]))
  }

  function Int16At(payload: seq<byte>, at: nat): int
    requires at + 2 <= |payload|
  {
    GetBound(payload[at..at + 2]);
    assert Pow256(2) == 0x1_0000;
    ToInt16(GetLE(payload[at..at + 2]))
  }

  function TableOf(payload: seq<byte>): (t: Table)
    requires |payload| == PAYLOAD
    ensures IsTable(t)
  {
    [seq(SLOTS, vd requires 0 <= vd < SLOTS => RecAt(payload, vd * 8)),
     seq(SLOTS, vd requires 0 <= vd < SLOTS => RecAt(payload, (SLOTS + vd) * 8))]
  }

  function RecBytes(r: Rec): (b: seq<byte>)
    requires r.Fits()
    ensures |b| == 8
  {
    PutLE(FromInt16(r.gainDAC), 2) + PutLE(FromInt16(r.zero), 2) + PutLE(r.gain, 4)
  }

  lemma Cut(a: seq<byte>, b: seq<byte>, c: seq<byte>)
    requires |a| == |b| == 2 && |c| == 4
    ensures var s := a + b + c; s[0..2] == a && s[2..4] == b && s[4..8] == c
  {
  }

  /** A payload that holds the record's bytes at a place reads back the record. */
  lemma RecReads(payload: seq<byte>, at: nat, r: Rec)
    requires r.Fits() && at + 8 <= |payload| && payload[at..at + 8] == RecBytes(r)
    ensures RecAt(payload, at) == r
  {
    hide PutLE, GetLE;
    var b := payload[at..at + 8];
    SliceOfSlice(payload, at, 8, 0, 2);
    SliceOfSlice(payload, at, 8, 2, 4);
    SliceOfSlice(payload, at, 8, 4, 8);
    Cut(PutLE(FromInt16(r.gainDAC), 2), PutLE(FromInt16(r.zero), 2), PutLE(r.gain, 4));
    Pow256Values();
    assert Pow256(2) == 0x1_0000;
    GetPutLE(FromInt16(r.gainDAC), 2);
    GetPutLE(FromInt16(r.zero), 2);
    GetPutLE(r.gain, 4);
  }

  ghost predicate Stores(payload: seq<byte>, t: Table)
    requires |payload| == PAYLOAD
  {
    && IsTable(t)
    && forall ch, vd :: 0 <= ch < 2 && 0 <= vd < SLOTS ==>
         var at := (ch * SLOTS + vd) * 8;
         t[ch][vd].Fits() && payload[at..at + 8] == RecBytes(t[ch][vd])
  }

  /** Record vd of channel ch: eight bytes, two signed numbers of 16 bits and the gain's 32, the low byte first. */
  lemma TableAt(payload: seq<byte>, ch: nat, vd: nat)
    requires |payload| == 2748 && ch < 2 && vd < 12
    ensures var at, r := (ch * 12 + vd) * 8, TableOf(payload)[ch][vd];
            && at + 8 <= 2748
            && r.gainDAC == payload[at] as int + 0x100 * payload[at + 1] as int - (if payload[at + 1] < 128 then 0 else 0x1_0000)
            && r.zero == payload[at + 2] as int + 0x100 * payload[at + 3] as int - (if payload[at + 3] < 128 then 0 else 0x1_0000)
            && r.gain == payload[at + 4] as nat + 0x100 * payload[at + 5] as nat + 0x1_0000 * payload[at + 6] as nat
                         + 0x100_0000 * payload[at + 7] as nat
  {
    hide TableOf, RecAt;
    SlotIs(payload, ch, vd);
    RecordIs(payload, (ch * 12 + vd) * 8);
  }

  lemma SlotIs(payload: seq<byte>, ch: nat, vd: nat)
    requires |payload| == PAYLOAD && ch < 2 && vd < SLOTS
    ensures TableOf(payload)[ch][vd] == RecAt(payload, (ch * SLOTS + vd) * 8)
  {
    hide RecAt;
    if ch == 1 {
      assert ch * SLOTS + vd == SLOTS + vd;
    }
  }

  lemma RecordIs(payload: seq<byte>, at: nat)
    requires at + 8 <= |payload|
    ensures var r := RecAt(payload, at);
            && r.gainDAC == payload[at] as int + 0x100 * payload[at + 1] as int - (if payload[at + 1] < 128 then 0 else 0x1_0000)
            && r.zero == payload[at + 2] as int + 0x100 * payload[at + 3] as int - (if payload[at + 3] < 128 then 0 else 0x1_0000)
            && r.gain == payload[at + 4] as nat + 0x100 * payload[at + 5] as nat + 0x1_0000 * payload[at + 6] as nat
                         + 0x100_0000 * payload[at + 7] as nat
  {
    hide GetLE, Int16At;
    Int16Is(payload, at);
    Int16Is(payload, at + 2);
    FourRead(payload[at + 4..at + 8]);
  }

  lemma Int16Is(payload: seq<byte>, at: nat)
    requires at + 2 <= |payload|
    ensures Int16At(payload, at)
            == payload[at] as int + 0x100 * payload[at + 1] as int - if payload[at + 1] < 128 then 0 else 0x1_0000
  {
    TwoRead(payload[at..at + 2]);
  }

  lemma TwoRead(b: seq<byte>)
    requires |b| == 2
    ensures GetLE(b) == b[0] as nat + 0x100 * b[1] as nat
  {
    GetOne(b, 0);
    GetOne(b, 1);
    GetNone(b[2..]);
    assert b[0..] == b;
  }

  lemma FourRead(b: seq<byte>)
    requires |b| == 4
    ensures GetLE(b) == b[0] as nat + 0x100 * b[1] as nat + 0x1_0000 * b[2] as nat + 0x100_0000 * b[3] as nat
  {
    hide GetLE;
    GetOne(b, 0);
    GetOne(b, 1);
    GetOne(b, 2);
    GetOne(b, 3);
    GetNone(b[4..]);
    assert b[0..] == b;
  }

  /** A table's records, stored slot by slot, are the table read. */
  lemma StoredTableIsRead(payload: seq<byte>, t: Table)
    requires |payload| == PAYLOAD && Stores(payload, t)
    ensures TableOf(payload) == t
  {
    hide RecAt, RecBytes;
    forall ch, vd | 0 <= ch < 2 && 0 <= vd < SLOTS ensures TableOf(payload)[ch][vd] == t[ch][vd] {
      RecReads(payload, (ch * SLOTS + vd) * 8, t[ch][vd]);
    }
    assert TableOf(payload)[0] == t[0] && TableOf(payload)[1] == t[1];
  }

  // ---------------------------------------------------------------- the blob

  ghost predicate Accepted(raw: seq<byte>) {
    |raw| == FILE && (Total(raw[4..]) % TWO32 + GetLE(raw[..4])) % TWO32 == 0
  }

  /** What is accepted: 2752 bytes, the first four a number that makes the sum of the others zero in 32 bits. */
  lemma AcceptedIs(raw: seq<byte>)
    ensures Accepted(raw)
            <==> && |raw| == 2752
                 && (Total(raw[4..]) + (raw[0] as nat + 0x100 * raw[1] as nat + 0x1_0000 * raw[2] as nat
                                        + 0x100_0000 * raw[3] as nat)) % 0x1_0000_0000 == 0
  {
    hide Total, GetLE;
    if |raw| == FILE {
      FirstFour(raw);
      SumsToZero(Total(raw[4..]), GetLE(raw[..4]),
                 raw[0] as nat + 0x100 * raw[1] as nat + 0x1_0000 * raw[2] as nat + 0x100_0000 * raw[3] as nat);
    }
  }

  lemma SumsToZero(t: nat, g: nat, word: nat)
    requires g == word
    ensures (t % TWO32 + g) % TWO32 == 0 <==> (t + word) % 0x1_0000_0000 == 0
  {
    SumMod(t, g);
  }

  lemma FirstFour(raw: seq<byte>)
    requires |raw| >= 4
    ensures GetLE(raw[..4]) == raw[0] as nat + 0x100 * raw[1] as nat + 0x1_0000 * raw[2] as nat + 0x100_0000 * raw[3] as nat
  {
    hide GetLE;
    FourRead(raw[..4]);
  }

  lemma SumMod(a: nat, b: nat)
    ensures (a % TWO32 + b) % TWO32 == (a + b) % 0x1_0000_0000
  {
    var c := a % TWO32 + b;
    DivModIs(a + b, TWO32, a / TWO32 + c / TWO32, c % TWO32);
  }

  /** The blob of a payload: word 0 is what makes the sum zero. */
  ghost function Blob(payload: seq<byte>): (raw: seq<byte>)
    requires |payload| == PAYLOAD
    ensures |raw| == FILE
  {
    var src := Scrambled(payload);
    PutLE((TWO32 - Total(src) % TWO32) % TWO32, 4) + src
  }

  /** Every payload's blob is accepted, and gives the payload back. */
  lemma BlobIsAccepted(payload: seq<byte>)
    requires |payload| == PAYLOAD
    ensures Accepted(Blob(payload)) && Descrambled(Blob(payload)[4..]) == payload
  {
    hide Scrambled, Descrambled, Total, GetLE, PutLE;
    var src := Scrambled(payload);
    var word := (TWO32 - Total(src) % TWO32) % TWO32;
    Pow256Values();
    GetPutLE(word, 4);
    assert Blob(payload)[4..] == src && Blob(payload)[..4] == PutLE(word, 4);
    DescrambledScrambled(payload);
  }

  /** Every blob accepted is the blob of the payload read from it. */
  lemma AcceptedIsBlob(raw: seq<byte>)
    requires Accepted(raw)
    ensures raw == Blob(Descrambled(raw[4..]))
  {
    hide Scrambled, Descrambled, Total, GetLE, PutLE;
    Pow256Values();
    GetBound(raw[..4]);
    PutGetLE(raw[..4]);
    assert raw == raw[..4] + raw[4..];
  }

  lemma {:induction false} PutGetLE(b: seq<byte>)
    ensures PutLE(GetLE(b), |b|) == b
  {
    if b != [] {
      PutGetLE(b[1..]);
      DivModIs(GetLE(b), 256, GetLE(b[1..]), b[0]);
    }
  }

  lemma WordsDiffer(b: seq<byte>, c: seq<byte>)
    requires |b| == |c| && GetLE(b) == GetLE(c)
    ensures b == c
  {
    hide GetLE;
    PutGetLE(b);
    PutGetLE(c);
  }

  /** A blob with one byte wrong is refused. */
  lemma OneWrongByteIsRefused(raw: seq<byte>, i: nat, v: byte)
    requires Accepted(raw) && i < FILE && raw[i] != v
    ensures !Accepted(raw[i := v])
  {
    hide Total, GetLE;
    var bad := raw[i := v];
    Pow256Values();
    GetBound(raw[..4]);
    GetBound(bad[..4]);
    if i < 4 {
      assert bad[4..] == raw[4..];
      assert bad[..4][i] != raw[..4][i];
      if GetLE(bad[..4]) == GetLE(raw[..4]) {
        WordsDiffer(bad[..4], raw[..4]);
      }
    } else {
      assert bad[..4] == raw[..4] && bad[4..] == raw[4..][i - 4 := v];
      TotalUpdates(raw[4..], i - 4, v);
    }
  }

  /** None is refusal. */
  method Parse(raw: seq<byte>) returns (t: Option<Table>)
    ensures t.Some? <==> Accepted(raw)
    ensures t.Some? ==> t.value == TableOf(Descrambled(raw[4..]))
  {
    if |raw| != FILE {
      return None;
    }
    var sum := ByteSum(raw[4..]);
    if (sum + GetLE(raw[..4])) % TWO32 != 0 {
      return None;
    }
    var src := raw[4..];
    var payload := new byte[PAYLOAD];
    for i := 0 to PAYLOAD
      invariant forall k :: 0 <= k < i ==> payload[k] == Turned(src)[k]
    {
      var b := src[PAYLOAD - 1 - i];
      payload[i] := if i >= BACK then Not(b) else b;
    }
    assert payload[..] == Turned(src);
    NotTriangular(payload);
    var table := ReadTable(payload[..]);
    t := Some(table);
  }

  method ReadTable(payload: seq<byte>) returns (t: Table)
    requires |payload| == PAYLOAD
    ensures t == TableOf(payload)
  {
    hide RecAt;
    t := [];
    for ch := 0 to 2
      invariant |t| == ch && t == TableOf(payload)[..ch]
    {
      var recs := [];
      for vd := 0 to SLOTS
        invariant |recs| == vd && recs == TableOf(payload)[ch][..vd]
      {
        recs := recs + [RecAt(payload, (ch * SLOTS + vd) * 8)];
      }
      assert recs == TableOf(payload)[ch];
      t := t + [recs];
    }
  }
}
