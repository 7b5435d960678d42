/**
 The content key of a packet: what it says, as bytes, each field ending by itself, so
 that packets have one key exactly when they say the same.
 */
module ContentKey {
  import opened Basics
  import opened Packets

  // ---------------------------------------------------------------- variable-length integers

  function Uvarint(x: nat): (b: seq<byte>)
    ensures b != []
  {
    if x < 128 then [x] else [x % 128 + 128] + Uvarint(x / 128)
  }

  /** Signs folded into the low bit. */
  function Zigzag(v: int): nat {
    if v >= 0 then 2 * v else -2 * v - 1
  }

  method AppendUvarint(b: seq<byte>, x: nat) returns (r: seq<byte>)
    ensures r == b + Uvarint(x)
  {
    r := b;
    var v := x;
    while v >= 128
      invariant r + Uvarint(v) == b + Uvarint(x)
    {
      assert r + Uvarint(v) == r + [v % 128 + 128] + Uvarint(v / 128);
      r := r + [v % 128 + 128];
      v := v / 128;
    }
    r := r + [v];
  }

  /** Where a number ends shows in its bytes. */
  lemma {:induction false} UvarintEnds(x: nat, y: nat, s: seq<byte>, t: seq<byte>)
    requires Uvarint(x) + s == Uvarint(y) + t
    ensures x == y && s == t
  {
    var a, b := Uvarint(x), Uvarint(y);
    assert (a + s)[0] == a[0] && (b + t)[0] == b[0];
    assert (a + s)[1..] == a[1..] + s && (b + t)[1..] == b[1..] + t;
    if x < 128 {
      assert s == (a + s)[1..] && t == (b + t)[1..];
    } else {
      assert a[1..] == Uvarint(x / 128) && b[1..] == Uvarint(y / 128);
      UvarintEnds(x / 128, y / 128, s, t);
    }
  }

  // ---------------------------------------------------------------- flags, eight to a byte

  function BitsOf(fs: seq<bool>): nat {
    if fs == [] then 0 else BitsOf(fs[..|fs| - 1]) + if fs[|fs| - 1] then Pow2(|fs| - 1) else 0
  }

  lemma {:induction false} BitsBound(fs: seq<bool>)
    ensures BitsOf(fs) < Pow2(|fs|)
  {
    if fs != [] {
      BitsBound(fs[..|fs| - 1]);
    }
  }

  lemma {:induction false} BitsDiffer(fs: seq<bool>, gs: seq<bool>)
    requires |fs| == |gs| && BitsOf(fs) == BitsOf(gs)
    ensures fs == gs
  {
    if fs != [] {
      var n := |fs| - 1;
      BitsBound(fs[..n]);
      BitsBound(gs[..n]);
      BitsDiffer(fs[..n], gs[..n]);
      assert fs == fs[..n] + [fs[n]] && gs == gs[..n] + [gs[n]];
    }
  }

  lemma ByteOfBits(fs: seq<bool>)
    requires |fs| <= 8
    ensures BitsOf(fs) < 256
  {
    BitsBound(fs);
    assert Pow2(4) == 16 && Pow2(8) == 16 * Pow2(4);
    PowGrows(|fs|, 8);
  }

  lemma {:induction false} PowGrows(m: nat, n: nat)
    requires m <= n
    ensures Pow2(m) <= Pow2(n)
  {
    if m < n {
      PowGrows(m, n - 1);
    }
  }

  function Packed(fs: seq<bool>): (b: seq<byte>)
    decreases |fs|
  {
    if fs == [] then []
    else
      var n := Min(|fs|, 8);
      ByteOfBits(fs[..n]);
      [BitsOf(fs[..n])] + Packed(fs[n..])
  }

  /** As many flags fill as many bytes, and show in them. */
  lemma {:induction false} PackedEnds(fs: seq<bool>, gs: seq<bool>, s: seq<byte>, t: seq<byte>)
    requires |fs| == |gs| && Packed(fs) + s == Packed(gs) + t
    ensures fs == gs && s == t
    decreases |fs|
  {
    hide BitsOf;
    if fs == [] {
      assert s == Packed(fs) + s && t == Packed(gs) + t;
    } else {
      var n := Min(|fs|, 8);
      var a, b := Packed(fs) + s, Packed(gs) + t;
      assert a[0] == BitsOf(fs[..n]) && b[0] == BitsOf(gs[..n]);
      assert a[1..] == Packed(fs[n..]) + s && b[1..] == Packed(gs[n..]) + t;
      PackedEnds(fs[n..], gs[n..], s, t);
      BitsDiffer(fs[..n], gs[..n]);
      assert fs == fs[..n] + fs[n..] && gs == gs[..n] + gs[n..];
    }
  }

  // ---------------------------------------------------------------- the key

  /** Whether each byte is marked bad: one past the marks is not. */
  function ErrFlags(p: Packet): (fs: seq<bool>)
    ensures |fs| == |p.bytes|
  {
    seq(|p.bytes|, i requires 0 <= i < |p.bytes| => i < |p.byteErr| && p.byteErr[i])
  }

  /** What a packet says. */
  datatype Content = Content(read: bool, addr: Option<int64>, err: seq<byte>, bytes: seq<byte>, flags: seq<bool>)

  function ContentOf(p: Packet): Content {
    Content(p.read, if p.hasAddr then Some(p.addr) else None, p.err, p.bytes, ErrFlags(p))
  }

  function Flags(p: Packet): byte {
    (if p.hasAddr then 1 else 0) + (if p.read then 2 else 0)
  }

  function Counted(b: seq<byte>): seq<byte> {
    Uvarint(|b|) + b
  }

  function AddrBytes(p: Packet): seq<byte> {
    if p.hasAddr then Uvarint(Zigzag(p.addr)) else []
  }

  function Key(p: Packet): seq<byte> {
    [Flags(p)] + (AddrBytes(p) + (Counted(p.err) + (Counted(p.bytes) + Packed(ErrFlags(p)))))
  }

  lemma CountedEnds(a: seq<byte>, b: seq<byte>, s: seq<byte>, t: seq<byte>)
    requires Counted(a) + s == Counted(b) + t
    ensures a == b && s == t
  {
    hide Uvarint;
    assert Counted(a) + s == Uvarint(|a|) + (a + s);
    assert Counted(b) + t == Uvarint(|b|) + (b + t);
    UvarintEnds(|a|, |b|, a + s, b + t);
    assert a == (a + s)[..|a|] && s == (a + s)[|a|..];
    assert b == (b + t)[..|b|] && t == (b + t)[|b|..];
  }

  lemma Tail(a: seq<byte>, b: seq<byte>, s: seq<byte>)
    ensures (a + b) + s == a + (b + s)
  {
  }

  /** A key read from the front ends where its packet's does, and says what the packet says. */
  lemma KeyEnds(p: Packet, q: Packet, s: seq<byte>, t: seq<byte>)
    requires Key(p) + s == Key(q) + t
    ensures ContentOf(p) == ContentOf(q) && s == t
  {
    hide Uvarint, Counted, Packed, ErrFlags, Zigzag;
    var fp, fq := Packed(ErrFlags(p)) + s, Packed(ErrFlags(q)) + t;
    var bp, bq := Counted(p.bytes) + fp, Counted(q.bytes) + fq;
    var ep, eq := Counted(p.err) + bp, Counted(q.err) + bq;
    var ap, aq := AddrBytes(p) + ep, AddrBytes(q) + eq;
    KeySplits(p, s);
    KeySplits(q, t);
    assert ([Flags(p)] + ap)[0] == Flags(p) && ([Flags(q)] + aq)[0] == Flags(q);
    assert ([Flags(p)] + ap)[1..] == ap && ([Flags(q)] + aq)[1..] == aq;
    if p.hasAddr {
      UvarintEnds(Zigzag(p.addr), Zigzag(q.addr), ep, eq);
      ZigzagIsOne(p.addr, q.addr);
    } else {
      assert ap == ep && aq == eq;
    }
    CountedEnds(p.err, q.err, bp, bq);
    CountedEnds(p.bytes, q.bytes, fp, fq);
    PackedEnds(ErrFlags(p), ErrFlags(q), s, t);
  }

  lemma ZigzagIsOne(v: int, w: int)
    requires Zigzag(v) == Zigzag(w)
    ensures v == w
  {
  }

  lemma KeySplits(p: Packet, s: seq<byte>)
    ensures Key(p) + s == [Flags(p)] + (AddrBytes(p) + (Counted(p.err) + (Counted(p.bytes) + (Packed(ErrFlags(p)) + s))))
  {
    hide Flags, AddrBytes, Counted, Packed, ErrFlags;
    var f := Packed(ErrFlags(p));
    var b := Counted(p.bytes) + f;
    var e := Counted(p.err) + b;
    var a := AddrBytes(p) + e;
    Tail([Flags(p)], a, s);
    Tail(AddrBytes(p), e, s);
    Tail(Counted(p.err), b, s);
    Tail(Counted(p.bytes), f, s);
  }

  /** Two packets have one key exactly when they say the same: whether and what they address, whether they read,
      their fault, their bytes and which of them are bad. */
  lemma KeyIsContent(p: Packet, q: Packet)
    ensures Key(p) == Key(q) <==> ContentOf(p) == ContentOf(q)
  {
    hide ErrFlags, Packed, Counted, Uvarint;
    if Key(p) == Key(q) {
      assert Key(p) + [] == Key(q) + [];
      KeyEnds(p, q, [], []);
    }
  }

  /** Field by field: one key, one message. */
  lemma KeyTells(p: Packet, q: Packet)
    ensures Key(p) == Key(q)
            <==> && p.read == q.read && p.hasAddr == q.hasAddr && (p.hasAddr ==> p.addr == q.addr)
                 && p.err == q.err && p.bytes == q.bytes
                 && forall i :: 0 <= i < |p.bytes| ==>
                      ((i < |p.byteErr| && p.byteErr[i]) <==> (i < |q.byteErr| && q.byteErr[i]))
  {
    hide Key;
    KeyIsContent(p, q);
    if ErrFlags(p) == ErrFlags(q) {
      forall i | 0 <= i < |p.bytes|
        ensures (i < |p.byteErr| && p.byteErr[i]) <==> (i < |q.byteErr| && q.byteErr[i])
      {
        assert ErrFlags(p)[i] == ErrFlags(q)[i];
      }
    }
  }

  method AppendContentKey(b: seq<byte>, p: Packet) returns (r: seq<byte>)
    ensures r == b + Key(p)
  {
    hide Uvarint, Packed;
    var flags: byte := 0;
    if p.hasAddr {
      flags := flags + 1;
    }
    if p.read {
      flags := flags + 2;
    }
    r := b + [flags];
    if p.hasAddr {
      r := AppendUvarint(r, Zigzag(p.addr));
    }
    assert r == b + ([Flags(p)] + AddrBytes(p));
    r := AppendUvarint(r, |p.err|);
    r := r + p.err;
    r := AppendUvarint(r, |p.bytes|);
    r := r + p.bytes;
    r := AppendFlags(r, p);
  }

  method AppendFlags(b: seq<byte>, p: Packet) returns (r: seq<byte>)
    ensures r == b + Packed(ErrFlags(p))
  {
    hide BitsOf, Pow2, Packed;
    ghost var fs := ErrFlags(p);
    r := b;
    var bits := 0;
    ghost var c := 0;  // where the byte begun began
    NoBits();
    assert fs[..0] == [] && fs[0..] == fs;
    for i := 0 to |p.bytes|
      invariant c <= i && r + Packed(fs[c..]) == b + Packed(fs) && bits == BitsOf(fs[c..i])
      invariant i == |fs| ==> c == i
      invariant i < |fs| ==> i - c == i % 8
    {
      OneBit(fs, c, i);
      if i < |p.byteErr| && p.byteErr[i] {
        bits := bits + Pow2(i % 8);
      }
      if i % 8 == 7 || i == |p.bytes| - 1 {
        OneByte(fs, c, i + 1);
        assert r + Packed(fs[c..]) == r + [bits] + Packed(fs[i + 1..]);
        r := r + [bits];
        bits, c := 0, i + 1;
        assert fs[c..c] == [];
      }
    }
    assert fs[|fs|..] == [] && r + [] == r;
  }

  lemma NoBits()
    ensures BitsOf([]) == 0 && Packed([]) == []
  {
  }

  lemma OneBit(fs: seq<bool>, c: nat, i: nat)
    requires c <= i < |fs|
    ensures BitsOf(fs[c..i + 1]) == BitsOf(fs[c..i]) + if fs[i] then Pow2(i - c) else 0
  {
    assert fs[c..i + 1][..i - c] == fs[c..i];
  }

  lemma OneByte(fs: seq<bool>, c: nat, i: nat)
    requires c < i <= |fs| && (i == c + 8 || (i == |fs| && i < c + 8))
    ensures BitsOf(fs[c..i]) < 256 && Packed(fs[c..]) == [BitsOf(fs[c..i])] + Packed(fs[i..])
  {
    hide BitsOf;
    ByteOfBits(fs[c..i]);
    assert fs[c..][..i - c] == fs[c..i] && fs[c..][i - c..] == fs[i..];
  }
}
