/**
 Where the bits of a CAN frame are, number by number, and the frames with a flexible
 data rate, read to the end of their data.
 */
module CanLayout {
  import opened Basics
  import opened CanCrc
  import opened CanFrame

  // ---------------------------------------------------------------- stuffing, bit by bit

  /** The last five bits on the wire are equal. */
  predicate FiveEqual(wire: seq<bit>) {
    |wire| >= 5 && forall i :: |wire| - 5 <= i < |wire| ==> wire[i] == wire[|wire| - 1]
  }

  /** The run a wire ends in is as long as it says, and as long as there is. */
  lemma {:induction false} TrailingIsRun(wire: seq<bit>)
    requires wire != []
    ensures var t := Trailing(wire);
            && 0 < t.len <= |wire| && t.val == wire[|wire| - 1]
            && forall i :: |wire| - t.len <= i < |wire| ==> wire[i] == t.val
  {
    var p := wire[..|wire| - 1];
    if p != [] {
      TrailingIsRun(p);
      assert forall i :: 0 <= i < |p| ==> wire[i] == p[i];
    }
  }

  /** After five equal bits on the wire, stuff bits among them, comes a bit that differs, before the next of the frame;
      else the next bit comes at once. */
  lemma StuffingIs(bits: seq<bit>, b: bit)
    ensures Sent([]) == []
    ensures var w := Sent(bits);
            var s := if FiveEqual(w) then [1 - w[|w| - 1]] else [];
            Stuff(bits) == w + s && Sent(bits + [b]) == w + s + [b]
  {
    hide Sent, StuffBit;
    NothingSentYet();
    StuffBitIs(bits);
    SentNext(bits, b);
  }

  lemma NothingSentYet()
    ensures Sent([]) == []
  {
  }

  lemma SentNext(bits: seq<bit>, b: bit)
    ensures Sent(bits + [b]) == Sent(bits) + StuffBit(bits) + [b]
  {
    hide StuffBit;
    assert (bits + [b])[..|bits|] == bits;
  }

  lemma StuffBitIs(bits: seq<bit>)
    ensures var w := Sent(bits); StuffBit(bits) == if FiveEqual(w) then [1 - w[|w| - 1]] else []
  {
    hide Sent, Trailing, RunsUnderSix;
    var w := Sent(bits);
    SentTrails(bits);
    if w == [] {
      SentIsLong(bits);
    } else {
      TrailingIsRun(w);
      if FiveEqual(w) {
        EqualBitsTrail(w, |w| - 5, 5);
        assert w[..|w| - 5 + 5] == w;
      }
    }
  }

  lemma {:induction false} SentIsLong(bits: seq<bit>)
    ensures |Sent(bits)| >= |bits|
  {
    if bits != [] {
      SentIsLong(bits[..|bits| - 1]);
    }
  }

  // ---------------------------------------------------------------- a classic frame's fields

  lemma {:induction false} DataAt(data: seq<byte>, k: nat)
    requires k < |data|
    ensures DataBits(data)[8 * k..8 * k + 8] == ToBits(data[k], 8)
  {
    hide ToBits;
    var n := |data| - 1;
    LastByte(data, n);
    var a, b := DataBits(data[..n]), ToBits(data[n], 8);
    if k < n {
      DataAt(data[..n], k);
      assert (a + b)[8 * k..8 * k + 8] == a[8 * k..8 * k + 8];
    } else {
      assert (a + b)[8 * k..8 * k + 8] == b;
    }
  }

  /** A base frame: start bit, 11 identifier bits, the remote request, two dominant bits, the length code, the data. */
  lemma BaseFrameLayout(id: nat, remote: bool, dlc: nat, data: seq<byte>)
    requires id < 0x800 && dlc < 16 && |data| == if remote then 0 else if dlc <= 8 then dlc else 8
    ensures var f := Frame(id, false, remote, dlc, data);
            && f.Valid()
            && var b := f.Body();
               && |b| == 19 + 8 * |data| && b[0] == 0 && b[12] == (if remote then 1 else 0) && b[13] == 0 && b[14] == 0
               && b[1..12] == ToBits(id, 11) && b[15..19] == ToBits(dlc, 4)
               && forall k :: 0 <= k < |data| ==> b[19 + 8 * k..27 + 8 * k] == ToBits(data[k], 8)
  {
    hide ToBits, DataBits;
    var f := Frame(id, false, remote, dlc, data);
    var b := f.Body();
    Cut(f.HeaderBits(), ToBits(dlc, 4), DataBits(data), []);
    assert b == f.HeaderBits() + ToBits(dlc, 4) + DataBits(data) + [];
    forall k | 0 <= k < |data| ensures b[19 + 8 * k..27 + 8 * k] == ToBits(data[k], 8) {
      DataAt(data, k);
      Inside(b, 19, DataBits(data), 8 * k);
    }
  }

  /** An extended frame: start bit, the 11 high identifier bits, two recessive bits, the 18 low ones, the remote request,
      two dominant bits, the length code, the data. */
  lemma ExtendedFrameLayout(id: nat, remote: bool, dlc: nat, data: seq<byte>)
    requires id < 0x2000_0000 && dlc < 16 && |data| == if remote then 0 else if dlc <= 8 then dlc else 8
    ensures var f := Frame(id, true, remote, dlc, data);
            && f.Valid()
            && var b := f.Body();
               && |b| == 39 + 8 * |data| && b[0] == 0 && b[12] == 1 && b[13] == 1
               && b[32] == (if remote then 1 else 0) && b[33] == 0 && b[34] == 0
               && b[1..12] == ToBits(id / 0x4_0000, 11) && b[14..32] == ToBits(id % 0x4_0000, 18)
               && b[35..39] == ToBits(dlc, 4)
               && forall k :: 0 <= k < |data| ==> b[39 + 8 * k..47 + 8 * k] == ToBits(data[k], 8)
  {
    hide ToBits, DataBits;
    var f := Frame(id, true, remote, dlc, data);
    var b := f.Body();
    Cut(f.HeaderBits(), ToBits(dlc, 4), DataBits(data), []);
    assert b == f.HeaderBits() + ToBits(dlc, 4) + DataBits(data) + [];
    forall k | 0 <= k < |data| ensures b[39 + 8 * k..47 + 8 * k] == ToBits(data[k], 8) {
      DataAt(data, k);
      Inside(b, 39, DataBits(data), 8 * k);
    }
  }

  lemma Inside(s: seq<bit>, at: nat, part: seq<bit>, k: nat)
    requires at + |part| <= |s| && s[at..at + |part|] == part && k + 8 <= |part|
    ensures s[at + k..at + k + 8] == part[k..k + 8]
  {
    SliceOfSlice(s, at, |part|, k, k + 8);
  }

  /** The frame's bits are sent with their check behind them, stuffed; then a recessive delimiter and the acknowledge. */
  lemma WireEnds(f: Frame, ack: bit)
    requires f.Valid()
    ensures f.Wire(ack) == Stuff(WithCheck(f.Body())) + [1, ack]
  {
  }

  // ---------------------------------------------------------------- a flexible data rate

  /** The bytes of data for each length code. */
  lemma FdLengths(dlc: nat)
    ensures dlc <= 8 ==> FdDataLen(dlc) == dlc
    ensures FdDataLen(9) == 12 && FdDataLen(10) == 16 && FdDataLen(11) == 20 && FdDataLen(12) == 24
    ensures FdDataLen(13) == 32 && FdDataLen(14) == 48 && FdDataLen(15) == 64
  {
  }

  /** A base frame's bits to the end of its data: after the start bit and the identifier the remote request's place, two
      bits 0 and 1 that tell it from a classic frame, the reserved bit, the rate switch and the error state. */
  function FdBits(id: nat, rrs: bit, res: bit, brs: bit, esi: bit, dlc: nat, data: seq<byte>): seq<bit> {
    [0] + ToBits(id, 11) + [rrs, 0, 1, res, brs, esi] + ToBits(dlc, 4) + DataBits(data)
  }

  lemma FdFramesDecode(id: nat, rrs: bit, res: bit, brs: bit, esi: bit, dlc: nat, data: seq<byte>, wire: seq<bit>)
    requires id < 0x800 && dlc < 16 && |data| == FdDataLen(dlc) && Sent(FdBits(id, rrs, res, brs, esi, dlc, data)) <= wire
    ensures DecodeFrame(wire) == Some(Decoded(Header(id, false, false, true), dlc, data, None, false, None))
  {
    hide Reads, Field, ToBits, Value, DecodeHeader, DecodeBytes, Sent, DataBits, FdDataLen;
    var bits := FdBits(id, rrs, res, brs, esi, dlc, data);
    var head := [0] + ToBits(id, 11) + [rrs, 0, 1, res, brs, esi];
    Cut(head, ToBits(dlc, 4), DataBits(data), []);
    assert bits == head + ToBits(dlc, 4) + DataBits(data) + [];
    BeginsReading(wire, bits);
    FdHeaderReads(wire, bits, id, rrs, res, brs, esi);
    var r1 := DecodeHeader(wire, AT_SOF).value.0;
    Pow2Values();
    ValueOfBits(dlc, 4);
    Take(wire, r1, bits, 18, ToBits(dlc, 4), dlc);
    var r2 := Field(wire, r1, 4).value.0;
    BytesRead(wire, r2, bits, 22, data);
  }

  lemma BeginsReading(wire: seq<bit>, bits: seq<bit>)
    requires Sent(bits) <= wire
    ensures Reads(wire, AT_SOF, bits, 0)
  {
    assert bits[..0] == [];
  }

  lemma FdHeaderReads(wire: seq<bit>, bits: seq<bit>, id: nat, rrs: bit, res: bit, brs: bit, esi: bit)
    requires id < 0x800 && Reads(wire, AT_SOF, bits, 0) && [0] + ToBits(id, 11) + [rrs, 0, 1, res, brs, esi] <= bits
    ensures DecodeHeader(wire, AT_SOF).Some?
    ensures var (r, h) := DecodeHeader(wire, AT_SOF).value;
            h == Header(id, false, false, true) && Reads(wire, r, bits, 18) && r.record && r.bits == bits[..18]
  {
    hide Reads, Field, ToBits, Value;
    Pow2Values();
    ValueOfBits(id, 11);
    BitValue(0);
    BitValue(1);
    BitValue(rrs);
    BitValue(res);
    BitValue(brs);
    BitValue(esi);
    var hb := [0] + ToBits(id, 11) + [rrs, 0, 1, res, brs, esi];
    assert bits[..18] == hb;
    assert bits[0..1] == [0] && bits[1..12] == ToBits(id, 11) && bits[12..13] == [rrs] && bits[13..14] == [0];
    assert bits[14..15] == [1] && bits[15..16] == [res] && bits[16..17] == [brs] && bits[17..18] == [esi];
    Take(wire, AT_SOF, bits, 0, [0], 0);
    var r1 := Field(wire, AT_SOF, 1).value.0;
    Take(wire, r1, bits, 1, ToBits(id, 11), id);
    var r2 := Field(wire, r1, 11).value.0;
    Take(wire, r2, bits, 12, [rrs], rrs);
    var r3 := Field(wire, r2, 1).value.0;
    Take(wire, r3, bits, 13, [0], 0);
    var r4 := Field(wire, r3, 1).value.0;
    Take(wire, r4, bits, 14, [1], 1);
    var r5 := Field(wire, r4, 1).value.0;
    Take(wire, r5, bits, 15, [res], res);
    var r6 := Field(wire, r5, 1).value.0;
    Take(wire, r6, bits, 16, [brs], brs);
    var r7 := Field(wire, r6, 1).value.0;
    Take(wire, r7, bits, 17, [esi], esi);
  }
}
