/**
 Classic CAN frames on the wire: bit stuffing (section 5, Coding, of the Bosch CAN
 Specification 2.0 Part A), the reader that takes it away, and the decode of one
 frame from its start bit. The wire is the bits as sampled, 0 dominant.
 */
module CanFrame {
  import opened Basics
  import opened CanCrc

  // ---------------------------------------------------------------- stuffing

  /** The value and length of the run of equal bits a stream ends in. */
  datatype Tail = Tail(val: int, len: nat) {
    function Then(b: bit): Tail {
      if b == val then Tail(b, len + 1) else Tail(b, 1)
    }

    predicate Full() {
      len >= 5
    }
  }

  const NO_BITS := Tail(-1, 0)

  /** The run the wire ends in once bits were sent; after five equal bits a stuff bit comes first. */
  function TailOf(bits: seq<bit>): (t: Tail)
    ensures 0 <= t.len <= 5 && (t.len > 0 ==> t.val == 0 || t.val == 1) && (t.len == 0 ==> t.val == -1)
  {
    if bits == [] then NO_BITS
    else
      var t := TailOf(bits[..|bits| - 1]);
      (if t.Full() then Tail(1 - t.val, 1) else t).Then(bits[|bits| - 1])
  }

  /** The stuff bit due after bits, if one is. */
  function StuffBit(bits: seq<bit>): (s: seq<bit>)
    ensures |s| <= 1
  {
    if TailOf(bits).Full() then [1 - TailOf(bits).val] else []
  }

  /** The wire up to the last of bits. */
  function Sent(bits: seq<bit>): seq<bit> {
    if bits == [] then []
    else
      var p := bits[..|bits| - 1];
      Sent(p) + StuffBit(p) + [bits[|bits| - 1]]
  }

  /** The wire of a stuffed stretch: the stuff bit its last five bits may call for is sent too. */
  function Stuff(bits: seq<bit>): seq<bit> {
    Sent(bits) + StuffBit(bits)
  }

  lemma {:induction false} SentIsPrefix(bits: seq<bit>, k: nat)
    requires k <= |bits|
    ensures Sent(bits[..k]) <= Sent(bits)
    ensures k < |bits| ==> Sent(bits[..k]) + StuffBit(bits[..k]) + [bits[k]] <= Sent(bits)
    decreases |bits|
  {
    if k < |bits| {
      var p := bits[..|bits| - 1];
      SentIsPrefix(p, k);
      assert p[..k] == bits[..k];
    } else {
      assert bits[..k] == bits;
    }
  }

  /** The run a wire ends in, no stuffing in mind. */
  function Trailing(wire: seq<bit>): (t: Tail)
    ensures t.len <= |wire|
  {
    if wire == [] then NO_BITS else Trailing(wire[..|wire| - 1]).Then(wire[|wire| - 1])
  }

  predicate RunsUnderSix(wire: seq<bit>) {
    forall i :: 0 <= i <= |wire| ==> Trailing(wire[..i]).len <= 5
  }

  lemma RunsUnderSixGrows(wire: seq<bit>, b: bit)
    requires RunsUnderSix(wire) && Trailing(wire + [b]).len <= 5
    ensures RunsUnderSix(wire + [b])
  {
    var w := wire + [b];
    forall i | 0 <= i <= |w| ensures Trailing(w[..i]).len <= 5 {
      if i <= |wire| {
        assert w[..i] == wire[..i];
      } else {
        assert w[..i] == w;
      }
    }
  }

  lemma TrailingGrows(wire: seq<bit>, b: bit)
    ensures Trailing(wire + [b]) == Trailing(wire).Then(b)
  {
    assert (wire + [b])[..|wire|] == wire;
  }

  lemma {:induction false} SentTrails(bits: seq<bit>)
    ensures Trailing(Sent(bits)) == TailOf(bits) && RunsUnderSix(Sent(bits))
  {
    if bits != [] {
      var p, b := bits[..|bits| - 1], bits[|bits| - 1];
      SentTrails(p);
      var w := Sent(p) + StuffBit(p);
      if TailOf(p).Full() {
        var s := 1 - TailOf(p).val;
        TrailingGrows(Sent(p), s);
        RunsUnderSixGrows(Sent(p), s);
      } else {
        assert w == Sent(p);
      }
      TrailingGrows(w, b);
      RunsUnderSixGrows(w, b);
    }
  }

  lemma {:induction false} EqualBitsTrail(wire: seq<bit>, i: nat, k: nat)
    requires 0 < k && i + k <= |wire| && forall j :: i <= j < i + k ==> wire[j] == wire[i]
    ensures Trailing(wire[..i + k]).len >= k && Trailing(wire[..i + k]).val == wire[i]
  {
    assert wire[..i + k][..i + k - 1] == wire[..i + k - 1];
    if k > 1 {
      EqualBitsTrail(wire, i, k - 1);
    }
  }

  /** A stuffed wire never holds six equal bits in a row. */
  lemma NoSixEqual(bits: seq<bit>, i: nat)
    requires i + 6 <= |Stuff(bits)|
    ensures exists j :: i <= j < i + 6 && Stuff(bits)[j] != Stuff(bits)[i]
  {
    var wire := Stuff(bits);
    SentTrails(bits);
    if TailOf(bits).Full() {
      var s := 1 - TailOf(bits).val;
      TrailingGrows(Sent(bits), s);
      RunsUnderSixGrows(Sent(bits), s);
    } else {
      assert wire == Sent(bits);
    }
    if forall j :: i <= j < i + 6 ==> wire[j] == wire[i] {
      EqualBitsTrail(wire, i, 6);
    }
  }

  // ---------------------------------------------------------------- the reader

  datatype Reader = Reader(pos: nat, run: Tail, stuffOn: bool, record: bool, stuffed: nat, stuffErr: bool, bits: seq<bit>)

  const AT_SOF := Reader(0, NO_BITS, true, true, 0, false, [])

  /** The next bit, a stuff bit before it taken away. */
  function Next(wire: seq<bit>, r: Reader): (o: Option<(Reader, bit)>)
  {
    if r.stuffOn && r.run.Full() then
      if r.pos + 1 >= |wire| then None
      else
        var s, v := wire[r.pos], wire[r.pos + 1];
        Some((Reader(r.pos + 2, Tail(s, 1).Then(v), r.stuffOn, r.record, r.stuffed + 1,
                     r.stuffErr || s == r.run.val, if r.record then r.bits + [v] else r.bits), v))
    else
      if r.pos >= |wire| then None
      else
        var v := wire[r.pos];
        Some((Reader(r.pos + 1, r.run.Then(v), r.stuffOn, r.record, r.stuffed, r.stuffErr,
                     if r.record then r.bits + [v] else r.bits), v))
  }

  /** The number n bits make, the first the most significant. */
  function Field(wire: seq<bit>, r: Reader, n: nat): Option<(Reader, nat)> {
    if n == 0 then Some((r, 0))
    else
      var (r1, val) :- Field(wire, r, n - 1);
      var (r2, b) :- Next(wire, r1);
      Some((r2, 2 * val + b))
  }

  /** The reader has taken k of bits from a wire that carries them, and nothing was wrong. */
  predicate Reads(wire: seq<bit>, r: Reader, bits: seq<bit>, k: nat) {
    && k <= |bits| && Sent(bits) <= wire
    && r.pos == |Sent(bits[..k])| && r.run == TailOf(bits[..k]) && r.stuffOn && !r.stuffErr
  }

  lemma NextReads(wire: seq<bit>, r: Reader, bits: seq<bit>, k: nat)
    requires Reads(wire, r, bits, k) && k < |bits|
    ensures Next(wire, r).Some? && Next(wire, r).value.1 == bits[k]
    ensures var r' := Next(wire, r).value.0;
            Reads(wire, r', bits, k + 1) && r'.record == r.record
            && r'.bits == if r.record then r.bits + [bits[k]] else r.bits
  {
    SentIsPrefix(bits, k);
    SentIsPrefix(bits, k + 1);
    assert bits[..k + 1][..k] == bits[..k];
    var w := Sent(bits[..k]) + StuffBit(bits[..k]) + [bits[k]];
    assert w <= wire;
    if r.run.Full() {
      assert wire[r.pos] == w[r.pos] && wire[r.pos + 1] == w[r.pos + 1];
    } else {
      assert wire[r.pos] == w[r.pos];
    }
  }

  /** A field of a stuffed wire reads as the bits that were sent. */
  lemma {:induction false} FieldReads(wire: seq<bit>, r: Reader, bits: seq<bit>, k: nat, n: nat)
    requires Reads(wire, r, bits, k) && k + n <= |bits|
    ensures Field(wire, r, n).Some? && Field(wire, r, n).value.1 == Value(bits[k..k + n])
    ensures var r' := Field(wire, r, n).value.0;
            Reads(wire, r', bits, k + n) && r'.record == r.record
            && r'.bits == if r.record then r.bits + bits[k..k + n] else r.bits
  {
    hide Next, Reads;
    if n > 0 {
      FieldReads(wire, r, bits, k, n - 1);
      var (r1, val) := Field(wire, r, n - 1).value;
      NextReads(wire, r1, bits, k + n - 1);
      assert bits[k..k + n][..n - 1] == bits[k..k + n - 1];
      assert bits[k..k + n] == bits[k..k + n - 1] + [bits[k + n - 1]];
    } else {
      assert bits[k..k] == [];
    }
  }

  /** The wire up to where the reader stands is the stuffing of the bits it took. */
  predicate Clean(wire: seq<bit>, r: Reader) {
    && r.pos <= |wire| && wire[..r.pos] == Sent(r.bits) && r.run == TailOf(r.bits)
    && r.stuffOn && r.record && !r.stuffErr
  }

  lemma NextStaysClean(wire: seq<bit>, r: Reader)
    requires Next(wire, r).Some? && !Next(wire, r).value.0.stuffErr && Clean(wire, r)
    ensures var (r', b) := Next(wire, r).value; Clean(wire, r') && r'.bits == r.bits + [b]
  {
    var (r', b) := Next(wire, r).value;
    assert (r.bits + [b])[..|r.bits|] == r.bits;
    assert wire[..r'.pos] == wire[..r.pos] + wire[r.pos..r'.pos];
    if r.run.Full() {
      assert wire[r.pos..r'.pos] == [wire[r.pos], b];
    } else {
      assert wire[r.pos..r'.pos] == [b];
    }
  }

  /** On any wire at all: bits read without a stuffing error are the ones whose stuffing the wire is. */
  lemma {:induction false} CleanReadIsStuffing(wire: seq<bit>, n: nat)
    requires Field(wire, AT_SOF, n).Some? && !Field(wire, AT_SOF, n).value.0.stuffErr
    ensures var (r, val) := Field(wire, AT_SOF, n).value;
            Clean(wire, r) && |r.bits| == n && val == Value(r.bits)
  {
    if n > 0 {
      hide Next, Clean;
      var (r1, val) := Field(wire, AT_SOF, n - 1).value;
      ErrorStays(wire, r1);
      CleanReadIsStuffing(wire, n - 1);
      NextStaysClean(wire, r1);
      var (r, b) := Next(wire, r1).value;
      assert r.bits[..n - 1] == r1.bits;
    }
  }

  lemma ErrorStays(wire: seq<bit>, r: Reader)
    requires Next(wire, r).Some? && !Next(wire, r).value.0.stuffErr
    ensures !r.stuffErr
  {
  }

  /** Six equal bits where a stuff bit is due are always seen as an error. */
  lemma StuffingErrorIsSeen(wire: seq<bit>, r: Reader)
    requires r.stuffOn && r.run.Full() && Next(wire, r).Some?
    ensures Next(wire, r).value.0.stuffErr <==> r.stuffErr || wire[r.pos] == r.run.val
  {
  }

  // ---------------------------------------------------------------- decoding a frame

  /** Bytes of an FD frame's data for a length code. */
  function FdDataLen(dlc: nat): nat {
    if dlc <= 8 then dlc
    else if dlc == 9 then 12
    else if dlc == 10 then 16
    else if dlc == 11 then 20
    else if dlc == 12 then 24
    else if dlc == 13 then 32
    else if dlc == 14 then 48
    else 64
  }

  datatype Header = Header(id: nat, extended: bool, remote: bool, fd: bool)

  /** What a frame decodes to. crc and ack are not read of an FD frame, ack not of one cut before it. */
  datatype Decoded = Decoded(header: Header, dlc: nat, data: seq<nat>, crc: Option<nat>, crcOK: bool, ack: Option<bool>)

  function DecodeHeader(wire: seq<bit>, start: Reader): Option<(Reader, Header)> {
    var (r1, sof) :- Field(wire, start, 1);
    if sof != 0 then None
    else
      var (r2, baseID) :- Field(wire, r1, 11);
      var (r3, b1) :- Field(wire, r2, 1);
      var (r4, ide) :- Field(wire, r3, 1);
      if ide != 1 then
        var (r5, fdf) :- Field(wire, r4, 1);
        if fdf == 1 then
          var (r6, res) :- Field(wire, r5, 1);
          var (r7, brs) :- Field(wire, r6, 1);
          var (r8, esi) :- Field(wire, r7, 1);
          Some((r8, Header(baseID, false, false, true)))
        else Some((r5, Header(baseID, false, b1 == 1, false)))
      else
        var (r5, extID) :- Field(wire, r4, 18);
        var (r6, rtr) :- Field(wire, r5, 1);
        var (r7, res1) :- Field(wire, r6, 1);
        var (r8, res0) :- Field(wire, r7, 1);
        Some((r8, Header(baseID * 0x4_0000 + extID, true, rtr == 1, false)))
  }

  function DecodeBytes(wire: seq<bit>, r: Reader, n: nat): (o: Option<(Reader, seq<nat>)>)
    ensures o.Some? ==> |o.value.1| == n
  {
    if n == 0 then Some((r, []))
    else
      var (r1, data) :- DecodeBytes(wire, r, n - 1);
      var (r2, b) :- Field(wire, r1, 8);
      Some((r2, data + [b]))
  }

  function DataBytes(h: Header, dlc: nat): nat {
    if h.remote then 0 else if h.fd then FdDataLen(dlc) else Min(dlc, 8)
  }

  /** The acknowledge bit after a classic frame's check: the delimiter is read with stuffing on, the bit without. */
  function DecodeAck(wire: seq<bit>, r: Reader): Option<bool> {
    match Field(wire, r, 1)
    case None => None
    case Some((r1, _)) =>
      match Field(wire, r1.(stuffOn := false), 1)
      case None => None
      case Some((_, ack)) => Some(ack == 0)
  }

  function DecodeFrame(wire: seq<bit>): Option<Decoded> {
    var (r1, h) :- DecodeHeader(wire, AT_SOF);
    var (r2, dlc) :- Field(wire, r1, 4);
    var (r3, data) :- DecodeBytes(wire, r2, DataBytes(h, dlc));
    if h.fd then Some(Decoded(h, dlc, data, None, false, None))
    else
      var want := Crc(r3.bits) as nat;
      var (r4, crc) :- Field(wire, r3.(record := false), 15);
      Some(Decoded(h, dlc, data, Some(crc), crc == want && !r4.stuffErr, DecodeAck(wire, r4)))
  }

  // ---------------------------------------------------------------- encoding a frame

  lemma Pow2Values()
    ensures Pow2(1) == 2 && Pow2(4) == 16 && Pow2(8) == 256 && Pow2(11) == 0x800 && Pow2(15) == 0x8000 && Pow2(18) == 0x4_0000
  {
    assert Pow2(3) == 8 && Pow2(6) == 8 * Pow2(3) && Pow2(9) == 8 * Pow2(6) && Pow2(12) == 8 * Pow2(9) && Pow2(15) == 8 * Pow2(12);
  }

  /** A header's bits, an extended one's with its substitute remote request and its two reserved bits. */
  function HeaderAs(id: nat, extended: bool, remote: bool, srr: bit, r1: bit, r0: bit): (bits: seq<bit>)
    ensures |bits| == if extended then 35 else 15
  {
    var rtr: bit := if remote then 1 else 0;
    if extended then [0] + ToBits(id / 0x4_0000, 11) + [srr, 1] + ToBits(id % 0x4_0000, 18) + [rtr, r1, r0]
    else [0] + ToBits(id, 11) + [rtr, 0, 0]
  }

  datatype Frame = Frame(id: nat, extended: bool, remote: bool, dlc: nat, data: seq<byte>) {
    /** A classic frame: an identifier of 11 or 29 bits, and as many data bytes as its length code and kind say. */
    predicate Valid() {
      && id < (if extended then 0x2000_0000 else 0x800)
      && dlc < 16
      && |data| == if remote then 0 else Min(dlc, 8)
    }

    function HeaderBits(): (bits: seq<bit>)
      requires Valid()
      ensures |bits| == if extended then 35 else 15
    {
      HeaderAs(id, extended, remote, 1, 0, 0)
    }

    /** Start of frame to the end of the data. */
    function Body(): seq<bit>
      requires Valid()
    {
      HeaderBits() + ToBits(dlc, 4) + DataBits(data)
    }

    function Coded(): seq<bit>
      requires Valid()
    {
      WithCheck(Body())
    }

    /** The frame on the wire to its acknowledge slot: stuffed to the end of its check, then the delimiter. */
    function Wire(ack: bit): seq<bit>
      requires Valid()
    {
      Stuff(Coded()) + [1, ack]
    }
  }

  function DataBits(data: seq<byte>): (bits: seq<bit>)
    ensures |bits| == 8 * |data|
  {
    if data == [] then [] else DataBits(data[..|data| - 1]) + ToBits(data[|data| - 1], 8)
  }

  lemma LastByte(data: seq<byte>, n: nat)
    requires |data| == n + 1
    ensures DataBits(data) == DataBits(data[..n]) + ToBits(data[n], 8)
  {
  }

  lemma TwoParts(bits: seq<bit>, k: nat, n: nat, m: nat, a: seq<bit>, b: seq<bit>)
    requires k + n + m <= |bits| && |a| == n && |b| == m && bits[k..k + n + m] == a + b
    ensures bits[k..k + n] == a && bits[k + n..k + n + m] == b
  {
    SliceOfSlice(bits, k, n + m, 0, n);
    SliceOfSlice(bits, k, n + m, n, n + m);
    assert (a + b)[0..n] == a && (a + b)[n..n + m] == b;
  }

  lemma {:induction false} BytesRead(wire: seq<bit>, r: Reader, bits: seq<bit>, k: nat, data: seq<byte>)
    requires Reads(wire, r, bits, k) && k + 8 * |data| <= |bits| && bits[k..k + 8 * |data|] == DataBits(data)
    ensures DecodeBytes(wire, r, |data|).Some? && DecodeBytes(wire, r, |data|).value.1 == data
    ensures var r' := DecodeBytes(wire, r, |data|).value.0;
            Reads(wire, r', bits, k + 8 * |data|) && r'.record == r.record
            && r'.bits == if r.record then r.bits + DataBits(data) else r.bits
  {
    hide Reads, Field, ToBits, Value, DataBits;
    var n := |data|;
    if n == 0 {
      assert DataBits([]) == [];
    } else {
      var p, b := data[..n - 1], data[n - 1];
      LastByte(data, n - 1);
      TwoParts(bits, k, 8 * (n - 1), 8, DataBits(p), ToBits(b, 8));
      BytesRead(wire, r, bits, k, p);
      var (r1, _) := DecodeBytes(wire, r, n - 1).value;
      FieldReads(wire, r1, bits, k + 8 * (n - 1), 8);
      Pow2Values();
      ValueOfBits(b, 8);
    }
  }

  lemma HeaderReads(wire: seq<bit>, bits: seq<bit>, f: Frame)
    requires f.Valid() && Reads(wire, AT_SOF, bits, 0) && f.HeaderBits() <= bits
    ensures DecodeHeader(wire, AT_SOF).Some?
    ensures var (r, h) := DecodeHeader(wire, AT_SOF).value;
            && h == Header(f.id, f.extended, f.remote, false)
            && Reads(wire, r, bits, |f.HeaderBits()|) && r.record && r.bits == f.HeaderBits()
  {
    hide Reads, Field, ToBits, Value;
    if f.extended {
      ExtendedReads(wire, bits, f);
    } else {
      StandardReads(wire, bits, f);
    }
  }

  /** One field more of a frame that is read in order: the bits taken so far, then the field's. */
  lemma Take(wire: seq<bit>, r: Reader, bits: seq<bit>, k: nat, field: seq<bit>, v: nat)
    requires Reads(wire, r, bits, k) && r.record && r.bits == bits[..k]
    requires k + |field| <= |bits| && bits[k..k + |field|] == field && v == Value(field)
    ensures Field(wire, r, |field|).Some? && Field(wire, r, |field|).value.1 == v
    ensures var r' := Field(wire, r, |field|).value.0;
            Reads(wire, r', bits, k + |field|) && r'.record && r'.bits == bits[..k + |field|]
  {
    hide Reads, Field, Value;
    FieldReads(wire, r, bits, k, |field|);
    assert bits[..k + |field|] == bits[..k] + field;
  }

  lemma BitValue(b: bit)
    ensures Value([b]) == b
  {
    assert [b][..0] == [];
  }

  lemma StandardReads(wire: seq<bit>, bits: seq<bit>, f: Frame)
    requires f.Valid() && !f.extended && Reads(wire, AT_SOF, bits, 0) && f.HeaderBits() <= bits
    ensures DecodeHeader(wire, AT_SOF).Some?
    ensures var (r, h) := DecodeHeader(wire, AT_SOF).value;
            && h == Header(f.id, false, f.remote, false)
            && Reads(wire, r, bits, 15) && r.record && r.bits == f.HeaderBits()
  {
    hide Reads, Field, ToBits, Value;
    Pow2Values();
    ValueOfBits(f.id, 11);
    var rtr: bit := if f.remote then 1 else 0;
    var hb := f.HeaderBits();
    BitValue(0);
    BitValue(rtr);
    assert bits[0..1] == [0] && bits[1..12] == ToBits(f.id, 11) && bits[12..13] == [rtr];
    assert bits[13..14] == [0] && bits[14..15] == [0];
    Take(wire, AT_SOF, bits, 0, [0], 0);
    var r1 := Field(wire, AT_SOF, 1).value.0;
    Take(wire, r1, bits, 1, ToBits(f.id, 11), f.id);
    var r2 := Field(wire, r1, 11).value.0;
    Take(wire, r2, bits, 12, [rtr], rtr);
    var r3 := Field(wire, r2, 1).value.0;
    Take(wire, r3, bits, 13, [0], 0);
    var r4 := Field(wire, r3, 1).value.0;
    Take(wire, r4, bits, 14, [0], 0);
    assert bits[..15] == hb;
  }

  lemma ExtendedReads(wire: seq<bit>, bits: seq<bit>, f: Frame)
    requires f.Valid() && f.extended && Reads(wire, AT_SOF, bits, 0) && f.HeaderBits() <= bits
    ensures DecodeHeader(wire, AT_SOF).Some?
    ensures var (r, h) := DecodeHeader(wire, AT_SOF).value;
            && h == Header(f.id, true, f.remote, false)
            && Reads(wire, r, bits, 35) && r.record && r.bits == f.HeaderBits()
  {
    hide Reads, Field, ToBits, Value;
    Pow2Values();
    var hi, lo := f.id / 0x4_0000, f.id % 0x4_0000;
    ValueOfBits(hi, 11);
    ValueOfBits(lo, 18);
    var rtr: bit := if f.remote then 1 else 0;
    var hb := f.HeaderBits();
    BitValue(0);
    BitValue(1);
    BitValue(rtr);
    assert bits[0..1] == [0] && bits[1..12] == ToBits(hi, 11) && bits[12..13] == [1] && bits[13..14] == [1];
    assert bits[14..32] == ToBits(lo, 18) && bits[32..33] == [rtr] && bits[33..34] == [0] && bits[34..35] == [0];
    Take(wire, AT_SOF, bits, 0, [0], 0);
    var r1 := Field(wire, AT_SOF, 1).value.0;
    Take(wire, r1, bits, 1, ToBits(hi, 11), hi);
    var r2 := Field(wire, r1, 11).value.0;
    Take(wire, r2, bits, 12, [1], 1);
    var r3 := Field(wire, r2, 1).value.0;
    Take(wire, r3, bits, 13, [1], 1);
    var r4 := Field(wire, r3, 1).value.0;
    Take(wire, r4, bits, 14, ToBits(lo, 18), lo);
    var r5 := Field(wire, r4, 18).value.0;
    Take(wire, r5, bits, 32, [rtr], rtr);
    var r6 := Field(wire, r5, 1).value.0;
    Take(wire, r6, bits, 33, [0], 0);
    var r7 := Field(wire, r6, 1).value.0;
    Take(wire, r7, bits, 34, [0], 0);
    assert bits[..35] == hb;
  }

  /** After the last stuffed bit: the stuff bit it may call for is taken away, then the delimiter and the
      acknowledge bit are read as they are. */
  lemma AckReads(wire: seq<bit>, r: Reader, bits: seq<bit>, ack: bit)
    requires Reads(wire, r, bits, |bits|) && Stuff(bits) + [1, ack] <= wire
    ensures DecodeAck(wire, r) == Some(ack == 0)
  {
    var w := Stuff(bits) + [1, ack];
    assert bits[..|bits|] == bits;
    var n := |Stuff(bits)|;
    assert wire[n] == w[n] == 1 && wire[n + 1] == w[n + 1] == ack;
    FieldOfOne(wire, r);
    var r1 := Field(wire, r, 1).value.0;
    assert r1.pos == n + 1;
    FieldOfOne(wire, r1.(stuffOn := false));
  }

  lemma FieldOfOne(wire: seq<bit>, r: Reader)
    ensures Field(wire, r, 0) == Some((r, 0))
    ensures Field(wire, r, 1) == match Next(wire, r) case None => None case Some((r1, b)) => Some((r1, b as nat))
  {
  }

  /** Any classic frame, base or extended, data or remote, decodes to itself from its stuffed wire: identifier,
      length code, data and acknowledge, its check right and no stuffing error. */
  lemma FramesDecode(f: Frame, ack: bit, wire: seq<bit>)
    requires f.Valid() && f.Wire(ack) <= wire
    ensures DecodeFrame(wire)
            == Some(Decoded(Header(f.id, f.extended, f.remote, false), f.dlc, f.data,
                            Some(Crc(f.Body()) as nat), true, Some(ack == 0)))
  {
    hide Reads, Field, ToBits, Value, DecodeHeader, DecodeBytes, DecodeAck, Sent, StuffBit, Crc, DataBits, Frame.HeaderBits;
    var bits, body := f.Coded(), f.Body();
    var k := |f.HeaderBits()|;
    var check := Crc(body) as nat;
    WireStarts(f, ack, wire);
    Cut(f.HeaderBits(), ToBits(f.dlc, 4), DataBits(f.data), ToBits(check, 15));
    HeaderReads(wire, bits, f);
    var (r1, h) := DecodeHeader(wire, AT_SOF).value;
    Pow2Values();
    ValueOfBits(f.dlc, 4);
    Take(wire, r1, bits, k, ToBits(f.dlc, 4), f.dlc);
    var r2 := Field(wire, r1, 4).value.0;
    var m := k + 4 + 8 * |f.data|;
    BytesRead(wire, r2, bits, k + 4, f.data);
    var r3 := DecodeBytes(wire, r2, |f.data|).value.0;
    assert r3.bits == body;
    ValueOfBits(check, 15);
    FieldReadsUnrecorded(wire, r3, bits, m, 15);
    var r4 := Field(wire, r3.(record := false), 15).value.0;
    AckReads(wire, r4, bits, ack);
    CleanSoFar(wire, r4, bits, m + 15);
  }

  lemma Cut(a: seq<bit>, b: seq<bit>, c: seq<bit>, d: seq<bit>)
    ensures var s, k, m := a + b + c + d, |a| + |b|, |a| + |b| + |c|;
            a <= s && s[..|a|] == a && s[|a|..k] == b && s[k..m] == c && s[m..m + |d|] == d && s[..m] == a + b + c
  {
  }

  lemma WireStarts(f: Frame, ack: bit, wire: seq<bit>)
    requires f.Valid() && f.Wire(ack) <= wire
    ensures Reads(wire, AT_SOF, f.Coded(), 0) && Stuff(f.Coded()) + [1, ack] <= wire
  {
    var s := Sent(f.Coded());
    assert s <= Stuff(f.Coded()) <= f.Wire(ack);
    assert f.Coded()[..0] == [];
  }

  lemma FieldReadsUnrecorded(wire: seq<bit>, r: Reader, bits: seq<bit>, k: nat, n: nat)
    requires Reads(wire, r, bits, k) && k + n <= |bits|
    ensures Field(wire, r.(record := false), n).Some?
    ensures var (r', v) := Field(wire, r.(record := false), n).value; Reads(wire, r', bits, k + n) && v == Value(bits[k..k + n])
  {
    FieldReads(wire, r.(record := false), bits, k, n);
  }

  lemma CleanSoFar(wire: seq<bit>, r: Reader, bits: seq<bit>, k: nat)
    requires Reads(wire, r, bits, k)
    ensures !r.stuffErr
  {
  }

  // ---------------------------------------------------------------- what an accepted wire was

  /** No stuffing error so far means the reader took the bits its wire carries. */
  predicate Sound(wire: seq<bit>, r: Reader) {
    r.stuffErr || Clean(wire, r)
  }

  /** Soundness is kept by a field. */
  lemma {:induction false} FieldStaysSound(wire: seq<bit>, r: Reader, n: nat)
    requires Field(wire, r, n).Some? && Sound(wire, r)
    ensures var (r', v) := Field(wire, r, n).value;
            && Sound(wire, r')
            && (!r'.stuffErr ==>
                  !r.stuffErr && r.bits <= r'.bits && |r'.bits| == |r.bits| + n && v == Value(r'.bits[|r.bits|..]))
  {
    hide Clean;
    if n > 0 {
      var (r1, v1) := Field(wire, r, n - 1).value;
      FieldStaysSound(wire, r, n - 1);
      var (r2, b) := Next(wire, r1).value;
      if !r2.stuffErr {
        ErrorStays(wire, r1);
        NextStaysClean(wire, r1);
        assert r2.bits[|r.bits|..][..n - 1] == r1.bits[|r.bits|..];
        assert r2.bits[|r.bits|..][n - 1] == b;
      }
    } else {
      assert r.bits[|r.bits|..] == [];
    }
  }

  lemma HeaderStaysSound(wire: seq<bit>)
    requires DecodeHeader(wire, AT_SOF).Some?
    ensures Sound(wire, DecodeHeader(wire, AT_SOF).value.0)
  {
    hide Field, Sound, Value;
    StartIsSound(wire);
    FieldStaysSound(wire, AT_SOF, 1);
    var (r1, sof) := Field(wire, AT_SOF, 1).value;
    FieldStaysSound(wire, r1, 11);
    var (r2, baseID) := Field(wire, r1, 11).value;
    FieldStaysSound(wire, r2, 1);
    var (r3, b1) := Field(wire, r2, 1).value;
    FieldStaysSound(wire, r3, 1);
    var (r4, ide) := Field(wire, r3, 1).value;
    var n := if ide != 1 then 1 else 18;
    FieldStaysSound(wire, r4, n);
    var (r5, v) := Field(wire, r4, n).value;
    if ide == 1 || v == 1 {
      FieldStaysSound(wire, r5, 1);
      var (r6, _) := Field(wire, r5, 1).value;
      FieldStaysSound(wire, r6, 1);
      var (r7, _) := Field(wire, r6, 1).value;
      FieldStaysSound(wire, r7, 1);
    }
  }

  lemma StartIsSound(wire: seq<bit>)
    ensures Sound(wire, AT_SOF)
  {
    assert wire[..0] == Sent([]);
  }

  lemma {:induction false} BytesStaySound(wire: seq<bit>, r: Reader, n: nat)
    requires Sound(wire, r) && DecodeBytes(wire, r, n).Some?
    ensures Sound(wire, DecodeBytes(wire, r, n).value.0)
  {
    hide Field, Sound, Value;
    if n > 0 {
      BytesStaySound(wire, r, n - 1);
      FieldStaysSound(wire, DecodeBytes(wire, r, n - 1).value.0, 8);
    }
  }

  lemma {:induction false} BitsOfValue(bits: seq<bit>)
    ensures ToBits(Value(bits), |bits|) == bits && Value(bits) < Pow2(|bits|)
  {
    if bits != [] {
      BitsOfValue(bits[..|bits| - 1]);
    }
  }

  /** A field read without a stuffing error adds its number's bits to what was read. */
  lemma FieldIsItsBits(wire: seq<bit>, r: Reader, n: nat)
    requires Field(wire, r, n).Some? && Sound(wire, r) && !Field(wire, r, n).value.0.stuffErr
    ensures var (r', v) := Field(wire, r, n).value;
            !r.stuffErr && v < Pow2(n) && r'.bits == r.bits + ToBits(v, n)
  {
    hide Field, Sound, Value, ToBits;
    FieldStaysSound(wire, r, n);
    var (r', v) := Field(wire, r, n).value;
    BitsOfValue(r'.bits[|r.bits|..]);
    assert r'.bits == r.bits + r'.bits[|r.bits|..];
  }

  /** One bit. */
  lemma BitIsItself(wire: seq<bit>, r: Reader)
    requires Field(wire, r, 1).Some? && Sound(wire, r) && !Field(wire, r, 1).value.0.stuffErr
    ensures var (r', v) := Field(wire, r, 1).value;
            !r.stuffErr && v < 2 && r'.bits == r.bits + [v as bit]
  {
    hide Field, Sound;
    FieldIsItsBits(wire, r, 1);
    var v := Field(wire, r, 1).value.1;
    assert Pow2(1) == 2 && ToBits(v, 1) == [] + [v % 2];
  }

  /** A classic header read without a stuffing error is the header's bits, the reserved ones as they came. */
  lemma HeaderIsItsBits(wire: seq<bit>) returns (srr: bit, r1: bit, r0: bit)
    requires DecodeHeader(wire, AT_SOF).Some?
    requires var (r, h) := DecodeHeader(wire, AT_SOF).value; !r.stuffErr && !h.fd
    ensures var (r, h) := DecodeHeader(wire, AT_SOF).value;
            h.id < (if h.extended then 0x2000_0000 else 0x800)
            && r.bits == HeaderAs(h.id, h.extended, h.remote, srr, r1, r0)
  {
    var ide := Field(wire, Field(wire, Field(wire, Field(wire, AT_SOF, 1).value.0, 11).value.0, 1).value.0, 1).value.1;
    if ide == 1 {
      srr, r1, r0 := ExtendedIsItsBits(wire);
    } else {
      srr, r1, r0 := 1, 0, 0;
      StandardIsItsBits(wire);
    }
  }

  lemma Joined(a: seq<bit>, x: bit, y: bit, z: bit)
    ensures [] + [0] + a + [x] + [y] + [z] == [0] + a + [x, y, z]
  {
  }

  lemma JoinedLong(a: seq<bit>, s: bit, t: bit, b: seq<bit>, x: bit, y: bit, z: bit)
    ensures [] + [0] + a + [s] + [t] + b + [x] + [y] + [z] == [0] + a + [s, t] + b + [x, y, z]
  {
    assert [0] + a + [s, t] == [] + [0] + a + [s] + [t];
    assert [0] + a + [s, t] + b + [x, y, z] == [0] + a + [s, t] + b + [x] + [y] + [z];
  }

  lemma SoundField(wire: seq<bit>, r: Reader, n: nat)
    requires Field(wire, r, n).Some? && Sound(wire, r)
    ensures Sound(wire, Field(wire, r, n).value.0)
  {
    FieldStaysSound(wire, r, n);
  }

  lemma StandardIsItsBits(wire: seq<bit>)
    requires DecodeHeader(wire, AT_SOF).Some?
    requires var (r, h) := DecodeHeader(wire, AT_SOF).value; !r.stuffErr && !h.fd && !h.extended
    ensures var (r, h) := DecodeHeader(wire, AT_SOF).value;
            h.id < 0x800 && r.bits == HeaderAs(h.id, false, h.remote, 1, 0, 0)
  {
    hide Field, Sound, ToBits, Value;
    StartIsSound(wire);
    SoundField(wire, AT_SOF, 1);
    var (q1, sof) := Field(wire, AT_SOF, 1).value;
    SoundField(wire, q1, 11);
    var (q2, id) := Field(wire, q1, 11).value;
    SoundField(wire, q2, 1);
    var (q3, rtr) := Field(wire, q2, 1).value;
    SoundField(wire, q3, 1);
    var (q4, ide) := Field(wire, q3, 1).value;
    BitIsItself(wire, q4);
    BitIsItself(wire, q3);
    BitIsItself(wire, q2);
    FieldIsItsBits(wire, q1, 11);
    BitIsItself(wire, AT_SOF);
    Pow2Values();
    Joined(ToBits(id, 11), rtr, 0, 0);
  }

  lemma ExtendedIsItsBits(wire: seq<bit>) returns (srr: bit, r1: bit, r0: bit)
    requires DecodeHeader(wire, AT_SOF).Some?
    requires var (r, h) := DecodeHeader(wire, AT_SOF).value; !r.stuffErr && h.extended
    ensures var (r, h) := DecodeHeader(wire, AT_SOF).value;
            h.id < 0x2000_0000 && r.bits == HeaderAs(h.id, true, h.remote, srr, r1, r0)
  {
    hide Field, Sound, ToBits, Value;
    StartIsSound(wire);
    SoundField(wire, AT_SOF, 1);
    var (q1, sof) := Field(wire, AT_SOF, 1).value;
    SoundField(wire, q1, 11);
    var (q2, base) := Field(wire, q1, 11).value;
    SoundField(wire, q2, 1);
    var (q3, b) := Field(wire, q2, 1).value;
    SoundField(wire, q3, 1);
    var (q4, ide) := Field(wire, q3, 1).value;
    SoundField(wire, q4, 18);
    var (q5, ext) := Field(wire, q4, 18).value;
    SoundField(wire, q5, 1);
    var (q6, rtr) := Field(wire, q5, 1).value;
    SoundField(wire, q6, 1);
    var (q7, res1) := Field(wire, q6, 1).value;
    var (q8, res0) := Field(wire, q7, 1).value;
    BitIsItself(wire, q7);
    BitIsItself(wire, q6);
    BitIsItself(wire, q5);
    FieldIsItsBits(wire, q4, 18);
    BitIsItself(wire, q3);
    BitIsItself(wire, q2);
    FieldIsItsBits(wire, q1, 11);
    BitIsItself(wire, AT_SOF);
    Pow2Values();
    srr, r1, r0 := b, res1, res0;
    DivModIs(base * 0x4_0000 + ext, 0x4_0000, base, ext);
    JoinedLong(ToBits(base, 11), srr, 1, ToBits(ext, 18), rtr, r1, r0);
  }

  lemma {:induction false} BytesAreTheirBits(wire: seq<bit>, r: Reader, n: nat)
    requires Sound(wire, r) && DecodeBytes(wire, r, n).Some? && !DecodeBytes(wire, r, n).value.0.stuffErr
    ensures var (r', data) := DecodeBytes(wire, r, n).value;
            && !r.stuffErr && (forall i :: 0 <= i < n ==> data[i] < 256)
            && r'.bits == r.bits + DataBits(data)
  {
    hide Field, Sound, Value, ToBits;
    if n > 0 {
      var (r1, data) := DecodeBytes(wire, r, n - 1).value;
      BytesStaySound(wire, r, n - 1);
      FieldIsItsBits(wire, r1, 8);
      Pow2Values();
      BytesAreTheirBits(wire, r, n - 1);
      var b := Field(wire, r1, 8).value.1;
      assert (data + [b])[..n - 1] == data;
    } else {
      assert r.bits + [] == r.bits;
    }
  }

  /** The other way round, on any wire at all: a frame decoded with its check right begins with the stuffing of its
      own header, length code and data, the reserved bits as they came, followed by that body's own check. */
  lemma AcceptedFramesAreCoded(wire: seq<bit>) returns (body: seq<bit>, srr: bit, r1: bit, r0: bit)
    requires DecodeFrame(wire).Some? && DecodeFrame(wire).value.crcOK
    ensures Sent(body + ToBits(Crc(body) as nat, 15)) <= wire
    ensures DecodeFrame(wire).value.crc == Some(Crc(body) as nat)
    ensures var d := DecodeFrame(wire).value;
            && d.header.id < (if d.header.extended then 0x2000_0000 else 0x800) && d.dlc < 16
            && (forall i :: 0 <= i < |d.data| ==> d.data[i] < 256)
            && body == HeaderAs(d.header.id, d.header.extended, d.header.remote, srr, r1, r0) + ToBits(d.dlc, 4) + DataBits(d.data)
  {
    hide Field, Sound, Value, DecodeHeader, DecodeBytes, DecodeAck, Crc, Sent, ToBits, HeaderAs, DataBits;
    var (q1, h) := DecodeHeader(wire, AT_SOF).value;
    HeaderStaysSound(wire);
    FieldStaysSound(wire, q1, 4);
    var (q2, dlc) := Field(wire, q1, 4).value;
    BytesStaySound(wire, q2, DataBytes(h, dlc));
    var (q3, data) := DecodeBytes(wire, q2, DataBytes(h, dlc)).value;
    var (q4, crc) := Field(wire, q3.(record := false), 15).value;
    body := q3.bits;
    CheckIsCoded(wire, q3, q4, crc);
    NoErrorBefore(wire, q3);
    BytesAreTheirBits(wire, q2, DataBytes(h, dlc));
    FieldIsItsBits(wire, q1, 4);
    Pow2Values();
    srr, r1, r0 := HeaderIsItsBits(wire);
  }

  lemma NoErrorBefore(wire: seq<bit>, r: Reader)
    requires Sound(wire, r) && Field(wire, r.(record := false), 15).Some? && !Field(wire, r.(record := false), 15).value.0.stuffErr
    ensures !r.stuffErr
  {
    hide Field, Sound;
    UnrecordedIsRecorded(wire, r, 15);
    FieldStaysSound(wire, r, 15);
  }

  /** Two different frames of one length, sent, do not differ within 15 bits alone, stuff bits aside. */
  lemma FramesAreFarApart(f: Frame, g: Frame, at: nat)
    requires f.Valid() && g.Valid() && f != g && |f.Coded()| == |g.Coded()|
    ensures exists i :: 0 <= i < |f.Coded()| && !(at <= i < at + 15) && f.Coded()[i] != g.Coded()[i]
  {
    hide DecodeFrame, Crc, WithCheck, Frame.Body, Stuff;
    if f.Body() == g.Body() {
      FramesDecode(f, 1, f.Wire(1));
      FramesDecode(g, 1, g.Wire(1));
    } else {
      CodedBurstsAreDetected(f.Body(), g.Body(), at);
    }
  }

  /** The converse of FramesDecode: an accepted frame's fields are those of a valid frame, and what was on the wire is that
      frame as it is sent, if and only if an extended one's reserved bits came as they are sent. */
  lemma AcceptedFramesAreFrames(wire: seq<bit>) returns (f: Frame, srr: bit, r1: bit, r0: bit)
    requires DecodeFrame(wire).Some? && DecodeFrame(wire).value.crcOK
    ensures var d := DecodeFrame(wire).value;
            f.Valid() && d.header == Header(f.id, f.extended, f.remote, false) && d.dlc == f.dlc && d.data == f.data
    ensures var body := HeaderAs(f.id, f.extended, f.remote, srr, r1, r0) + ToBits(f.dlc, 4) + DataBits(f.data);
            Sent(body + ToBits(Crc(body) as nat, 15)) <= wire
    ensures Sent(f.Coded()) <= wire <==> !f.extended || (srr == 1 && r1 == 0 && r0 == 0)
  {
    hide Field, DecodeHeader, DecodeBytes, DecodeAck, Crc, Sent, ToBits, DataBits;
    var d := DecodeFrame(wire).value;
    var body;
    body, srr, r1, r0 := AcceptedFramesAreCoded(wire);
    f := Frame(d.header.id, d.header.extended, d.header.remote, d.dlc, d.data);
    if Sent(f.Coded()) <= wire {
      SentOnce(f.Coded(), body + ToBits(Crc(body) as nat, 15), wire);
      SameHeader(f, srr, r1, r0, f.Coded(), body);
    }
  }

  lemma SameHeader(f: Frame, srr: bit, r1: bit, r0: bit, coded: seq<bit>, body: seq<bit>)
    requires f.Valid() && f.HeaderBits() <= coded && body <= coded && HeaderAs(f.id, f.extended, f.remote, srr, r1, r0) <= body
    ensures !f.extended || (srr == 1 && r1 == 0 && r0 == 0)
  {
    hide ToBits;
    if f.extended {
      assert coded[12] == 1 && coded[33] == 0 && coded[34] == 0;
      assert coded[12] == srr && coded[33] == r1 && coded[34] == r0;
    }
  }

  /** A wire is the stuffing of one stream of a length. */
  lemma {:induction false} SentOnce(a: seq<bit>, b: seq<bit>, wire: seq<bit>)
    requires Sent(a) <= wire && Sent(b) <= wire && |a| == |b|
    ensures a == b
  {
    hide StuffBit;
    if a != [] {
      var n := |a| - 1;
      SentOnce(a[..n], b[..n], wire);
      assert wire[|Sent(a)| - 1] == a[n] && wire[|Sent(b)| - 1] == b[n];
      assert a == a[..n] + [a[n]] && b == b[..n] + [b[n]];
    }
  }

  lemma CheckIsCoded(wire: seq<bit>, r: Reader, r': Reader, crc: nat)
    requires Sound(wire, r) && Field(wire, r.(record := false), 15) == Some((r', crc)) && !r'.stuffErr
    ensures Sent(r.bits + ToBits(crc, 15)) <= wire
  {
    UnrecordedIsRecorded(wire, r, 15);
    FieldStaysSound(wire, r, 15);
    var (q, v) := Field(wire, r, 15).value;
    assert q.bits == r.bits + q.bits[|r.bits|..];
    BitsOfValue(q.bits[|r.bits|..]);
  }

  lemma {:induction false} UnrecordedIsRecorded(wire: seq<bit>, r: Reader, n: nat)
    requires Field(wire, r.(record := false), n).Some?
    ensures Field(wire, r, n).Some?
    ensures var (q, v) := Field(wire, r, n).value;
            && Field(wire, r.(record := false), n).value.1 == v
            && Field(wire, r.(record := false), n).value.0 == q.(record := false, bits := r.bits)
            && q.record == r.record
  {
    if n > 0 {
      UnrecordedIsRecorded(wire, r, n - 1);
      SameNext(wire, Field(wire, r, n - 1).value.0, r.bits);
    }
  }

  lemma SameNext(wire: seq<bit>, r: Reader, kept: seq<bit>)
    ensures Next(wire, r).Some? == Next(wire, r.(record := false, bits := kept)).Some?
    ensures Next(wire, r).Some? ==>
              var (r', b) := Next(wire, r).value;
              Next(wire, r.(record := false, bits := kept)) == Some((r'.(record := false, bits := kept), b))
              && r'.record == r.record
  {
  }
}
