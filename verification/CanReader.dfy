/**
 The CAN reader as the object the decode of a frame advances, bit by bit along the
 wire, and that decode.
 */
module CanReader {
  import opened Basics
  import opened CanCrc
  import opened CanFrame

  class WireReader {
    const wire: seq<bit>
    var pos: nat
    var runVal: int
    var runLen: nat
    var stuffOn: bool
    var record: bool
    var stuffed: nat
    var stuffErr: bool
    var bits: seq<bit>

    ghost function View(): Reader
      reads this
    {
      Reader(pos, Tail(runVal, runLen), stuffOn, record, stuffed, stuffErr, bits)
    }

    constructor (wire: seq<bit>)
      ensures this.wire == wire && View() == AT_SOF
    {
      this.wire := wire;
      pos, runVal, runLen, stuffOn, record, stuffed, stuffErr, bits := 0, -1, 0, true, true, 0, false, [];
    }

    method ReadRaw() returns (v: Option<bit>)
      modifies this`pos
      ensures v == (if old(pos) < |wire| then Some(wire[old(pos)]) else None)
      ensures pos == old(pos) + 1
    {
      v := if pos < |wire| then Some(wire[pos]) else None;
      pos := pos + 1;
    }

    method NextBit() returns (v: Option<bit>)
      modifies this
      ensures v.Some? <==> Next(wire, old(View())).Some?
      ensures v.Some? ==> Next(wire, old(View())) == Some((View(), v.value))
    {
      if stuffOn && runLen >= 5 {
        var s := ReadRaw();
        if s.None? {
          return None;
        }
        stuffed := stuffed + 1;
        if s.value == runVal {
          stuffErr := true;
        }
        runVal, runLen := s.value, 1;
      }
      v := ReadRaw();
      if v.None? {
        return None;
      }
      if v.value == runVal {
        runLen := runLen + 1;
      } else {
        runVal, runLen := v.value, 1;
      }
      if record {
        bits := bits + [v.value];
      }
    }

    method ReadField(n: nat) returns (val: Option<nat>)
      modifies this
      ensures val.Some? <==> Field(wire, old(View()), n).Some?
      ensures val.Some? ==> Field(wire, old(View()), n) == Some((View(), val.value))
    {
      hide Next;
      ghost var start := View();
      var v: nat := 0;
      for k := 0 to n
        invariant Field(wire, start, k) == Some((View(), v))
      {
        ghost var before := View();
        var b := NextBit();
        if b.None? {
          FieldCut(wire, start, k + 1, n);
          return None;
        }
        v := 2 * v + b.value;
      }
      return Some(v);
    }

    method ReadHeader() returns (h: Option<Header>)
      modifies this
      ensures h.Some? <==> DecodeHeader(wire, old(View())).Some?
      ensures h.Some? ==> DecodeHeader(wire, old(View())) == Some((View(), h.value))
    {
      hide Field;
      var sof := ReadField(1);
      if sof.None? || sof.value != 0 {
        return None;
      }
      var baseID :- ReadField(11);
      var b1 :- ReadField(1);
      var ide :- ReadField(1);
      if ide == 1 {
        var extID :- ReadField(18);
        var rtr :- ReadField(1);
        var res1 :- ReadField(1);
        var res0 :- ReadField(1);
        return Some(Header(baseID * 0x4_0000 + extID, true, rtr == 1, false));
      }
      var fdf :- ReadField(1);
      if fdf == 1 {
        var res :- ReadField(1);
        var brs :- ReadField(1);
        var esi :- ReadField(1);
        return Some(Header(baseID, false, false, true));
      }
      return Some(Header(baseID, false, b1 == 1, false));
    }

    method ReadData(n: nat) returns (data: Option<seq<nat>>)
      modifies this
      ensures data.Some? <==> DecodeBytes(wire, old(View()), n).Some?
      ensures data.Some? ==> DecodeBytes(wire, old(View()), n) == Some((View(), data.value))
    {
      hide Field;
      ghost var start := View();
      var bytes := [];
      for k := 0 to n
        invariant DecodeBytes(wire, start, k) == Some((View(), bytes))
      {
        var b := ReadField(8);
        if b.None? {
          BytesCut(wire, start, k + 1, n);
          return None;
        }
        bytes := bytes + [b.value];
      }
      return Some(bytes);
    }

    method ReadAck() returns (ack: Option<bool>)
      modifies this
      ensures ack == DecodeAck(wire, old(View()))
    {
      hide Field;
      var delimiter := ReadField(1);
      if delimiter.None? {
        return None;
      }
      stuffOn := false;
      var a := ReadField(1);
      return if a.None? then None else Some(a.value == 0);
    }
  }

  lemma {:induction false} FieldCut(wire: seq<bit>, r: Reader, k: nat, n: nat)
    requires k <= n && Field(wire, r, k).None?
    ensures Field(wire, r, n).None?
    decreases n
  {
    if k < n {
      FieldCut(wire, r, k, n - 1);
    }
  }

  lemma {:induction false} BytesCut(wire: seq<bit>, r: Reader, k: nat, n: nat)
    requires k <= n && DecodeBytes(wire, r, k).None?
    ensures DecodeBytes(wire, r, n).None?
    decreases n
  {
    if k < n {
      BytesCut(wire, r, k, n - 1);
    }
  }

  /** Decodes the frame whose start bit the wire begins with; None for one cut short or a false start. */
  method DecodeOneFrame(wire: seq<bit>) returns (frame: Option<Decoded>)
    ensures frame == DecodeFrame(wire)
    ensures forall f: Frame, ack: bit :: f.Valid() && f.Wire(ack) <= wire ==>
              frame.Some? && frame.value.header.id == f.id && frame.value.data == f.data && frame.value.crcOK
  {
    hide Field, Crc, Frame.Wire;
    forall f: Frame, ack: bit | f.Valid() && f.Wire(ack) <= wire
      ensures DecodeFrame(wire).Some? && DecodeFrame(wire).value.header.id == f.id
              && DecodeFrame(wire).value.data == f.data && DecodeFrame(wire).value.crcOK
    {
      FramesDecode(f, ack, wire);
    }
    var r := new WireReader(wire);
    var h :- r.ReadHeader();
    var dlc :- r.ReadField(4);
    var nBytes := dlc;
    if h.fd {
      nBytes := FdDataLen(dlc);
    } else if nBytes > 8 {
      nBytes := 8;
    }
    if h.remote {
      nBytes := 0;
    }
    var data :- r.ReadData(nBytes);
    if h.fd {
      return Some(Decoded(h, dlc, data, None, false, None));
    }
    var want := CanCrc15(r.bits);
    r.record := false;
    var crc :- r.ReadField(15);
    var ok := crc == want as nat && !r.stuffErr;
    var ack := r.ReadAck();
    return Some(Decoded(h, dlc, data, Some(crc), ok, ack));
  }
}
