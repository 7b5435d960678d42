/**
 I2C transfers as clean levels of the two lines, and back: whatever a bus sends,
 each level held for as long as it likes, decodes to itself.
 */
module I2cEncoding {
  import opened Basics
  import opened I2c

  type Address = a: nat | a < 128

  /** What a bus does: a START (a repeated one inside a transfer), an address of seven bits with its direction and its
      acknowledge bit, a data byte with its own, a byte broken off after some of its bits, a STOP. */
  datatype Event = S | A(addr: Address, read: bool, ack: bit) | B(byte: byte, ack: bit) | Broken(bits: seq<bit>) | P

  function Init(es: seq<Event>): seq<Event>
    requires es != []
  {
    es[..|es| - 1]
  }

  function InTxn(es: seq<Event>): bool {
    es != [] && !es[|es| - 1].P?
  }

  /** The bits of a byte broken off at the end. */
  function Loose(es: seq<Event>): nat {
    if es != [] && es[|es| - 1].Broken? then |es[|es| - 1].bits| else 0
  }

  function ExpectsAddr(es: seq<Event>): bool {
    es != [] && es[|es| - 1].S?
  }

  /** An address after a START and nowhere else; bytes and STOPs only inside a transfer; a byte broken off has up to six
      bits, and a START or a STOP after it. */
  predicate Valid(es: seq<Event>) {
    es == [] ||
    var before, e := Init(es), es[|es| - 1];
    && Valid(before) && (e.S? || InTxn(before))
    && (e.A? ==> ExpectsAddr(before)) && (e.B? ==> !ExpectsAddr(before))
    && (e.Broken? ==> |e.bits| <= 6)
    && (before != [] && before[|before| - 1].Broken? ==> e.S? || e.P?)
  }

  // ---------------------------------------------------------------- what should be read

  function EventTokens(e: Event): seq<Token> {
    match e
    case S => [START]
    case A(addr, read, ack) => [ADDR(addr), if read then READ else WRITE, if ack == 0 then ACK else NAK]
    case B(v, ack) => [DATA(v), if ack == 0 then ACK else NAK]
    case Broken(_) => []
    case P => [STOP]
  }

  function Tokens(es: seq<Event>): seq<Token> {
    if es == [] then [] else Tokens(Init(es)) + EventTokens(es[|es| - 1])
  }

  function DataOf(es: seq<Event>): seq<nat> {
    if es == [] then []
    else
      var e := es[|es| - 1];
      DataOf(Init(es)) + if e.B? then [e.byte] else []
  }

  // ---------------------------------------------------------------- levels

  function At(cl: bit, da: bit): Sample {
    Sample(cl, da, da)
  }

  /** A bit: SDA set while SCL is low, SCL high, SCL low. */
  function BitLevels(b: bit): seq<Sample> {
    [At(0, b), At(1, b), At(0, b)]
  }

  function AllBitLevels(bits: seq<bit>): seq<Sample> {
    if bits == [] then [] else AllBitLevels(bits[..|bits| - 1]) + BitLevels(bits[|bits| - 1])
  }

  /** SDA falls or rises while SCL is high; inside a transfer SCL is raised for it first. The bits of an address and of a
      byte go most significant first, then the direction, 1 for a read, then the acknowledge. */
  function EventLevels(inTxn: bool, e: Event): seq<Sample> {
    match e
    case S => (if inTxn then [At(0, 1), At(1, 1)] else []) + [At(1, 0), At(0, 0)]
    case A(addr, read, ack) => AllBitLevels(ToBits(addr, 7) + [if read then 1 else 0] + [ack])
    case B(v, ack) => AllBitLevels(ToBits(v, 8) + [ack])
    case Broken(bits) => AllBitLevels(bits)
    case P => [At(0, 0), At(1, 0), At(1, 1)]
  }

  const IDLE := Sample(1, 1, 1)

  /** The levels of a bus that is idle, then does es. */
  function Levels(es: seq<Event>): (w: seq<Sample>)
    ensures w != []
  {
    if es == [] then [IDLE] else Levels(Init(es)) + EventLevels(InTxn(Init(es)), es[|es| - 1])
  }

  // ---------------------------------------------------------------- holding a level longer

  /** The levels without how long each is held. */
  function Squeeze(w: seq<Sample>): seq<Sample> {
    if |w| <= 1 then w
    else
      var p := w[..|w| - 1];
      if w[|w| - 1] == p[|p| - 1] then Squeeze(p) else Squeeze(p) + [w[|w| - 1]]
  }

  lemma {:induction false} SqueezeLast(w: seq<Sample>)
    requires w != []
    ensures Squeeze(w) != [] && Squeeze(w)[|Squeeze(w)| - 1] == w[|w| - 1]
  {
    if |w| > 1 {
      SqueezeLast(w[..|w| - 1]);
    }
  }

  /** How long a level is held makes no difference to what is decoded. */
  lemma {:induction false} WalkOfSqueeze(w: seq<Sample>)
    ensures Walk(Squeeze(w)).core == Walk(w).core
  {
    hide Walk, Squeeze, StepCore, Step;
    if |w| <= 1 {
      SqueezeOne(w);
    } else {
      var p, cur := w[..|w| - 1], w[|w| - 1];
      var prev, q := p[|p| - 1], Squeeze(p);
      assert w == p + [cur];
      WalkOfSqueeze(p);
      SqueezeLast(p);
      SqueezeNext(p, cur);
      WalkMore(p, cur);
      if cur == prev {
        QuietStep(Walk(p), |p|, prev, cur);
        StepIsCore(Walk(p), |p|, prev, cur);
      } else {
        WalkMore(q, cur);
      }
    }
  }

  lemma SqueezeOne(w: seq<Sample>)
    requires |w| <= 1
    ensures Squeeze(w) == w
  {
  }

  lemma SqueezeNext(p: seq<Sample>, cur: Sample)
    requires p != []
    ensures Squeeze(p + [cur]) == if cur == p[|p| - 1] then Squeeze(p) else Squeeze(p) + [cur]
  {
    assert (p + [cur])[..|p|] == p;
  }

  lemma WalkMore(p: seq<Sample>, cur: Sample)
    requires p != []
    ensures Walk(p + [cur]).core == StepCore(Walk(p).core, p[|p| - 1], cur)
  {
    hide Step, StepCore;
    var w := p + [cur];
    assert w[..|w| - 1] == p && w[|w| - 2] == p[|p| - 1] && w[|w| - 1] == cur;
    StepIsCore(Walk(p), |p|, p[|p| - 1], cur);
  }

  lemma StepIsCore(s: State, i: int, prev: Sample, cur: Sample)
    ensures Step(s, i, prev, cur).core == StepCore(s.core, prev, cur)
  {
  }

  // ---------------------------------------------------------------- the machine over an event's levels

  /** The machine's core over further levels. */
  function Over(c: Core, prev: Sample, more: seq<Sample>): Core {
    if more == [] then c
    else
      var n := |more| - 1;
      StepCore(Over(c, prev, more[..n]), if n == 0 then prev else more[n - 1], more[n])
  }

  lemma {:induction false} OverAppends(c: Core, prev: Sample, x: seq<Sample>, y: seq<Sample>)
    ensures Over(c, prev, x + y) == Over(Over(c, prev, x), if x == [] then prev else x[|x| - 1], y)
  {
    if y == [] {
      assert x + y == x;
    } else {
      var n := |y| - 1;
      OverAppends(c, prev, x, y[..n]);
      assert (x + y)[..|x + y| - 1] == x + y[..n];
    }
  }

  lemma {:induction false} WalkOver(w: seq<Sample>, more: seq<Sample>)
    requires w != []
    ensures Walk(w + more).core == Over(Walk(w).core, w[|w| - 1], more)
  {
    hide Step;
    if more == [] {
      assert w + more == w;
    } else {
      var n := |more| - 1;
      WalkOver(w, more[..n]);
      assert (w + more)[..|w + more| - 1] == w + more[..n];
      var u := w + more[..n];
      StepIsCore(Walk(u), |u|, u[|u| - 1], more[n]);
    }
  }

  /** Two and three levels, a step at a time. */
  lemma OverThree(c: Core, prev: Sample, x: Sample, y: Sample, z: Sample)
    ensures Over(c, prev, [x, y]) == StepCore(StepCore(c, prev, x), x, y)
    ensures Over(c, prev, [x, y, z]) == StepCore(Over(c, prev, [x, y]), y, z)
  {
    hide StepCore;
    assert [x, y, z][..2] == [x, y] && [x, y][..1] == [x] && [x][..0] == [];
    assert Over(c, prev, [x]) == StepCore(Over(c, prev, []), prev, x);
  }

  /** One bit's levels, from SCL low: the bit is taken once. */
  lemma BitIsTaken(c: Core, prev: Sample, b: bit)
    requires c.inTxn && prev.cl == 0
    ensures Over(c, prev, BitLevels(b)) == TakeBit(c, b)
  {
    OverThree(c, prev, At(0, b), At(1, b), At(0, b));
  }

  lemma {:induction false} AllBitLevelsEnd(bits: seq<bit>)
    requires bits != []
    ensures AllBitLevels(bits) != [] && AllBitLevels(bits)[|AllBitLevels(bits)| - 1].cl == 0
  {
  }

  /** Up to seven bits of a byte only gather its value. */
  lemma {:induction false} BitsGather(c: Core, prev: Sample, bits: seq<bit>)
    requires c.inTxn && prev.cl == 0 && c.bitCount == 0 && |bits| <= 7
    ensures Over(c, prev, AllBitLevels(bits)) == if bits == [] then c else c.(bitCount := |bits|, val := Value(bits))
  {
    if bits != [] {
      var p, b := bits[..|bits| - 1], bits[|bits| - 1];
      BitsGather(c, prev, p);
      OneMoreBit(c, prev, p, b);
      assert bits == p + [b];
    }
  }

  /** The levels of one more bit after others. */
  lemma OneMoreBit(c: Core, prev: Sample, p: seq<bit>, b: bit)
    requires c.inTxn && prev.cl == 0 && Over(c, prev, AllBitLevels(p)).inTxn
    ensures Over(c, prev, AllBitLevels(p + [b])) == TakeBit(Over(c, prev, AllBitLevels(p)), b)
  {
    assert (p + [b])[..|p|] == p;
    OverAppends(c, prev, AllBitLevels(p), BitLevels(b));
    if p != [] {
      AllBitLevelsEnd(p);
    }
    BitIsTaken(Over(c, prev, AllBitLevels(p)), if p == [] then prev else AllBitLevels(p)[|AllBitLevels(p)| - 1], b);
  }

  /** Eight bits are an address or a data byte, the ninth its acknowledge. */
  lemma ByteIsTaken(c: Core, prev: Sample, v: byte, ack: bit)
    requires c.inTxn && prev.cl == 0 && c.bitCount == 0
    ensures Over(c, prev, AllBitLevels(ToBits(v, 8) + [ack]))
            == c.(expectAddr := false, bitCount := 0, val := 0,
               toks := c.toks + (if c.expectAddr then [ADDR(v / 2), if v % 2 == 1 then READ else WRITE] else [DATA(v)])
                       + [if ack == 0 then ACK else NAK],
               bytes := if c.expectAddr then c.bytes else c.bytes + [v])
  {
    hide StepCore, Over, AllBitLevels, ToBits, Value;
    var bits := ToBits(v, 8);
    var p, b := bits[..7], bits[7];
    assert bits == p + [b];
    ByteValue(v);
    BitsGather(c, prev, p);
    OneMoreBit(c, prev, p, b);
    var c8 := Over(c, prev, AllBitLevels(bits));
    assert c8 == c.(bitCount := 8, val := v, toks := c.toks + ByteTokens(c.expectAddr, v), expectAddr := false,
                 bytes := if c.expectAddr then c.bytes else c.bytes + [v]);
    OneMoreBit(c, prev, bits, ack);
  }

  lemma ByteValue(v: byte)
    ensures var bits := ToBits(v, 8); 2 * Value(bits[..7]) + bits[7] == v
  {
    assert Pow2(4) == 16 && Pow2(8) == 16 * Pow2(4);
    ValueOfBits(v, 8);
  }

  /** A STOP, and a repeated START, inside a transfer: SCL rises for them, and a bit is taken there first. */
  lemma ExtraBitIsTaken(c: Core, prev: Sample)
    requires c.inTxn && prev.cl == 0
    ensures var t := TakeBit(c, 0);
            Over(c, prev, EventLevels(true, P)) == t.(inTxn := false, bitCount := 0, toks := t.toks + [STOP])
    ensures var t := TakeBit(c, 1);
            Over(c, prev, EventLevels(true, S)) == Core(true, true, 0, 0, t.toks + [START], t.bytes)
  {
    OverThree(c, prev, At(0, 0), At(1, 0), At(1, 1));
    OverAppends(c, prev, [At(0, 1), At(1, 1)], [At(1, 0), At(0, 0)]);
    OverThree(c, prev, At(0, 1), At(1, 1), At(1, 1));
    OverThree(Over(c, prev, [At(0, 1), At(1, 1)]), At(1, 1), At(1, 0), At(0, 0), At(0, 0));
  }

  /** That bit is left out of what is decoded if and only if fewer than seven bits of a byte came before it. */
  lemma ExtraBitIsDropped(c: Core, prev: Sample)
    requires c.inTxn && prev.cl == 0
    ensures var p := Over(c, prev, EventLevels(true, P));
            && !p.inTxn && p.bitCount == 0
            && (p.toks == c.toks + [STOP] && p.bytes == c.bytes <==> c.bitCount < 7)
    ensures var s := Over(c, prev, EventLevels(true, S));
            && s.inTxn && s.expectAddr && s.bitCount == 0
            && (s.toks == c.toks + [START] && s.bytes == c.bytes <==> c.bitCount < 7)
  {
    hide Over, EventLevels;
    ExtraBitIsTaken(c, prev);
    assert |c.toks + [STOP]| == |c.toks| + 1 == |c.toks + [START]|;
  }

  /** A data byte broken off by a STOP after seven bits is read as a byte that was never sent; one broken off after
      eight has the extra bit for its acknowledge. */
  lemma SevenBitsMakeAByte(c: Core, prev: Sample)
    requires c.inTxn && prev.cl == 0 && !c.expectAddr
    ensures var p := Over(c, prev, EventLevels(true, P));
            && (c.bitCount == 7 ==> p.bytes == c.bytes + [2 * c.val] && p.toks == c.toks + [DATA(2 * c.val), STOP])
            && (c.bitCount == 8 ==> p.bytes == c.bytes && p.toks == c.toks + [ACK, STOP])
  {
    hide Over, EventLevels;
    ExtraBitIsTaken(c, prev);
    assert c.toks + [DATA(2 * c.val), STOP] == c.toks + [DATA(2 * c.val)] + [STOP];
    assert c.toks + [ACK, STOP] == c.toks + [ACK] + [STOP];
  }

  lemma NoBitLevels(c: Core, prev: Sample)
    ensures AllBitLevels([]) == [] && Over(c, prev, []) == c
  {
  }

  lemma StartFromIdle(c: Core)
    requires !c.inTxn
    ensures Over(c, IDLE, EventLevels(false, S)) == Core(true, true, 0, 0, c.toks + [START], c.bytes)
  {
    assert EventLevels(false, S) == [At(1, 0), At(0, 0)];
    OverThree(c, IDLE, At(1, 0), At(0, 0), At(0, 0));
  }

  /** Where the lines and the machine are once es are done. */
  predicate Done(es: seq<Event>, c: Core, last: Sample) {
    && c.toks == Tokens(es) && c.bytes == DataOf(es) && c.inTxn == InTxn(es)
    && (InTxn(es) ==> c.bitCount == Loose(es) && last.cl == 0)
    && (InTxn(es) && !es[|es| - 1].Broken? ==> c.expectAddr == ExpectsAddr(es))
    && (!InTxn(es) ==> last == IDLE)
  }

  /** An address and a direction are a byte: the address doubled, and one for a read. */
  lemma AddressByte(addr: Address, read: bool)
    ensures var v: byte := 2 * addr + if read then 1 else 0;
            ToBits(v, 8) == ToBits(addr, 7) + [if read then 1 else 0] && v / 2 == addr && v % 2 == (if read then 1 else 0)
  {
  }

  lemma Three(t: seq<Token>, x: Token, y: Token, z: Token)
    ensures t + [x, y] + [z] == t + [x, y, z] && t + [x] + [y] == t + [x, y]
  {
  }

  lemma EventGrows(before: seq<Event>, e: Event)
    ensures Init(before + [e]) == before && Tokens(before + [e]) == Tokens(before) + EventTokens(e)
    ensures DataOf(before + [e]) == DataOf(before) + if e.B? then [e.byte] else []
  {
    assert Init(before + [e]) == before;
  }

  lemma AddressIsDone(before: seq<Event>, addr: Address, read: bool, ack: bit, c: Core, last: Sample)
    requires Valid(before + [A(addr, read, ack)]) && Done(before, c, last)
    ensures var more := EventLevels(InTxn(before), A(addr, read, ack));
            more != [] && Done(before + [A(addr, read, ack)], Over(c, last, more), more[|more| - 1])
  {
    hide Step, StepCore, TakeBit, Over, AllBitLevels, ToBits, Tokens, DataOf;
    EventGrows(before, A(addr, read, ack));
    var v: byte := 2 * addr + if read then 1 else 0;
    AddressByte(addr, read);
    ByteIsTaken(c, last, v, ack);
    AllBitLevelsEnd(ToBits(v, 8) + [ack]);
    Three(c.toks, ADDR(addr), if read then READ else WRITE, if ack == 0 then ACK else NAK);
    assert c.bytes + [] == c.bytes;
  }

  lemma ByteIsDone(before: seq<Event>, v: byte, ack: bit, c: Core, last: Sample)
    requires Valid(before + [B(v, ack)]) && Done(before, c, last)
    ensures var more := EventLevels(InTxn(before), B(v, ack));
            more != [] && Done(before + [B(v, ack)], Over(c, last, more), more[|more| - 1])
  {
    hide Step, StepCore, TakeBit, Over, AllBitLevels, ToBits, Tokens, DataOf;
    EventGrows(before, B(v, ack));
    ByteIsTaken(c, last, v, ack);
    AllBitLevelsEnd(ToBits(v, 8) + [ack]);
    Three(c.toks, DATA(v), if ack == 0 then ACK else NAK, START);
  }

  lemma EventIsDone(before: seq<Event>, e: Event, c: Core, last: Sample)
    requires Valid(before + [e]) && Done(before, c, last)
    ensures var more := EventLevels(InTxn(before), e);
            Done(before + [e], Over(c, last, more), if more == [] then last else more[|more| - 1])
  {
    hide Step, StepCore, TakeBit, Over, AllBitLevels, ToBits, Tokens, DataOf;
    EventGrows(before, e);
    match e {
      case S =>
        if InTxn(before) {
          ExtraBitIsDropped(c, last);
        } else {
          StartFromIdle(c);
        }
      case A(addr, read, ack) => AddressIsDone(before, addr, read, ack, c, last);
      case B(v, ack) => ByteIsDone(before, v, ack, c, last);
      case Broken(bits) =>
        BitsGather(c, last, bits);
        if bits != [] {
          AllBitLevelsEnd(bits);
        } else {
          NoBitLevels(c, last);
        }
        assert c.toks + [] == c.toks && c.bytes + [] == c.bytes;
      case P =>
        ExtraBitIsDropped(c, last);
    }
  }

  lemma {:induction false} LevelsDecode(es: seq<Event>)
    requires Valid(es)
    ensures Done(es, Walk(Levels(es)).core, Levels(es)[|Levels(es)| - 1])
  {
    hide Over, Walk, Done, EventLevels, Tokens, DataOf, Loose, InTxn, ExpectsAddr;
    if es == [] {
      IdleIsDone();
    } else {
      var before, e := Init(es), es[|es| - 1];
      LevelsDecode(before);
      var w := Levels(before);
      assert es == before + [e];
      EventIsDone(before, e, Walk(w).core, w[|w| - 1]);
      WalkOver(w, EventLevels(InTxn(before), e));
    }
  }

  lemma IdleIsDone()
    ensures Done([], Walk([IDLE]).core, IDLE)
  {
  }

  /** Any list of transfers, as levels each held for any time, decodes to its own tokens and data bytes. */
  lemma TransfersDecode(es: seq<Event>, w: seq<Sample>)
    requires Valid(es) && Squeeze(w) == Squeeze(Levels(es))
    ensures Walk(w).core.toks == Tokens(es) && Walk(w).core.bytes == DataOf(es)
    ensures Walk(w).core.inTxn == InTxn(es)
  {
    hide Step, Walk, Squeeze;
    WalkOfSqueeze(w);
    WalkOfSqueeze(Levels(es));
    LevelsDecode(es);
  }
}
