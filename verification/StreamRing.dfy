/**
 The acquisition worker's stream ring, shared with the app: the worker reserves
 free room, its DMA fills the room, a commit makes the bytes readable; the app
 reads them where they landed and gives them back in its next request.

 Worker is the value of the ring's state. StreamWorker, below, is the object the
 worker updates in place; its methods are proved to do what Worker's functions
 say. The two processes together are System, a state machine over Step.
 */
module StreamRing {
  import opened Basics

  /** Ring positions lo up to hi. */
  datatype Piece = Piece(lo: nat, hi: nat) {
    predicate Holds(p: int) {
      lo <= p < hi
    }
  }

  datatype Reservation = Room(a: Piece, b: Piece) | Overflow {
    predicate Holds(p: int) {
      Room? && (a.Holds(p) || b.Holds(p))
    }
  }

  datatype PeekReply = Refused | Faulted | Ready(first: nat, at: int, count: int)

  datatype WordsReply = WordsRefused | WordsFaulted | Words(first: nat, bytes: seq<byte>)

  datatype Worker = Worker(on: bool, shared: bool, ring: seq<byte>, head: int, count: int,
                           first: nat, expected: nat, fault: bool)
  {
    predicate Valid() {
      && 0 < |ring| < TWO31
      && 0 <= head < |ring|
      && 0 <= count <= |ring|
      && first < TWO64
    }

    /** n ring bytes from the k-th after head, in ring order. */
    function Bytes(k: nat, n: nat): (s: seq<byte>)
      requires Valid() && k + n <= |ring|
      ensures |s| == n
    {
      seq(n, i requires 0 <= i < n => ring[Wrap(head + k + i, |ring|)])
    }

    /** The ring position of the k-th queued byte. */
    function QueuePos(k: nat): (p: nat)
      requires Valid() && k <= count
      ensures p < |ring|
    {
      Wrap(head + k, |ring|)
    }

    function Contents(): (s: seq<byte>)
      requires Valid()
    {
      Bytes(0, count)
    }

    function Tail(): (t: nat)
      requires Valid()
      ensures t < |ring|
    {
      QueuePos(count)
    }

    function Reserve(n: nat): (r: Reservation)
      requires Valid()
    {
      if count + n > |ring| then Overflow
      else
        var a := Piece(Tail(), Min(|ring|, Tail() + n));
        Room(a, Piece(0, n - (a.hi - a.lo)))
    }

    function Commit(n: nat): Worker {
      this.(count := count + n)
    }

    /** How far ring position p lies past the tail, going round. */
    function PastTail(p: nat): (d: nat)
      requires Valid() && p < |ring|
    {
      if p >= Tail() then p - Tail() else p + |ring| - Tail()
    }

    function Write(bs: seq<byte>): Worker
      requires Valid() && count + |bs| <= |ring|
    {
      this.(ring := seq(|ring|, p requires 0 <= p < |ring| =>
                                  if PastTail(p) < |bs| then bs[PastTail(p)] else ring[p]),
      count := count + |bs|)
    }

    function Release(n: nat): Worker
      requires Valid() && n <= count
    {
      this.(head := Wrap(head + n, |ring|), count := count - n, first := (first + n / 4) % TWO64)
    }

    /** A release past a signed 32-bit word is negative where it is compared with the count, and not refused. */
    predicate PeekAccepted(release: nat) {
      on && shared && release % 4 == 0 && (release <= count || release >= TWO31)
    }

    /** The worker after such a release, in 32 bits. */
    function Overdrawn(release: nat): Worker
      requires Valid() && TWO31 <= release < TWO32
    {
      var more := TWO32 - release;
      this.(head := Rem(head - more, |ring|), count := Int32(count + more), first := (first + release / 4) % TWO64)
    }

    /** The worker after a peek, and what the peek answers. */
    function Peek(release: nat): (Worker, PeekReply)
      requires Valid() && release < TWO32
    {
      if !PeekAccepted(release) then (this, Refused)
      else
        var w := if release < TWO31 then Release(release) else Overdrawn(release);
        (w, if fault then Faulted else Ready(w.first, w.head, w.count))
    }

    /** The bytes a copying read of at most limit reply bytes takes: an 8-byte ordinal goes before them. */
    function Amount(limit: int): (n: nat)
      requires Valid() && limit >= 8
      ensures n <= count && n % 4 == 0 && n + 8 <= limit
    {
      Min(limit - 8, count) / 4 * 4
    }

    function ReadWords(limit: int): (Worker, WordsReply)
      requires Valid()
    {
      if limit < 8 || !on then (this, WordsRefused)
      else if fault then (this, WordsFaulted)
      else (Release(Amount(limit)), Words(first, Bytes(0, Amount(limit))))
    }

    function PumpOn(yes: bool): Worker {
      this.(on := yes, expected := 0, head := 0, count := 0, first := 0, fault := false)
    }

    /** A recalled record, in the idle ring's first bytes. */
    function Recall(bs: seq<byte>): Worker
      requires |bs| <= |ring|
    {
      this.(ring := bs + ring[|bs|..])
    }
  }

  /** The app's two slices of a ring of n bytes, for the place and length a peek answered. */
  function Slices(n: nat, at: int, count: int): (r: Option<(Piece, Piece)>)
  {
    if !(0 <= at < n) || !(0 <= count <= n) then None
    else
      var a := Piece(at, Min(n, at + count));
      Some((a, Piece(0, count - (a.hi - a.lo))))
  }

  function ReadSlices(ring: seq<byte>, a: Piece, b: Piece): seq<byte>
    requires a.lo <= a.hi <= |ring| && b.lo <= b.hi <= |ring|
  {
    ring[a.lo..a.hi] + ring[b.lo..b.hi]
  }

  /** The slices a peek answers read exactly the queued bytes, in order. */
  lemma SlicesReadTheQueue(w: Worker, n: nat)
    requires w.Valid() && n <= w.count
    ensures Slices(|w.ring|, w.head, n).Some?
    ensures var (a, b) := Slices(|w.ring|, w.head, n).value;
            a.lo <= a.hi <= |w.ring| && b.lo <= b.hi <= |w.ring| && ReadSlices(w.ring, a, b) == w.Bytes(0, n)
  {
    var (a, b) := Slices(|w.ring|, w.head, n).value;
    var s := ReadSlices(w.ring, a, b);
    assert |s| == n;
    forall i | 0 <= i < n ensures s[i] == w.Bytes(0, n)[i] {
      if i < a.hi - a.lo {
        assert s[i] == w.ring[a.lo + i];
      } else {
        assert s[i] == w.ring[i - (a.hi - a.lo)];
      }
      assert w.Bytes(0, n)[i] == w.ring[Wrap(w.head + 0 + i, |w.ring|)];
    }
  }

  lemma QueueIsItsBytes(w: Worker)
    requires w.Valid()
    ensures w.Bytes(0, w.count) == w.Contents()
  {
  }

  /** Room handed out for a drain holds no queued byte. */
  lemma RoomIsFree(w: Worker, n: nat, k: nat)
    requires w.Valid() && k < w.count
    ensures !w.Reserve(n).Holds(w.QueuePos(k))
  {
  }

  /** The room of a reservation is the n positions after the tail, each once. */
  lemma RoomIsAfterTail(w: Worker, n: nat, p: nat)
    requires w.Valid() && w.count + n <= |w.ring| && p < |w.ring|
    ensures w.Reserve(n).Holds(p) <==> w.PastTail(p) < n
  {
  }

  function Overlay(ring: seq<byte>, at: nat, bs: seq<byte>): (r: seq<byte>)
    requires at + |bs| <= |ring|
    ensures |r| == |ring|
  {
    ring[..at] + bs + ring[at + |bs|..]
  }

  /** Writing k more bytes of bs, up to the ring's end, is a copy to consecutive positions. */
  lemma WritePiece(w: Worker, bs: seq<byte>, done: nat, k: nat)
    requires w.Valid() && w.count + |bs| <= |w.ring| && done + k <= |bs|
    requires Wrap(w.head + w.count + done, |w.ring|) + k <= |w.ring|
    ensures var at := Wrap(w.head + w.count + done, |w.ring|);
            w.Write(bs[..done + k]).ring == Overlay(w.Write(bs[..done]).ring, at, bs[done..done + k])
  {
    var at := Wrap(w.head + w.count + done, |w.ring|);
    var s, t := w.Write(bs[..done + k]).ring, Overlay(w.Write(bs[..done]).ring, at, bs[done..done + k]);
    forall p | 0 <= p < |w.ring| ensures s[p] == t[p] {
      if at <= p < at + k {
        assert w.PastTail(p) == done + (p - at);
      } else {
        assert w.PastTail(p) < done || w.PastTail(p) >= done + k;
      }
    }
  }

  /** Taking k more queued bytes, up to the ring's end, is a copy of consecutive positions. */
  lemma ReadPiece(w: Worker, done: nat, k: nat)
    requires w.Valid() && done + k <= |w.ring|
    requires Wrap(w.head + done, |w.ring|) + k <= |w.ring|
    ensures var at := Wrap(w.head + done, |w.ring|);
            w.Bytes(0, done + k) == w.Bytes(0, done) + w.ring[at..at + k]
  {
    var at := Wrap(w.head + done, |w.ring|);
    var s, t := w.Bytes(0, done + k), w.Bytes(0, done) + w.ring[at..at + k];
    forall i | 0 <= i < done + k ensures s[i] == t[i] {
      assert s[i] == w.ring[Wrap(w.head + 0 + i, |w.ring|)];
    }
  }

  lemma WriteAppends(w: Worker, bs: seq<byte>)
    requires w.Valid() && w.count + |bs| <= |w.ring|
    ensures w.Write(bs).Valid()
    ensures w.Write(bs).Contents() == w.Contents() + bs
    ensures forall p :: 0 <= p < |w.ring| && !w.Reserve(|bs|).Holds(p) ==> w.Write(bs).ring[p] == w.ring[p]
  {
    var v := w.Write(bs);
    forall i | 0 <= i < v.count ensures v.Contents()[i] == (w.Contents() + bs)[i] {
      var p := Wrap(w.head + i, |w.ring|);
      assert v.Contents()[i] == v.ring[p];
      if i < w.count {
        RoomIsFree(w, |bs|, i);
        RoomIsAfterTail(w, |bs|, p);
        assert w.Contents()[i] == w.ring[p];
      } else {
        assert w.PastTail(p) == i - w.count;
      }
    }
    forall p | 0 <= p < |w.ring| && !w.Reserve(|bs|).Holds(p) ensures v.ring[p] == w.ring[p] {
      RoomIsAfterTail(w, |bs|, p);
    }
  }

  /** The worker's comparison and its arithmetic, in 32 bits. */
  lemma SignedRelease(w: Worker, release: nat)
    requires w.Valid() && release < TWO32
    ensures var r := Int32(release);
            && (w.PeekAccepted(release) <==> w.on && w.shared && !(r > w.count || release % 4 != 0))
            && (w.PeekAccepted(release) ==>
                  w.Peek(release).0 == w.(head := Rem(w.head + r, |w.ring|), count := Int32(w.count - r),
                                          first := (w.first + release / 4) % TWO64))
  {
    hide Worker.Contents, Worker.Bytes;
    var r := Int32(release);
    if release < TWO31 {
      assert r == release;
      if release <= w.count {
        WrapIsMod(w.head + release, |w.ring|);
      }
    } else {
      assert r == release - TWO32;
    }
  }

  /** A peek takes no bytes from the queue but those released, and adds none, exactly when the release is under 2^31:
      any multiple of 4 over it is accepted, whatever is queued. */
  lemma ReleasesAreBounded(w: Worker, release: nat)
    requires w.Valid() && w.PeekAccepted(release) && release < TWO32
    ensures var v := w.Peek(release).0;
            if release < TWO31 then v.Valid() && release <= w.count && w.Contents() == w.Bytes(0, release) + v.Contents()
            else !(0 <= v.count <= w.count)
  {
    if release < TWO31 {
      ReleaseDrops(w, release);
    }
  }

  /** Four bytes queued, and 2^32 - 4 given back: eight bytes queued, from before the ring's start. */
  lemma OverdrawnPeek()
    ensures var w := Worker(true, true, [0, 0, 0, 0, 0, 0, 0, 0], 0, 4, 0, 1, false);
            w.Valid() && w.Peek(0xFFFF_FFFC) == (w.(head := -4, count := 8, first := 0x3FFF_FFFF), Ready(0x3FFF_FFFF, -4, 8))
  {
  }

  lemma ReleaseDrops(w: Worker, n: nat)
    requires w.Valid() && n <= w.count
    ensures w.Release(n).Valid()
    ensures w.Contents() == w.Bytes(0, n) + w.Release(n).Contents()
  {
    var v := w.Release(n);
    forall i | n <= i < w.count ensures w.Contents()[i] == v.Contents()[i - n] {
      assert w.Contents()[i] == w.ring[Wrap(w.head + i, |w.ring|)];
      assert v.Contents()[i - n] == w.ring[Wrap(v.head + (i - n), |w.ring|)];
    }
  }

  // ---------------------------------------------------------------- both processes

  /** What the app holds of its last peek: two slices of the live ring, and what they read then. */
  datatype Loan = Loan(first: nat, a: Piece, b: Piece, seen: seq<byte>)

  /** drained and released are histories since the pump started: the bytes committed to the ring
      and the bytes taken from it. */
  datatype System = System(w: Worker, room: Option<nat>, loan: Option<Loan>,
                           drained: seq<byte>, released: seq<byte>)

  datatype Step =
    | Reserve(n: nat)         // a bank is found and its room asked for
    | Fill(p: nat, v: byte)   // the DMA lands a byte in the room
    | Commit                  // every check passed
    | CommitThenFail          // the bank's release write failed after the commit
    | Fail                    // any other error of a drain
    | Copy(bs: seq<byte>)     // a bank written through a buffer
    | Peek(release: nat)      // the app's request: give back what it has, and look
    | ReadWords(limit: nat)   // the app's request: copy words out
    | Pump(on: bool)          // the app's request: start or stop
    | Recall(bs: seq<byte>)   // the app's request: a record through the idle ring

  /** The worker is one thread: it serves a request between drains, never inside one. */
  predicate Enabled(s: System, step: Step)
    requires s.w.Valid()
  {
    match step
    case Reserve(n) => s.w.on && !s.w.fault && s.room.None? && n > 0 && n % 4 == 0
    case Fill(p, v) => s.room.Some? && s.w.Reserve(s.room.value).Holds(p) && p < |s.w.ring|
    case Commit => s.room.Some?
    case CommitThenFail => s.room.Some?
    case Fail => s.w.on
    case Copy(bs) => s.w.on && !s.w.fault && s.room.None? && |bs| > 0 && |bs| % 4 == 0
    case Peek(release) => s.room.None? && release < TWO31
    case ReadWords(_) => s.room.None?
    case Pump(_) => s.room.None?
    case Recall(bs) => s.room.None? && !s.w.on && s.w.shared && |bs| <= |s.w.ring|
  }

  function Committed(s: System): System
    requires s.w.Valid() && s.room.Some? && s.w.count + s.room.value <= |s.w.ring|
  {
    var n := s.room.value;
    s.(w := s.w.Commit(n).(expected := s.w.expected + n / 4), room := None,
    drained := s.drained + s.w.Bytes(s.w.count, n))
  }

  function Next(s: System, step: Step): System
    requires s.w.Valid() && Enabled(s, step)
    requires s.room.Some? ==> s.w.count + s.room.value <= |s.w.ring|
  {
    match step
    case Reserve(n) => if s.w.Reserve(n).Room? then s.(room := Some(n)) else s.(w := s.w.(fault := true))
    case Fill(p, v) => s.(w := s.w.(ring := s.w.ring[p := v]))
    case Commit => Committed(s)
    case CommitThenFail =>
      var c := Committed(s);
      c.(w := c.w.(expected := s.w.expected, fault := true))
    case Fail => s.(w := s.w.(fault := true), room := None)
    case Copy(bs) =>
      if s.w.count + |bs| > |s.w.ring| then s.(w := s.w.(fault := true))
      else s.(w := s.w.Write(bs).(expected := s.w.expected + |bs| / 4), drained := s.drained + bs)
    case Peek(release) =>
      var (w, reply) := s.w.Peek(release);
      if reply.Refused? then s
      else
        s.(w := w, released := s.released + s.w.Bytes(0, release),
        loan := if reply.Ready? then Lend(w, reply) else None)
    case ReadWords(limit) =>
      var (w, reply) := s.w.ReadWords(limit);
      if reply.Words? then s.(w := w, released := s.released + reply.bytes, loan := None) else s
    case Pump(on) => System(s.w.PumpOn(on), None, None, [], [])
    case Recall(bs) => s.(w := s.w.Recall(bs))
  }

  /** What the app makes of a peek's answer. */
  function Lend(w: Worker, reply: PeekReply): Option<Loan>
    requires w.Valid() && reply.Ready?
  {
    match Slices(|w.ring|, reply.at, reply.count)
    case None => None
    case Some((a, b)) =>
      if a.hi <= |w.ring| && b.hi <= |w.ring| then
        Some(Loan(reply.first, a, b, ReadSlices(w.ring, a, b)))
      else None
  }

  /** The loaned slices are the queue's first bytes, still as the app saw them. */
  predicate LoanHolds(s: System)
    requires s.w.Valid() && s.loan.Some?
  {
    var l := s.loan.value;
    && |l.seen| <= s.w.count
    && Slices(|s.w.ring|, s.w.head, |l.seen|) == Some((l.a, l.b))
    && l.seen == s.w.Bytes(0, |l.seen|)
    && l.first == s.w.first
  }

  predicate Inv(s: System) {
    && s.w.Valid()
    && (s.room.Some? ==> s.w.on && s.w.count + s.room.value <= |s.w.ring| && s.room.value % 4 == 0 && !s.w.fault)
    && (!s.w.on ==> s.room.None? && s.loan.None? && s.w.count == 0)
    && s.released + s.w.Contents() == s.drained
    && |s.released| % 4 == 0 && |s.drained| % 4 == 0
    && s.w.first == |s.released| / 4 % TWO64
    && (!s.w.fault ==> |s.drained| == 4 * s.w.expected)
    && (s.loan.Some? ==> LoanHolds(s))
  }

  /** A step that only appends to the queue leaves the loan as the app saw it. */
  lemma LoanKept(s: System, t: System)
    requires s.w.Valid() && t.w.Valid() && t.loan == s.loan && (s.loan.Some? ==> LoanHolds(s))
    requires |t.w.ring| == |s.w.ring| && t.w.head == s.w.head && t.w.first == s.w.first
    requires s.w.Contents() <= t.w.Contents()
    ensures t.loan.Some? ==> LoanHolds(t)
  {
    if s.loan.Some? {
      var n := |s.loan.value.seen|;
      assert t.w.Bytes(0, n) == t.w.Contents()[..n] == s.w.Contents()[..n] == s.w.Bytes(0, n);
    }
  }

  lemma FillKeepsInv(s: System, p: nat, v: byte)
    requires Inv(s) && Enabled(s, Fill(p, v))
    ensures Inv(Next(s, Fill(p, v)))
  {
    var t := Next(s, Fill(p, v));
    forall k | 0 <= k < s.w.count ensures t.w.Contents()[k] == s.w.Contents()[k] {
      RoomIsFree(s.w, s.room.value, k);
    }
    assert t.w.Contents() == s.w.Contents();
    LoanKept(s, t);
  }

  /** A step that appends a bank to the queue, its ordinal counted, keeps the invariant. */
  lemma AppendKeepsInv(s: System, v: Worker, bs: seq<byte>)
    requires Inv(s) && s.w.on && !s.w.fault && |bs| % 4 == 0
    requires v.Valid() && v.on && !v.fault && |v.ring| == |s.w.ring| && v.head == s.w.head && v.first == s.w.first
    requires v.Contents() == s.w.Contents() + bs && v.expected == s.w.expected + |bs| / 4
    ensures Inv(s.(w := v, room := None, drained := s.drained + bs))
  {
    hide Worker.Contents, Worker.Bytes, LoanHolds;
    assert s.w.Contents() <= v.Contents();
    LoanKept(s, s.(w := v, room := None, drained := s.drained + bs));
  }

  lemma CommitKeepsInv(s: System)
    requires Inv(s) && s.room.Some?
    ensures Inv(Committed(s))
  {
    var t := Committed(s);
    var bs := s.w.Bytes(s.w.count, s.room.value);
    assert t.w.Contents() == s.w.Contents() + bs;
    AppendKeepsInv(s, t.w, bs);
  }

  lemma CopyKeepsInv(s: System, bs: seq<byte>)
    requires Inv(s) && Enabled(s, Copy(bs))
    ensures Inv(Next(s, Copy(bs)))
  {
    if s.w.count + |bs| <= |s.w.ring| {
      WriteAppends(s.w, bs);
      var v := s.w.Write(bs).(expected := s.w.expected + |bs| / 4);
      SameQueue(s.w.Write(bs), v);
      AppendKeepsInv(s, v, bs);
      assert Next(s, Copy(bs)) == s.(w := v, room := None, drained := s.drained + bs);
    } else {
      var v := s.w.(fault := true);
      SameQueue(s.w, v);
      LoanKept(s, s.(w := v));
    }
  }

  /** The queue is a matter of the ring, head and count alone. */
  lemma SameQueue(w: Worker, v: Worker)
    requires w.Valid() && v == w.(expected := v.expected, fault := v.fault)
    ensures v.Valid() && v.Contents() == w.Contents()
  {
  }

  lemma ReleaseKeepsInv(s: System, n: nat, t: System)
    requires Inv(s) && s.w.on && s.room.None? && n <= s.w.count && n % 4 == 0
    requires t == s.(w := s.w.Release(n), released := s.released + s.w.Bytes(0, n), loan := None)
    ensures Inv(t)
  {
    hide Worker.Contents, Worker.Bytes, LoanHolds;
    ReleaseDrops(s.w, n);
    OrdinalMoves(|s.released|, n, s.w.first);
    assert t.released + t.w.Contents() == s.released + s.w.Contents();
  }

  lemma OrdinalMoves(released: nat, n: nat, first: nat)
    requires released % 4 == 0 && n % 4 == 0 && first == released / 4 % TWO64
    ensures (released + n) % 4 == 0 && (first + n / 4) % TWO64 == (released + n) / 4 % TWO64
  {
    var a, b := released / 4, n / 4;
    assert released + n == 4 * (a + b);
    AddMod(a, b);
  }

  lemma AddMod(a: nat, b: nat)
    ensures (a % TWO64 + b) % TWO64 == (a + b) % TWO64
  {
    var c := a % TWO64 + b;
    DivModIs(a + b, TWO64, a / TWO64 + c / TWO64, c % TWO64);
  }

  lemma PeekKeepsInv(s: System, release: nat)
    requires Inv(s) && Enabled(s, Peek(release))
    ensures Inv(Next(s, Peek(release)))
  {
    if s.w.PeekAccepted(release) {
      var t := Next(s, Peek(release));
      ReleaseKeepsInv(s, release, t.(loan := None));
      SlicesReadTheQueue(t.w, t.w.count);
    }
  }

  /** Every step of either process keeps the invariant. */
  lemma NextKeepsInv(s: System, step: Step)
    requires Inv(s) && Enabled(s, step)
    ensures Inv(Next(s, step))
  {
    match step
    case Fill(p, v) => FillKeepsInv(s, p, v);
    case Commit => CommitKeepsInv(s);
    case CommitThenFail =>
      CommitKeepsInv(s);
      assert Next(s, step).w.Contents() == Committed(s).w.Contents();
    case Copy(bs) => CopyKeepsInv(s, bs);
    case Peek(release) => PeekKeepsInv(s, release);
    case ReadWords(limit) =>
      if s.w.on && limit >= 8 && !s.w.fault {
        ReleaseKeepsInv(s, s.w.Amount(limit), Next(s, step));
      }
    case Reserve(n) =>
      assert Next(s, step).w.Contents() == s.w.Contents();
    case Fail =>
      assert Next(s, step).w.Contents() == s.w.Contents();
    case Pump(on) =>
    case Recall(bs) =>
  }

  // ---------------------------------------------------------------- whole runs

  function Start(shared: bool, ring: seq<byte>): (s: System)
    ensures 0 < |ring| < TWO31 ==> Inv(s)
  {
    System(Worker(false, shared, ring, 0, 0, 0, 0, false), None, None, [], [])
  }

  /** The steps can be taken one after the other from s. */
  predicate CanRun(s: System, steps: seq<Step>)
    requires Inv(s)
    decreases |steps|
  {
    steps == [] || (Enabled(s, steps[0]) && (NextKeepsInv(s, steps[0]); CanRun(Next(s, steps[0]), steps[1..])))
  }

  /** Where the steps lead. No interleaving of the two processes loses, repeats or reorders a byte: what the
      app gave back, then what is queued, is what was drained, and first is the ordinal of the next word. */
  function Run(s: System, steps: seq<Step>): (t: System)
    requires Inv(s) && CanRun(s, steps)
    ensures Inv(t)
    ensures t.released + t.w.Contents() == t.drained
    ensures t.w.first == |t.released| / 4 % TWO64
    decreases |steps|
  {
    if steps == [] then s
    else
      NextKeepsInv(s, steps[0]);
      Run(Next(s, steps[0]), steps[1..])
  }

  /** A request that ends the loan: another look, a copying read, the pump's start or stop. */
  predicate EndsLoan(step: Step) {
    step.Peek? || step.ReadWords? || step.Pump?
  }

  /** What a peek returned stays as it was, in the live ring, whatever the worker does until the app asks
      again: the app reads memory another process is filling and never sees it change. */
  lemma {:induction false} LoanUnchanged(s: System, steps: seq<Step>)
    requires Inv(s) && CanRun(s, steps) && s.loan.Some?
    requires forall step :: step in steps ==> !EndsLoan(step)
    ensures var l := s.loan.value;
            var ring := Run(s, steps).w.ring;
            l.a.lo <= l.a.hi <= |ring| && l.b.lo <= l.b.hi <= |ring| && ReadSlices(ring, l.a, l.b) == l.seen
    decreases |steps|
  {
    if steps == [] {
      SlicesReadTheQueue(s.w, |s.loan.value.seen|);
    } else {
      NextKeepsInv(s, steps[0]);
      assert !EndsLoan(steps[0]);
      assert Next(s, steps[0]).loan == s.loan;
      LoanUnchanged(Next(s, steps[0]), steps[1..]);
    }
  }

  /** A peek that is answered lends exactly the bytes drained and not yet given back, from their ordinal on. */
  lemma PeekLendsTheRest(s: System, release: nat)
    requires Inv(s) && Enabled(s, Peek(release)) && s.w.Peek(release).1.Ready?
    ensures var t := Next(s, Peek(release));
            && t.loan.Some? && t.released == s.drained[..|s.released| + release]
            && t.loan.value.seen == s.drained[|s.released| + release..]
            && t.loan.value.first == (|s.released| + release) / 4 % TWO64
  {
    NextKeepsInv(s, Peek(release));
    var t := Next(s, Peek(release));
    SlicesReadTheQueue(t.w, t.w.count);
    assert t.drained[..|t.released|] == t.released;
    assert t.drained[|t.released|..] == t.w.Contents();
  }

  /** What a commit adds to the bytes drained is what lies in the two pieces reserved, first the one then the other. */
  lemma CommitDrainsTheRoom(s: System)
    requires Inv(s) && s.room.Some?
    ensures var n, room := s.room.value, s.w.Reserve(s.room.value);
            && room.Room? && room.a.lo <= room.a.hi <= |s.w.ring| && room.b.lo <= room.b.hi <= |s.w.ring|
            && Next(s, Commit).drained == s.drained + s.w.ring[room.a.lo..room.a.hi] + s.w.ring[room.b.lo..room.b.hi]
            && |Next(s, Commit).drained| == |s.drained| + n
  {
    var n, room := s.room.value, s.w.Reserve(s.room.value);
    var s1, s2 := s.w.Bytes(s.w.count, n), s.w.ring[room.a.lo..room.a.hi] + s.w.ring[room.b.lo..room.b.hi];
    forall i | 0 <= i < n ensures s1[i] == s2[i] {
      var p := Wrap(s.w.head + s.w.count + i, |s.w.ring|);
      assert s1[i] == s.w.ring[p];
    }
    assert s1 == s2;
    assert s.drained + s2 == s.drained + s.w.ring[room.a.lo..room.a.hi] + s.w.ring[room.b.lo..room.b.hi];
  }

  /** Which peeks are answered: those of a shared pump without a fault that give back whole words they were lent. */
  lemma PeekIsAnswered(s: System, release: nat)
    requires Inv(s) && Enabled(s, Peek(release))
    ensures var gives := s.w.on && s.w.shared && release % 4 == 0 && release <= |s.drained| - |s.released|;
            var reply := s.w.Peek(release).1;
            && (reply.Ready? <==> gives && !s.w.fault) && (reply.Faulted? <==> gives && s.w.fault)
            && (!gives ==> Next(s, Peek(release)) == s)
            && (gives ==> Next(s, Peek(release)).released == s.drained[..|s.released| + release])
  {
    var gives := s.w.on && s.w.shared && release % 4 == 0 && release <= |s.drained| - |s.released|;
    assert |s.drained| == |s.released| + s.w.count;
    if gives {
      ReleaseDrops(s.w, release);
      assert s.drained[..|s.released|] == s.released;
      assert s.w.Contents() == s.drained[|s.released|..];
    }
  }

  /** A copying read gives the oldest words not yet given back, from their ordinal on: as many as are drained and as fit
      behind an ordinal of 8 bytes, and drops just them. */
  lemma ReadGivesTheOldest(s: System, limit: nat)
    requires Inv(s) && Enabled(s, ReadWords(limit))
    ensures var reply, t := s.w.ReadWords(limit).1, Next(s, ReadWords(limit));
            && (reply.Words? <==> limit >= 8 && s.w.on && !s.w.fault)
            && (reply.WordsFaulted? <==> limit >= 8 && s.w.on && s.w.fault)
            && if !reply.Words? then t == s
               else
                 var n, at := |reply.bytes|, |s.released|;
                 && n % 4 == 0 && at + n <= |s.drained| && n + 8 <= limit
                 && (at + n + 4 > |s.drained| || n + 4 + 8 > limit)
                 && reply.first == at / 4 % 0x1_0000_0000_0000_0000 && reply.bytes == s.drained[at..at + n]
                 && t.released == s.drained[..at + n] && t.drained == s.drained
  {
    hide Worker.Bytes, Worker.Contents, LoanHolds;
    if s.w.on && limit >= 8 && !s.w.fault {
      Oldest(s, s.w.Amount(limit));
      WordsFill(limit - 8, s.w.count);
    }
  }

  lemma Oldest(s: System, n: nat)
    requires Inv(s) && n <= s.w.count
    ensures |s.drained| == |s.released| + s.w.count && s.w.count % 4 == 0
    ensures s.w.Bytes(0, n) == s.drained[|s.released|..|s.released| + n]
    ensures s.released + s.w.Bytes(0, n) == s.drained[..|s.released| + n]
  {
    hide LoanHolds;
    var c := s.w.Contents();
    assert s.w.Bytes(0, n) == c[..n];
    Within(s.released, c, n);
  }

  lemma Within(a: seq<byte>, b: seq<byte>, n: nat)
    requires n <= |b|
    ensures (a + b)[|a|..|a| + n] == b[..n] && a + b[..n] == (a + b)[..|a| + n]
  {
  }

  lemma WordsFill(room: nat, waiting: nat)
    requires waiting % 4 == 0
    ensures var n := Min(room, waiting) / 4 * 4; n + 4 > room || n == waiting
  {
  }

  /** The pump starts, or stops, with nothing queued: the ordinals begin at 0, and words are answered just while it is on. */
  lemma PumpStartsAfresh(s: System, on: bool, limit: nat)
    requires Inv(s) && Enabled(s, Pump(on)) && limit >= 8
    ensures var t := Next(s, Pump(on));
            && t.drained == t.released == [] && t.w.Valid() && t.w.Contents() == []
            && t.w.ReadWords(limit).1 == if on then Words(0, []) else WordsRefused
  {
  }

  /** Loss is never silent: after an error nothing more is queued and no look is answered until the pump is
      started again. */
  lemma {:induction false} FaultIsSticky(s: System, steps: seq<Step>)
    requires Inv(s) && CanRun(s, steps) && s.w.fault
    requires forall step :: step in steps ==> !step.Pump?
    ensures var t := Run(s, steps);
            t.w.fault && t.drained == s.drained && (t.loan == s.loan || t.loan.None?)
    decreases |steps|
  {
    if steps != [] {
      NextKeepsInv(s, steps[0]);
      assert !steps[0].Pump?;
      FaultIsSticky(Next(s, steps[0]), steps[1..]);
    }
  }

  // ---------------------------------------------------------------- the object the worker updates

  class StreamWorker {
    var on: bool
    var shared: bool
    var ring: array<byte>
    var head: int
    var count: int
    var first: nat
    var expected: nat
    var fault: bool

    ghost function View(): Worker
      reads this, ring
    {
      Worker(on, shared, ring[..], head, count, first, expected, fault)
    }

    ghost predicate Valid()
      reads this, ring
    {
      View().Valid()
    }

    constructor (shared: bool, ring: array<byte>)
      requires 0 < ring.Length < TWO31
      ensures Valid() && this.ring == ring && View() == Start(shared, ring[..]).w
    {
      this.on, this.shared, this.ring := false, shared, ring;
      head, count, first, expected, fault := 0, 0, 0, 0, false;
    }

    /** Room for n bytes, in two pieces where it wraps. */
    method Reserve(n: nat) returns (r: Reservation)
      requires Valid()
      ensures r == View().Reserve(n)
      ensures r.Overflow? <==> count + n > ring.Length
      ensures r.Room? ==> r.a.lo <= r.a.hi <= ring.Length && r.b.lo <= r.b.hi <= ring.Length
                          && (r.a.hi - r.a.lo) + (r.b.hi - r.b.lo) == n
                          && forall k :: 0 <= k < count ==> !r.Holds(View().QueuePos(k))
    {
      if count + n > ring.Length {
        return Overflow;
      }
      WrapIsMod(head + count, ring.Length);
      var at := (head + count) % ring.Length;
      var a := Piece(at, Min(ring.Length, at + n));
      r := Room(a, Piece(0, n - (a.hi - a.lo)));
      forall k | 0 <= k < count ensures !r.Holds(View().QueuePos(k)) {
        RoomIsFree(View(), n, k);
      }
    }

    method Commit(n: nat)
      requires Valid() && count + n <= ring.Length
      modifies this`count
      ensures Valid() && View() == old(View()).Commit(n)
      ensures View().Contents() == old(View().Contents()) + old(View().Bytes(count, n))
    {
      count := count + n;
    }

    /** Appends b, a piece at a time where the ring wraps; all of it or none. */
    method Write(b: seq<byte>) returns (ok: bool)
      requires Valid()
      modifies this`count, ring
      ensures Valid()
      ensures ok <==> old(count) + |b| <= ring.Length
      ensures View() == if ok then old(View()).Write(b) else old(View())
      ensures View().Contents() == if ok then old(View().Contents()) + b else old(View().Contents())
    {
      hide Worker.Contents, Worker.Bytes, Overlay;
      if count + |b| > ring.Length {
        return false;
      }
      ghost var was := View();
      WriteAppends(was, b);
      var done := 0;
      while done < |b|
        invariant done <= |b| && View() == was.Write(b[..done])
      {
        WrapIsMod(head + count, ring.Length);
        var at := (head + count) % ring.Length;
        var k := Min(ring.Length, at + (|b| - done)) - at;
        WritePiece(was, b, done, k);
        CopyIn(at, b[done..done + k]);
        done := done + k;
        count := count + k;
      }
      assert b[..done] == b;
      return true;
    }

    method CopyIn(at: nat, b: seq<byte>)
      requires at + |b| <= ring.Length
      modifies ring
      ensures ring[..] == Overlay(old(ring[..]), at, b)
    {
      forall i | 0 <= i < |b| {
        ring[at + i] := b[i];
      }
    }

    /** Gives back release bytes and answers where the ready ones are. */
    method StreamPeek(release: nat) returns (reply: PeekReply)
      requires Valid() && release < TWO32
      modifies this`head, this`count, this`first
      ensures (View(), reply) == old(View()).Peek(release)
      ensures release < TWO31 ==> Valid()
      ensures release < TWO31 && !reply.Refused? ==>
                release <= old(count) && old(View().Contents()) == old(View().Bytes(0, release)) + View().Contents()
    {
      hide Int32, Rem, Worker.Contents, Worker.Bytes, Worker.Release, Worker.Overdrawn, Worker.PeekAccepted;
      SignedRelease(View(), release);
      if !on || !shared {
        return Refused;
      }
      var r := Int32(release);
      if r > count || release % 4 != 0 {
        return Refused;
      }
      ReleasesAreBounded(View(), release);
      head := Rem(head + r, ring.Length);
      count := Int32(count - r);
      first := (first + release / 4) % TWO64;
      if fault {
        return Faulted;
      }
      return Ready(first, head, count);
    }

    /** Copies whole words out, at most limit - 8 bytes of them, a piece at a time where the ring wraps. */
    method StreamWords(limit: int) returns (reply: WordsReply)
      requires Valid()
      modifies this`head, this`count, this`first
      ensures Valid() && (View(), reply) == old(View()).ReadWords(limit)
      ensures reply.Words? ==> old(View().Contents()) == reply.bytes + View().Contents()
    {
      if limit < 8 || !on {
        return WordsRefused;
      }
      if fault {
        return WordsFaulted;
      }
      var amount := Min(limit - 8, count) / 4 * 4;
      ReleaseDrops(View(), amount);
      var ordinal := first;
      var data := CopyOut(amount);
      count := count - amount;
      first := (first + amount / 4) % TWO64;
      return Words(ordinal, data);
    }

    method CopyOut(amount: nat) returns (data: seq<byte>)
      requires Valid() && amount <= count
      modifies this`head
      ensures head == Wrap(old(head) + amount, ring.Length) && data == old(View()).Bytes(0, amount)
    {
      ghost var was := View();
      data := [];
      while |data| < amount
        invariant |data| <= amount && head == Wrap(was.head + |data|, ring.Length)
        invariant data == was.Bytes(0, |data|)
      {
        var k := Min(ring.Length, head + (amount - |data|)) - head;
        WrapIsMod(head + k, ring.Length);
        ReadPiece(was, |data|, k);
        data := data + ring[head..head + k];
        head := (head + k) % ring.Length;
      }
    }

    method PumpOn(yes: bool)
      modifies this`on, this`expected, this`head, this`count, this`first, this`fault
      requires Valid()
      ensures Valid() && View() == old(View()).PumpOn(yes) && View().Contents() == []
    {
      on, expected, head, count, first, fault := yes, 0, 0, 0, 0, false;
    }
  }

  /** The app's side of a peek's answer: the slices it reads, nothing for an answer outside the ring. */
  lemma AppNeverRefusesTheWorker(w: Worker, release: nat)
    requires w.Valid() && release < TWO31 && w.Peek(release).1.Ready?
    ensures var (v, reply) := w.Peek(release);
            Slices(|w.ring|, reply.at, reply.count).Some?
            && Lend(v, reply) == Some(Loan(v.first, Slices(|w.ring|, reply.at, reply.count).value.0,
                                           Slices(|w.ring|, reply.at, reply.count).value.1, v.Contents()))
  {
    ReleaseDrops(w, release);
    SlicesReadTheQueue(w.Release(release), w.count - release);
  }
}
