/**
 The worker's handling of one request: which operation may do what while a decoded
 stream runs, and how long the reply may be.
 */
module WorkerHandle {
  import opened Basics
  import opened EventQueue
  import StreamRing
  import WorkerProtocol

  const HELLO: nat := 0
  const READ: nat := 1
  const WRITE: nat := 2
  const POP: nat := 3
  const TAKE_EVENTS: nat := 4
  const LINE_MODE: nat := 5
  const LINES: nat := 6
  const STREAM_PUMP: nat := 7
  const STREAM_WORDS: nat := 8
  const RECALL: nat := 9
  const PANEL: nat := 10
  const READ_MANY: nat := 11
  const WRITE_MANY: nat := 12
  const STREAM_PEEK: nat := 13
  const RECALL_SHARED: nat := 14
  const STACK_DOWNLOAD: nat := 15

  datatype Kind = Reads | Writes | Pops

  /** An access to the bus made for the app, and whether a decoded stream ran then. */
  datatype Access = Access(kind: Kind, plane: nat, sel: nat, value: nat, active: bool) {
    /** The decoded event port and the FIFO's controls, the worker's own. */
    predicate Owned() {
      match kind
      case Reads => plane == 1 && sel == 59
      case Pops => sel == 59
      case Writes => plane == 1 && (sel == 60 || sel == 76)
    }
  }

  predicate LeavesOwned(log: seq<Access>) {
    forall i :: 0 <= i < |log| && log[i].active ==> !log[i].Owned()
  }

  /** What the hardware comes to, in the order asked: words read or None, streams started or not, bytes. */
  datatype World = World(fast: bool, words: seq<Option<nat>>, starts: seq<Option<nat>>, ok: bool, bytes: seq<byte>) {
    function Word(i: nat): Option<nat> {
      if i < |words| then words[i] else None
    }

    function Started(i: nat): Option<nat> {
      if i < |starts| then starts[i] else None
    }

    function Bytes(n: nat): (b: seq<byte>)
      ensures |b| == n
    {
      seq(n, i requires 0 <= i < n => if i < |bytes| then bytes[i] else 0)
    }
  }

  /** The reads of a list of selectors, in order. */
  function ReadsOf(plane: nat, params: seq<byte>, active: bool): (r: seq<Access>)
    ensures |r| == |params| / 2
  {
    seq(|params| / 2, i requires 0 <= i < |params| / 2 =>
          Access(Reads, plane, SelAt(params, i), 0, active))
  }

  predicate ReadsFramed(plane: nat, params: seq<byte>, bytes: int) {
    |params| >= 2 && |params| % 2 == 0 && bytes == |params| && ValidPlane(plane)
  }

  function SelAt(params: seq<byte>, i: nat): nat
    requires 2 * i + 2 <= |params|
  {
    GetLE(params[2 * i..2 * i + 2])
  }

  /** Every read of the list is allowed, and gives its word. */
  predicate ReadsWell(plane: nat, params: seq<byte>, bytes: int, active: bool, w: World) {
    && ReadsFramed(plane, params, bytes)
    && forall i :: 0 <= i < |params| / 2 ==> ReadAllowed(plane, SelAt(params, i), active) && w.Word(i).Some?
  }

  predicate WritesFramed(plane: nat, params: seq<byte>, bytes: int) {
    bytes == 0 && |params| >= 4 && |params| % 4 == 0 && plane == 1
  }

  predicate WriteTook(params: seq<byte>, i: nat, w: World)
    requires 4 * i + 4 <= |params|
  {
    Took(1, SelOf(params, i), ValueOf(params, i), w.Word(i), w.Started(i))
  }

  /** Write i of a list is allowed, with the stream as those before it left it. */
  predicate WriteMay(q: Queue, params: seq<byte>, i: nat, w: World)
    requires 4 * i + 4 <= |params|
  {
    WriteAllowed(1, SelOf(params, i), AfterWrites(q, params, i, w).active)
  }

  /** The words read, 16 bits each. */
  function WordsRead(w: World, n: nat): (b: seq<byte>)
    ensures |b| == 2 * n
  {
    if n == 0 then []
    else WordsRead(w, n - 1) + PutLE(if w.Word(n - 1).Some? then w.Word(n - 1).value else 0, 2)
  }

  lemma NoneRead(plane: nat, params: seq<byte>, active: bool, w: World)
    ensures ReadsOf(plane, params, active)[..0] == [] && WordsRead(w, 0) == []
    ensures |ReadsOf(plane, params, active)| == |params| / 2
  {
  }

  lemma OneMoreRead(plane: nat, params: seq<byte>, active: bool, i: nat)
    requires 2 * i + 2 <= |params|
    ensures var r := ReadsOf(plane, params, active);
            i < |r| && r[..i + 1] == r[..i] + [Access(Reads, plane, SelAt(params, i), 0, active)]
  {
  }

  lemma WordsReadNext(w: World, i: nat)
    requires w.Word(i).Some?
    ensures WordsRead(w, i + 1) == WordsRead(w, i) + PutLE(w.Word(i).value, 2)
  {
  }

  /** A write to the stream's control register stops the stream, or starts one. */
  function AfterWrite(q: Queue, plane: nat, sel: nat, value: nat, start: Option<nat>): Queue {
    if plane == 1 && sel == 57 then q.Restarted(if value % 2 == 1 then start else None) else q
  }

  function SelOf(params: seq<byte>, i: nat): nat
    requires 4 * i + 4 <= |params|
  {
    GetLE(params[4 * i..4 * i + 2])
  }

  function ValueOf(params: seq<byte>, i: nat): nat
    requires 4 * i + 4 <= |params|
  {
    GetLE(params[4 * i + 2..4 * i + 4])
  }

  /** The queue after the first n of a list of writes. */
  function AfterWrites(q: Queue, params: seq<byte>, n: nat, w: World): Queue
    requires 4 * n <= |params|
  {
    if n == 0 then q
    else AfterWrite(AfterWrites(q, params, n - 1, w), 1, SelOf(params, n - 1), ValueOf(params, n - 1), w.Started(n - 1))
  }

  /** The first n writes of a list, each with the stream as those before it left it. */
  function WritesOf(q: Queue, params: seq<byte>, n: nat, w: World): seq<Access>
    requires 4 * n <= |params|
  {
    if n == 0 then []
    else
      WritesOf(q, params, n - 1, w)
      + [Access(Writes, 1, SelOf(params, n - 1), ValueOf(params, n - 1), AfterWrites(q, params, n - 1, w).active)]
  }

  lemma NoneWritten(q: Queue, params: seq<byte>, w: World)
    ensures AfterWrites(q, params, 0, w) == q && WritesOf(q, params, 0, w) == []
  {
  }

  lemma OneMoreWrite(q: Queue, params: seq<byte>, i: nat, w: World)
    requires 4 * i + 4 <= |params|
    ensures var now := AfterWrites(q, params, i, w);
            && WritesOf(q, params, i + 1, w)
               == WritesOf(q, params, i, w) + [Access(Writes, 1, SelOf(params, i), ValueOf(params, i), now.active)]
            && AfterWrites(q, params, i + 1, w) == AfterWrite(now, 1, SelOf(params, i), ValueOf(params, i), w.Started(i))
  {
  }

  /** A read the worker makes for the app: of a register, not of a running stream's event port. */
  predicate ReadAllowed(plane: nat, sel: nat, active: bool) {
    sel <= 127 && !(active && plane == 1 && sel == 59)
  }

  /** A write the worker makes for the app: to a register, not to a running stream's FIFO controls. */
  predicate WriteAllowed(plane: nat, sel: nat, active: bool) {
    sel <= 127 && !(active && plane == 1 && (sel == 60 || sel == 76))
  }

  /** The hardware took the write, and started the stream if the write asked for one. */
  predicate Took(plane: nat, sel: nat, value: nat, word: Option<nat>, start: Option<nat>) {
    word.Some? && !(plane == 1 && sel == 57 && value % 2 == 1 && start.None?)
  }

  predicate ValidPlane(plane: nat) {
    plane == 1 || plane == 3
  }

  function Flat(rs: seq<Record>): (b: seq<byte>)
    ensures |b| == EVENT_BYTES * |rs|
  {
    if rs == [] then [] else Flat(rs[..|rs| - 1]) + rs[|rs| - 1]
  }

  lemma {:induction false} FlatAppends(a: seq<Record>, b: seq<Record>)
    ensures Flat(a + b) == Flat(a) + Flat(b)
  {
    if b == [] {
      assert a + b == a;
    } else {
      assert (a + b)[..|a + b| - 1] == a + b[..|b| - 1];
      FlatAppends(a, b[..|b| - 1]);
    }
  }

  function WordsData(words: StreamRing.WordsReply): Reply {
    if words.Words? then Data(PutLE(words.first, 8) + words.bytes) else Refused
  }

  function PeekData(peek: StreamRing.PeekReply): Reply {
    if peek.Ready? then Data(PutLE(peek.first, 8) + PutLE(peek.at % TWO32, 4) + PutLE(peek.count % TWO32, 4)) else Refused
  }

  /** What a shared recall of size bytes does to the ring, and answers: the record goes into its first bytes when the
      ring is idle and the app shares it; 0 says it is the stream's, or too small. */
  ghost predicate SharedDoes(bytes: int, size: int, params: seq<byte>, was: StreamRing.Worker, now: StreamRing.Worker,
                             r: Reply, w: World)
  {
    if bytes != 4 || !RecallParams(params) || size == 0 then now == was && r == Refused
    else if was.on || !was.shared || size > |was.ring| then now == was && r == Data(PutLE(0, 4))
    else if size < 0 then now == was && r == Crashed
    else
      var n := Min(|w.bytes|, size);
      now == was.Recall(w.bytes[..n]) && r == if w.ok && n == size then Data(PutLE(size, 4)) else Refused
  }

  function SharedSize(sel: nat, value: nat): int {
    Int32(sel * 0x1_0000 + value)
  }

  predicate OnStream(op: nat) {
    op == STREAM_PUMP || op == STREAM_WORDS || op == STREAM_PEEK || op == RECALL_SHARED
  }

  /** What the stream's operations do to its ring, and answer. */
  ghost predicate StreamDoes(op: nat, sel: nat, value: nat, bytes: int, asked: nat, params: seq<byte>,
                             was: StreamRing.Worker, now: StreamRing.Worker, r: Reply, w: World)
    requires was.Valid() && asked < TWO32
  {
    && (op == RECALL_SHARED ==> SharedDoes(bytes, SharedSize(sel, value), params, was, now, r, w))
    && (op == STREAM_PUMP ==>
          if bytes != 0 then now == was && r == Refused
          else now == was.PumpOn(value % 2 == 1) && r == if w.ok then Data([]) else Refused)
    && (op == STREAM_WORDS ==> now == was.ReadWords(bytes).0 && r == WordsData(was.ReadWords(bytes).1))
    && (op == STREAM_PEEK ==> now == was.Peek(asked).0 && r == PeekData(was.Peek(asked).1))
  }

  /** What the event queue's operations do to it, and answer. */
  ghost predicate QueueDoes(op: nat, value: nat, bytes: int, asked: nat, was: Queue, now: Queue, r: Reply)
    requires was.Valid()
  {
    && (op == TAKE_EVENTS ==>
          if !was.Answers(bytes, asked) then now == was && r == Refused
          else if bytes < 0 then now == was && r == Crashed
          else now == was.Taken(was.Amount(bytes)) && r == Data(Flat(was.Contents()[..was.Amount(bytes)])))
    && (op == LINE_MODE ==>
          if was.active && bytes == 0 then now == was.LineMode(value != 0) && r == Data([])
          else now == was && r == Refused)
  }

  predicate OnQueue(op: nat) {
    op == TAKE_EVENTS || op == LINE_MODE
  }

  predicate LinesWaitFor(asked: nat, q: Queue) {
    q.active && q.lines.Some? && asked == q.epoch && q.fault.None?
  }

  /** What the operations that change nothing answer, and when; an unknown one is refused. */
  ghost predicate AnswerDoes(op: nat, bytes: int, asked: nat, params: seq<byte>, q: Queue, r: Reply, w: World) {
    && (op == HELLO ==> r == if bytes == 1 then Data([if w.fast then 1 else 0]) else Refused)
    && (op == LINES ==>
          if !LinesWaitFor(asked, q) then r == Refused
          else if bytes < 0 then r == Crashed
          else r == Data(w.bytes[..Min(|w.bytes|, bytes)]))
    && (op == RECALL ==>
          if bytes == 0 || !RecallParams(params) then r == Refused
          else if bytes < 0 then r == Crashed
          else r == if w.ok && |w.bytes| >= bytes then Data(w.bytes[..bytes]) else Refused)
    && (op == PANEL ==> r == if bytes == 22 && w.ok then Data(w.Bytes(22)) else Refused)
    && (op == STACK_DOWNLOAD ==> r == if bytes < 0 then Crashed else if w.ok then Data(w.Bytes(bytes)) else Refused)
    && (op > STACK_DOWNLOAD ==> r == Refused)
  }

  /** What a read makes on the bus, and answers. */
  ghost predicate ReadDoes(plane: nat, sel: nat, bytes: int, was: Queue, now: Queue, log: seq<Access>, after: seq<Access>,
                           r: Reply, w: World)
  {
    var made := bytes == 2 && ValidPlane(plane) && ReadAllowed(plane, sel, was.active);
    && now == was && after == log + (if made then [Access(Reads, plane, sel, 0, was.active)] else [])
    && r == if made && w.Word(0).Some? then Data(PutLE(w.Word(0).value, 2)) else Refused
  }

  /** Reads in order, up to the first that is not allowed or fails. */
  ghost predicate ReadsDo(plane: nat, params: seq<byte>, bytes: int, was: Queue, now: Queue, log: seq<Access>,
                          after: seq<Access>, r: Reply, w: World)
  {
    var made := |after| - |log|;
    && now == was && 0 <= made <= |params| / 2
    && after == log + ReadsOf(plane, params, was.active)[..made]
    && r == (if ReadsWell(plane, params, bytes, was.active, w) then Data(WordsRead(w, |params| / 2)) else Refused)
    && (r.Data? ==> made == |params| / 2 && |r.bytes| == bytes)
    && (forall k :: 0 <= k < made ==> ReadAllowed(plane, SelAt(params, k), was.active))
    && (if !ReadsFramed(plane, params, bytes) then made == 0
        else r.Refused? ==>
               || (made > 0 && w.Word(made - 1).None?)
               || (made < |params| / 2 && !ReadAllowed(plane, SelAt(params, made), was.active)
                   && (made > 0 ==> w.Word(made - 1).Some?)))
  }

  ghost predicate PopDoes(sel: nat, bytes: int, was: Queue, now: Queue, log: seq<Access>, after: seq<Access>,
                          r: Reply, w: World)
  {
    var asks := bytes != 0 && bytes % 2 == 0 && ReadAllowed(1, sel, was.active);
    && now == was && after == log + (if asks && bytes > 0 then [Access(Pops, 1, sel, 0, was.active)] else [])
    && r == if !asks then Refused else if bytes < 0 then Crashed else if w.ok then Data(w.Bytes(bytes)) else Refused
  }

  /** What a write makes on the bus, and answers; the stream it stops or starts. */
  ghost predicate WriteDoes(plane: nat, sel: nat, value: nat, bytes: int, was: Queue, now: Queue, log: seq<Access>,
                            after: seq<Access>, r: Reply, w: World)
  {
    var made := bytes == 0 && ValidPlane(plane) && !(plane == 3 && sel == 7) && WriteAllowed(plane, sel, was.active);
    && after == log + (if made then [Access(Writes, plane, sel, value, was.active)] else [])
    && now == (if made && w.Word(0).Some? then AfterWrite(was, plane, sel, value, w.Started(0)) else was)
    && r == if made && Took(plane, sel, value, w.Word(0), w.Started(0)) then Data([]) else Refused
  }

  /** Writes in order, up to the first that is not allowed or fails; one of them may stop or start the stream, and
      what is the worker's own changes with it. */
  ghost predicate WritesDo(plane: nat, params: seq<byte>, bytes: int, was: Queue, now: Queue, log: seq<Access>,
                           after: seq<Access>, r: Reply, w: World)
  {
    var made := |after| - |log|;
    && 0 <= made && 4 * made <= |params| && after == log + WritesOf(was, params, made, w)
    && now == AfterWrites(was, params, if made > 0 && w.Word(made - 1).None? then made - 1 else made, w)
    && (r == Refused || (r == Data([]) && bytes == 0))
    && (r.Data? ==> |params| == 4 * made && (forall k :: 0 <= k < made ==> WriteTook(params, k, w)))
    && (forall k :: 0 <= k < made ==> WriteMay(was, params, k, w))
    && (if !WritesFramed(plane, params, bytes) then made == 0 && r.Refused?
        else r.Refused? ==>
               || (made > 0 && !WriteTook(params, made - 1, w))
               || (4 * made < |params| && !WriteAllowed(1, SelOf(params, made), now.active)
                   && (made > 0 ==> WriteTook(params, made - 1, w))))
  }

  predicate OnRegisters(op: nat) {
    op == READ || op == READ_MANY || op == WRITE || op == WRITE_MANY || op == POP
  }

  /** The accesses to the bus that a request's operation makes, what it answers and the stream after it. */
  ghost predicate RegistersDo(op: nat, plane: nat, sel: nat, value: nat, bytes: int, params: seq<byte>, was: Queue, now: Queue,
                              log: seq<Access>, after: seq<Access>, r: Reply, w: World)
  {
    if op == READ then ReadDoes(plane, sel, bytes, was, now, log, after, r, w)
    else if op == READ_MANY then ReadsDo(plane, params, bytes, was, now, log, after, r, w)
    else if op == WRITE then WriteDoes(plane, sel, value, bytes, was, now, log, after, r, w)
    else if op == WRITE_MANY then WritesDo(plane, params, bytes, was, now, log, after, r, w)
    else if op == POP then PopDoes(sel, bytes, was, now, log, after, r, w)
    else after == log
  }

  /** The reply to a request is no longer than asked for, but for a peek's 16 bytes. */
  predicate Fits(op: nat, bytes: int, r: Reply) {
    r.Data? ==> |r.bytes| <= bytes || (op == STREAM_PEEK && |r.bytes| == 16)
  }

  predicate RecallParams(params: seq<byte>) {
    |params| >= 16 && (|params| - 4) % 12 == 0
  }

  /** A byte count, negative in a signed 32-bit word, that passes the upper bound and then cuts a slice. */
  predicate CutsBelow(op: nat, sel: nat, bytes: int, asked: nat, params: seq<byte>, q: Queue) {
    bytes < 0 &&
    if op == POP then bytes % 2 == 0 && ReadAllowed(1, sel, q.active)
    else if op == TAKE_EVENTS then q.Answers(bytes, asked)
    else if op == LINES then LinesWaitFor(asked, q)
    else if op == RECALL then RecallParams(params)
    else op == STACK_DOWNLOAD
  }

  /** The requests the worker does not survive: such a count, or such a size of a shared recall. */
  predicate Crashes(op: nat, sel: nat, value: nat, bytes: int, asked: nat, params: seq<byte>, q: Queue,
                    sw: StreamRing.Worker)
  {
    if op == RECALL_SHARED then
      bytes == 4 && RecallParams(params) && !sw.on && sw.shared && SharedSize(sel, value) < 0
    else CutsBelow(op, sel, bytes, asked, params, q)
  }

  /** What the operations of another kind leave to say. */
  lemma OthersDoNothing(op: nat, sel: nat, value: nat, bytes: int, asked: nat, params: seq<byte>,
                        sw: StreamRing.Worker, q: Queue, now: Queue, r: Reply, w: World)
    requires sw.Valid() && q.Valid() && asked < TWO32
    ensures !OnStream(op) ==> StreamDoes(op, sel, value, bytes, asked, params, sw, sw, r, w)
    ensures !OnQueue(op) ==> QueueDoes(op, value, bytes, asked, q, now, r)
    ensures OnStream(op) || OnQueue(op) || OnRegisters(op) ==> AnswerDoes(op, bytes, asked, params, q, r, w)
  {
  }

  /** What a request does to the two queues and answers, how long its reply may be, and when the worker does not survive it. */
  ghost predicate Serves(op: nat, sel: nat, value: nat, bytes: int, asked: nat, params: seq<byte>,
                         was: Queue, now: Queue, swWas: StreamRing.Worker, swNow: StreamRing.Worker, r: Reply, w: World)
    requires was.Valid() && swWas.Valid() && asked < TWO32
  {
    && Fits(op, bytes, r) && (r.Data? ==> bytes <= WorkerProtocol.PAYLOAD)
    && (op != WRITE && op != WRITE_MANY && !OnQueue(op) ==> now == was)
    && (!OnStream(op) ==> swNow == swWas)
    && (bytes <= WorkerProtocol.PAYLOAD ==>
          && StreamDoes(op, sel, value, bytes, asked, params, swWas, swNow, r, w)
          && QueueDoes(op, value, bytes, asked, was, now, r)
          && AnswerDoes(op, bytes, asked, params, was, r, w))
    && (bytes > WorkerProtocol.PAYLOAD ==> r == Refused && now == was && swNow == swWas)
    && (r.Crashed? <==> Crashes(op, sel, value, bytes, asked, params, was, swWas))
  }

  /** What a request is promised: of its effects on both queues and of its accesses. */
  ghost predicate Promises(op: nat, plane: nat, sel: nat, value: nat, bytes: int, asked: nat, params: seq<byte>,
                           was: State, now: State, r: Reply, w: World)
    requires was.Valid() && asked < TWO32
  {
    && Serves(op, sel, value, bytes, asked, params, was.q, now.q, was.sw, now.sw, r, w)
    && if bytes > WorkerProtocol.PAYLOAD then now.log == was.log
       else RegistersDo(op, plane, sel, value, bytes, params, was.q, now.q, was.log, now.log, r, w)
  }

  /** The worker as a request meets it, and leaves it. */
  datatype State = State(q: Queue, sw: StreamRing.Worker, log: seq<Access>) {
    predicate Valid() {
      q.Valid() && sw.Valid()
    }
  }

  /** The same of a packet, its byte count a signed 32-bit number. */
  ghost predicate Handled(request: WorkerProtocol.Packet, was: State, now: State, r: Reply, w: World)
    requires was.Valid() && |request| >= WorkerProtocol.HEADER
  {
    Promises(WorkerProtocol.U16At(request, 8), request[10], WorkerProtocol.U16At(request, 12),
             WorkerProtocol.U16At(request, 14), Int32(WorkerProtocol.U32At(request, 16)), WorkerProtocol.U32At(request, 20),
             request[WorkerProtocol.HEADER..], was, now, r, w)
  }

  class AcquisitionWorker {
    const ring: array<Record>
    var active: bool
    var epoch: nat
    var head: nat
    var count: nat
    var fault: Option<Fault>
    var lost: nat
    var lines: Option<seq<Line>>
    ghost var log: seq<Access>

    ghost function View(): Queue
      reads this, ring
    {
      Queue(active, epoch, ring[..], head, count, fault, lost, lines)
    }

    ghost predicate Valid()
      reads this, ring
    {
      View().Valid() && LeavesOwned(log)
    }

    constructor ()
      ensures Valid() && !active && count == 0 && fresh(ring) && log == []
    {
      ring := new Record[EVENTS](_ => seq(EVENT_BYTES, _ => 0));
      active, epoch, head, count, fault, lost, lines, log := false, 0, 0, 0, None, 0, None, [];
    }

    // -------------------------------------------------------------- the event queue

    method Pump(d: Drained)
      requires Valid()
      modifies this`count, this`fault, this`lost, this`lines, ring
      ensures Valid() && View() == old(View()).Pump(d)
    {
      if !active || fault.Some? {
        return;
      }
      if d.Failed? {
        fault := Some(Device);
        return;
      }
      if lines.Some? {
        lines := Some(lines.value + LinesOf(d.events));
        return;
      }
      ghost var was := View();
      var n := |d.events|;
      assert d.events[0..] == d.events;
      for i := 0 to n
        invariant View().Valid() && fault.None? && View().PushAll(d.events[i..], n) == was.PushAll(d.events, n)
      {
        assert d.events[i..][1..] == d.events[i + 1..];
        if count == EVENTS {
          fault, lost := Some(Overflow), lost + n;
          return;
        }
        WrapIsMod(head + count, EVENTS);
        var index := (head + count) % EVENTS;
        if !d.events[i].valid {
          fault := Some(Malformed);
          return;
        }
        ring[index] := d.events[i].rec;
        count := count + 1;
      }
    }

    /** Gives the oldest events, in two pieces where the ring wraps. */
    method TakeEvents(bytes: int, asked: nat, ghost value: nat) returns (r: Reply)
      requires Valid()
      modifies this`head, this`count
      ensures Valid()
      ensures QueueDoes(TAKE_EVENTS, value, bytes, asked, old(View()), View(), r)
      ensures r.Crashed? <==> bytes < 0 && old(View()).Answers(bytes, asked)
      ensures r.Data? ==> |r.bytes| <= bytes
    {
      hide Flat, LeavesOwned, Queue.Contents;
      if bytes == 0 || bytes % EVENT_BYTES != 0 || !active || asked != epoch {
        return Refused;
      }
      if fault.Some? {
        return Refused;
      }
      if bytes < 0 {
        return Crashed;
      }
      var amount := Min(bytes / EVENT_BYTES, count);
      var first := Min(amount, EVENTS - head);
      var data := Flat(ring[head..head + first]) + Flat(ring[..amount - first]);
      FlatAppends(ring[head..head + first], ring[..amount - first]);
      TwoPieces(View(), amount);
      WrapIsMod(head + amount, EVENTS);
      head := (head + amount) % EVENTS;
      count := count - amount;
      return Data(data);
    }

    /** Ends the stream, and starts one when asked and the hardware gives its epoch. */
    method Stream(enabled: bool, start: Option<nat>) returns (ok: bool)
      requires Valid()
      modifies this`active, this`epoch, this`head, this`count, this`fault, this`lines
      ensures Valid() && View() == old(View()).Restarted(if enabled then start else None)
      ensures ok <==> !enabled || start.Some?
    {
      lines, active, head, count, fault := None, false, 0, 0, None;
      if !enabled {
        return true;
      }
      if start.None? {
        return false;
      }
      epoch, active := start.value, true;
      return true;
    }

    method LineMode(bytes: int, value: nat, ghost asked: nat) returns (r: Reply)
      requires Valid()
      modifies this`head, this`count, this`fault, this`lost, this`lines
      ensures Valid() && r == (if old(active) && bytes == 0 then Data([]) else Refused)
      ensures View() == if r.Data? then old(View()).LineMode(value != 0) else old(View())
      ensures QueueDoes(LINE_MODE, value, bytes, asked, old(View()), View(), r)
    {
      if !active || bytes != 0 {
        return Refused;
      }
      if value == 0 {
        lines := None;
        return Data([]);
      }
      ghost var was := View();
      var ls := [];
      if fault == Some(Overflow) {
        fault := None;
        ls := [Loss(Min(lost, 0x8000_0000))];
      }
      lost := 0;
      ghost var mark, c, k := ls, was.Contents(), 0;
      assert c[..0] == [] && mark + TellAll([]) == mark;
      while count > 0
        invariant k + count == was.count && head == Wrap(was.head + k, EVENTS)
        invariant ls == mark + TellAll(c[..k])
        invariant active && lost == 0 && lines == was.lines
        invariant fault == if was.fault == Some(Overflow) then None else was.fault
      {
        TellNext(c, k);
        ls := ls + [Told(ring[head])];
        WrapIsMod(head + 1, EVENTS);
        head, count, k := (head + 1) % EVENTS, count - 1, k + 1;
      }
      assert c[..k] == c;
      lines := Some(ls);
      return Data([]);
    }

    // -------------------------------------------------------------- register operations

    /** An access for the app; the ports of a running stream are the worker's own. */
    ghost method Note(kind: Kind, plane: nat, sel: nat, value: nat)
      requires Valid() && (active ==> !Access(kind, plane, sel, value, true).Owned())
      modifies this`log
      ensures Valid() && log == old(log) + [Access(kind, plane, sel, value, active)]
    {
      log := log + [Access(kind, plane, sel, value, active)];
    }

    method ReadOne(plane: nat, sel: nat, bytes: int, w: World) returns (r: Reply)
      requires Valid()
      modifies this`log
      ensures Valid() && ReadDoes(plane, sel, bytes, old(View()), View(), old(log), log, r, w)
    {
      if bytes != 2 || !ValidPlane(plane) || sel > 127 {
        return Refused;
      }
      if active && plane == 1 && sel == 59 {
        return Refused;
      }
      Note(Reads, plane, sel, 0);
      if w.Word(0).None? {
        return Refused;
      }
      return Data(PutLE(w.Word(0).value, 2));
    }

    method ReadMany(plane: nat, params: seq<byte>, bytes: int, w: World) returns (r: Reply)
      requires Valid()
      modifies this`log
      ensures Valid() && ReadsDo(plane, params, bytes, old(View()), View(), old(log), log, r, w)
    {
      hide PutLE, SelAt, LeavesOwned, ReadsOf, WordsRead;
      NoneRead(plane, params, active, w);
      if |params| < 2 || |params| % 2 != 0 || bytes != |params| || !ValidPlane(plane) {
        return Refused;
      }
      var data := [];
      var i := 0;
      while 2 * i < |params|
        invariant 2 * i <= |params| && data == WordsRead(w, i)
        invariant Valid() && View() == old(View()) && log == old(log) + ReadsOf(plane, params, active)[..i]
        invariant forall k :: 0 <= k < i ==> ReadAllowed(plane, SelAt(params, k), active) && w.Word(k).Some?
      {
        var s := SelAt(params, i);
        if s > 127 || (active && plane == 1 && s == 59) {
          return Refused;
        }
        OneMoreRead(plane, params, active, i);
        Note(Reads, plane, s, 0);
        if w.Word(i).None? {
          return Refused;
        }
        WordsReadNext(w, i);
        data := data + PutLE(w.Word(i).value, 2);
        i := i + 1;
      }
      return Data(data);
    }

    method PopMany(sel: nat, bytes: int, w: World) returns (r: Reply)
      requires Valid()
      modifies this`log
      ensures Valid() && PopDoes(sel, bytes, old(View()), View(), old(log), log, r, w)
    {
      if bytes == 0 || bytes % 2 != 0 || sel > 127 || (active && sel == 59) {
        return Refused;
      }
      if bytes < 0 {
        return Crashed;
      }
      Note(Pops, 1, sel, 0);
      if !w.ok {
        return Refused;
      }
      return Data(w.Bytes(bytes));
    }

    method WriteOne(plane: nat, sel: nat, value: nat, bytes: int, w: World) returns (r: Reply)
      requires Valid()
      modifies this`log, this`active, this`epoch, this`head, this`count, this`fault, this`lines
      ensures Valid() && WriteDoes(plane, sel, value, bytes, old(View()), View(), old(log), log, r, w)
    {
      if bytes != 0 || !ValidPlane(plane) || sel > 127 || (plane == 3 && sel == 7) {
        return Refused;
      }
      if active && plane == 1 && (sel == 60 || sel == 76) {
        return Refused;
      }
      Note(Writes, plane, sel, value);
      if w.Word(0).None? {
        return Refused;
      }
      if plane == 1 && sel == 57 {
        var ok := Stream(value % 2 == 1, w.Started(0));
        if !ok {
          return Refused;
        }
      }
      return Data([]);
    }

    method WriteMany(plane: nat, params: seq<byte>, bytes: int, w: World) returns (r: Reply)
      requires Valid()
      modifies this`log, this`active, this`epoch, this`head, this`count, this`fault, this`lines
      ensures Valid() && WritesDo(plane, params, bytes, old(View()), View(), old(log), log, r, w)
    {
      hide Queue.Restarted, Queue.Valid, AfterWrites, WritesOf, SelOf, ValueOf, LeavesOwned, World.Started, World.Word;
      NoneWritten(View(), params, w);
      if bytes != 0 || |params| < 4 || |params| % 4 != 0 || plane != 1 {
        return Refused;
      }
      ghost var was, began := View(), log;
      var i := 0;
      while 4 * i < |params|
        invariant 4 * i <= |params| && Valid() && |log| == |began| + i
        invariant View() == AfterWrites(was, params, i, w) && log == began + WritesOf(was, params, i, w)
        invariant forall k :: 0 <= k < i ==> WriteTook(params, k, w)
        invariant forall k :: 0 <= k < i ==> WriteMay(was, params, k, w)
      {
        var s, v := SelOf(params, i), ValueOf(params, i);
        assert i > 0 ==> WriteTook(params, i - 1, w);
        if s > 127 || (active && (s == 60 || s == 76)) {
          return Refused;
        }
        OneMoreWrite(was, params, i, w);
        Note(Writes, 1, s, v);
        if w.Word(i).None? {
          return Refused;
        }
        if s == 57 {
          var ok := Stream(v % 2 == 1, w.Started(i));
          if !ok {
            return Refused;
          }
        }
        i := i + 1;
      }
      assert i > 0 ==> WriteTook(params, i - 1, w);
      return Data([]);
    }

    // -------------------------------------------------------------- the dispatch

    /** A whole record into the idle ring the app shares; 0 says the ring is the stream's. */
    method RecallShared(sw: StreamRing.StreamWorker, params: seq<byte>, bytes: int, size: int, w: World) returns (r: Reply)
      requires sw.Valid()
      modifies sw.ring
      ensures sw.Valid() && (r.Data? ==> |r.bytes| == bytes == 4)
      ensures SharedDoes(bytes, size, params, old(sw.View()), sw.View(), r, w)
      ensures r.Data? && GetLE(r.bytes) != 0 ==>
                GetLE(r.bytes) == size <= sw.ring.Length && size <= |w.bytes| && !sw.on
                && sw.View() == old(sw.View()).Recall(w.bytes[..size])
      ensures r.Crashed? <==> bytes == 4 && RecallParams(params) && !sw.on && sw.shared && size < 0
    {
      if bytes != 4 || |params| < 16 || (|params| - 4) % 12 != 0 || size == 0 {
        return Refused;
      }
      if sw.on || !sw.shared || size > sw.ring.Length {
        GetZero();
        return Data(PutLE(0, 4));
      }
      if size < 0 {
        return Crashed;
      }
      var n := Min(|w.bytes|, size);
      sw.CopyIn(0, w.bytes[..n]);
      if !w.ok || n != size {
        return Refused;
      }
      Pow256Values();
      GetPutLE(n, 4);
      return Data(PutLE(n, 4));
    }

    /** One request; its byte count is a signed 32-bit number here. */
    method Handle(request: WorkerProtocol.Packet, sw: StreamRing.StreamWorker, w: World) returns (r: Reply)
      requires Valid() && sw.Valid() && WorkerProtocol.FramedRequest(request)
      requires (sw.ring as object) != (ring as object)
      modifies this, sw, sw.ring
      ensures Valid() && old(log) <= log && sw.ring == old(sw.ring)
      ensures sw.Valid() || (WorkerProtocol.U16At(request, 8) == STREAM_PEEK && WorkerProtocol.U32At(request, 20) >= TWO31)
      ensures Handled(request, State(old(View()), old(sw.View()), old(log)), State(View(), sw.View(), log), r, w)
    {
      hide Serves, RegistersDo, Queue.Valid, StreamRing.Worker.Valid, WorkerProtocol.U16At, WorkerProtocol.U32At, Int32, LeavesOwned;
      var op, plane := WorkerProtocol.U16At(request, 8), request[10];
      var sel, value := WorkerProtocol.U16At(request, 12), WorkerProtocol.U16At(request, 14);
      var bytes, asked := Int32(WorkerProtocol.U32At(request, 16)), WorkerProtocol.U32At(request, 20);
      r := Dispatch(op, plane, sel, value, bytes, asked, request[WorkerProtocol.HEADER..], sw, w);
    }

    method Dispatch(op: nat, plane: byte, sel: nat, value: nat, bytes: int, asked: nat, params: seq<byte>,
                    sw: StreamRing.StreamWorker, w: World) returns (r: Reply)
      requires Valid() && sw.Valid() && asked < TWO32 && (sw.ring as object) != (ring as object)
      modifies this, sw, sw.ring
      ensures Valid() && old(log) <= log && sw.ring == old(sw.ring)
      ensures sw.Valid() || (op == STREAM_PEEK && asked >= TWO31)
      ensures Serves(op, sel, value, bytes, asked, params, old(View()), View(), old(sw.View()), sw.View(), r, w)
      ensures if bytes > WorkerProtocol.PAYLOAD then log == old(log)
              else RegistersDo(op, plane, sel, value, bytes, params, old(View()), View(), old(log), log, r, w)
    {
      hide StreamDoes, QueueDoes, AnswerDoes, ReadsDo, WritesDo, ReadDoes, WriteDoes, PopDoes, PutLE, LeavesOwned;
      hide Queue.Restarted, Queue.LineMode, Queue.Taken, World.Bytes;
      OthersDoNothing(op, sel, value, bytes, asked, params, sw.View(), View(), View(), Refused, w);
      if bytes > WorkerProtocol.PAYLOAD {
        return Refused;
      }
      if OnStream(op) {
        r := HandleStream(op, sel, value, bytes, asked, params, sw, w);
      } else if OnRegisters(op) {
        r := Registers(op, plane, sel, value, bytes, asked, params, w);
      } else if op == TAKE_EVENTS {
        r := TakeEvents(bytes, asked, value);
      } else if op == LINE_MODE {
        r := LineMode(bytes, value, asked);
      } else {
        r := Answer(op, bytes, asked, params, w);
      }
      OthersDoNothing(op, sel, value, bytes, asked, params, old(sw.View()), old(View()), View(), r, w);
    }

    /** The operations on registers. */
    method Registers(op: nat, plane: byte, sel: nat, value: nat, bytes: int, ghost asked: nat, params: seq<byte>, w: World)
      returns (r: Reply)
      requires Valid() && OnRegisters(op)
      modifies this`log, this`active, this`epoch, this`head, this`count, this`fault, this`lines
      ensures Valid() && old(log) <= log && (op != WRITE && op != WRITE_MANY ==> View() == old(View()))
      ensures r.Data? ==> |r.bytes| <= bytes
      ensures r.Crashed? <==> CutsBelow(op, sel, bytes, asked, params, old(View()))
      ensures RegistersDo(op, plane, sel, value, bytes, params, old(View()), View(), old(log), log, r, w)
    {
      hide ReadsWell, WordsRead, ReadsOf, WritesOf, AfterWrites, AfterWrite, Took, PutLE, LeavesOwned, World.Bytes;
      if op == READ {
        r := ReadOne(plane, sel, bytes, w);
      } else if op == READ_MANY {
        r := ReadMany(plane, params, bytes, w);
      } else if op == WRITE_MANY {
        r := WriteMany(plane, params, bytes, w);
      } else if op == WRITE {
        r := WriteOne(plane, sel, value, bytes, w);
      } else {
        r := PopMany(sel, bytes, w);
      }
    }

    /** The operations that only answer. */
    method Answer(op: nat, bytes: int, asked: nat, params: seq<byte>, w: World) returns (r: Reply)
      requires Valid() && !OnStream(op) && !OnQueue(op) && !OnRegisters(op)
      ensures (r.Data? ==> |r.bytes| <= bytes) && AnswerDoes(op, bytes, asked, params, View(), r, w)
      ensures r.Crashed? <==> CutsBelow(op, 0, bytes, asked, params, View())
    {
      if op == HELLO {
        return if bytes != 1 then Refused else Data([if w.fast then 1 else 0]);
      } else if op == LINES {
        if !active || lines.None? || asked != epoch || fault.Some? {
          return Refused;
        }
        return if bytes < 0 then Crashed else Data(w.bytes[..Min(|w.bytes|, bytes)]);
      } else if op == RECALL {
        if bytes == 0 || |params| < 16 || (|params| - 4) % 12 != 0 {
          return Refused;
        }
        if bytes < 0 {
          return Crashed;
        }
        var n := Min(|w.bytes|, bytes);
        return if !w.ok || n != bytes then Refused else Data(w.bytes[..n]);
      } else if op == STACK_DOWNLOAD {
        return if bytes < 0 then Crashed else if w.ok then Data(w.Bytes(bytes)) else Refused;
      } else if op == PANEL {
        return if bytes != 22 || !w.ok then Refused else Data(w.Bytes(22));
      }
      return Refused;
    }

    method HandleStream(op: nat, sel: nat, value: nat, bytes: int, asked: nat, params: seq<byte>,
                        sw: StreamRing.StreamWorker, w: World) returns (r: Reply)
      requires sw.Valid() && asked < TWO32
      modifies sw, sw.ring
      ensures sw.ring == old(sw.ring) && (sw.Valid() || (op == STREAM_PEEK && asked >= TWO31))
      ensures Fits(op, bytes, r) && StreamDoes(op, sel, value, bytes, asked, params, old(sw.View()), sw.View(), r, w)
      ensures r.Crashed? <==> op == RECALL_SHARED && bytes == 4 && RecallParams(params) && !old(sw.on) && old(sw.shared)
                              && SharedSize(sel, value) < 0
    {
      hide PutLE, Int32;
      if op == STREAM_PUMP {
        if bytes != 0 {
          return Refused;
        }
        sw.PumpOn(value % 2 == 1);
        return if w.ok then Data([]) else Refused;
      } else if op == STREAM_WORDS {
        var words := sw.StreamWords(bytes);
        return WordsData(words);
      } else if op == STREAM_PEEK {
        var peek := sw.StreamPeek(asked);
        return PeekData(peek);
      } else if op == RECALL_SHARED {
        r := RecallShared(sw, params, bytes, SharedSize(sel, value), w);
        return;
      }
      return Refused;
    }
  }

  lemma GetZero()
    ensures GetLE(PutLE(0, 4)) == 0
  {
    Pow256Values();
    GetPutLE(0, 4);
  }

  // -------------------------------------------------------------- the app's end of it

  /** A count and a size that a signed 32-bit word holds never end the worker. */
  lemma SmallRequestsAreSurvived(op: nat, sel: nat, value: nat, bytes: nat, asked: nat, params: seq<byte>,
                                 q: Queue, sw: StreamRing.Worker)
    requires bytes < TWO31 && value < 0x1_0000 && (op == RECALL_SHARED ==> sel < 0x8000)
    ensures !Crashes(op, sel, value, Int32(bytes), asked, params, q, sw)
  {
  }

  /** Whatever the worker's state, a stack download of 2^31 bytes ends it. */
  lemma LargeDownloadCrashes(sel: nat, value: nat, asked: nat, params: seq<byte>, q: Queue, sw: StreamRing.Worker)
    ensures Crashes(STACK_DOWNLOAD, sel, value, Int32(0x8000_0000), asked, params, q, sw)
  {
  }

  /** The count and the release the worker reads are the app's: a call the app takes never asks for more than a
      payload. */
  lemma AppAsksForAPayload(sequence: nat, c: WorkerProtocol.Client, call: WorkerProtocol.Call)
    requires call.Valid() && c.Accepts(call) && sequence < TWO32
    ensures var request := WorkerProtocol.Request(sequence, call);
            && Int32(WorkerProtocol.U32At(request, 16)) == call.Want() <= WorkerProtocol.PAYLOAD
            && WorkerProtocol.U32At(request, 20) == call.epoch
  {
    hide WorkerProtocol.Request, WorkerProtocol.U16At, WorkerProtocol.U32At, PutLE;
    WorkerProtocol.RequestFields(sequence, call);
  }

  /** How a call ends on a reply that is not an error: well where it fits the room asked for, else with the link. */
  lemma ReplyIsTakenWhereItFits(c: WorkerProtocol.Client, call: WorkerProtocol.Call, data: seq<byte>)
    requires call.Valid() && c.Accepts(call) && c.sequence < TWO32 && |data| <= WorkerProtocol.PAYLOAD
    ensures var (after, outcome) := Ended(c, call, data);
            if |data| <= call.Want() then after == c.Begun(call) && outcome.Done? && outcome.head + outcome.dst == data
            else after.failed && outcome.TransportFailed?
  {
    hide WorkerProtocol.Response, WorkerProtocol.Request, WorkerProtocol.FramedReply;
    WorkerProtocol.FramingAgrees(c.Begun(call).sequence, call, 0, data);
  }

  /** The client and the outcome once the reply that carries data has been read. */
  function Ended(c: WorkerProtocol.Client, call: WorkerProtocol.Call, data: seq<byte>)
    : (WorkerProtocol.Client, WorkerProtocol.Outcome)
  {
    var begun := c.Begun(call);
    begun.Finish(call, Some(WorkerProtocol.Response(WorkerProtocol.Request(begun.sequence, call), 0, data)))
  }

  /** An answered peek ends its call well if and only if the call has room for 16 bytes; with less the link fails
      for good. */
  lemma PeekNeedsSixteen(c: WorkerProtocol.Client, call: WorkerProtocol.Call, peek: StreamRing.PeekReply)
    requires call.Valid() && c.Accepts(call) && c.sequence < TWO32 && call.op == STREAM_PEEK && peek.Ready?
    ensures PeekData(peek).Data?
    ensures var (after, outcome) := Ended(c, call, PeekData(peek).bytes);
            if call.Want() >= 16 then outcome.Done? && !after.failed else outcome.TransportFailed? && after.failed
  {
    hide Ended, PutLE;
    ReplyIsTakenWhereItFits(c, call, PeekData(peek).bytes);
  }

  /** No other operation's reply can end so: what Handle answers to any other call is taken. */
  lemma OnlyAPeekOutgrows(c: WorkerProtocol.Client, call: WorkerProtocol.Call, r: Reply)
    requires call.Valid() && c.Accepts(call) && c.sequence < TWO32 && r.Data? && Fits(call.op, call.Want(), r)
    ensures |r.bytes| <= WorkerProtocol.PAYLOAD
    ensures var (after, outcome) := Ended(c, call, r.bytes);
            if call.op == STREAM_PEEK && call.Want() < |r.bytes| then |r.bytes| == 16 && outcome.TransportFailed?
            else after == c.Begun(call) && outcome.Done? && outcome.head + outcome.dst == r.bytes
  {
    hide Ended;
    ReplyIsTakenWhereItFits(c, call, r.bytes);
  }

  /** What the app reads of a peek's 16 bytes: the ordinal, the place and the count, the last two signed. */
  function PeekRead(b: seq<byte>): StreamRing.PeekReply
    requires |b| == 16
  {
    StreamRing.Ready(GetLE(b[..8]), Int32(GetLE(b[8..12])), Int32(GetLE(b[12..])))
  }

  /** The app reads the answer the worker gave, and its two slices hold the whole queue. */
  lemma AppReadsThePeek(sw: StreamRing.Worker, release: nat)
    requires sw.Valid() && release < TWO31 && sw.Peek(release).1.Ready?
    ensures var (v, peek) := sw.Peek(release);
            && PeekData(peek).Data? && PeekRead(PeekData(peek).bytes) == peek
            && StreamRing.Slices(|sw.ring|, peek.at, peek.count).Some?
            && var (a, b) := StreamRing.Slices(|sw.ring|, peek.at, peek.count).value;
               a.lo <= a.hi <= |v.ring| && b.lo <= b.hi <= |v.ring| && StreamRing.ReadSlices(v.ring, a, b) == v.Contents()
  {
    hide PeekData, PeekRead, Int32, StreamRing.Worker.Contents, StreamRing.Worker.Bytes, StreamRing.ReadSlices;
    var (v, peek) := sw.Peek(release);
    StreamRing.ReleasesAreBounded(sw, release);
    StreamRing.SlicesReadTheQueue(v, v.count);
    assert v.Bytes(0, v.count) == v.Contents() by {
      StreamRing.QueueIsItsBytes(v);
    }
    PeekReadsBack(peek);
  }

  lemma PeekReadsBack(peek: StreamRing.PeekReply)
    requires peek.Ready? && peek.first < TWO64 && 0 <= peek.at < TWO31 && 0 <= peek.count < TWO31
    ensures PeekData(peek).Data? && PeekRead(PeekData(peek).bytes) == peek
  {
    hide PutLE, GetLE, Pow256;
    Pow256Values();
    GetPutLE(peek.first, 8);
    GetPutLE(peek.at, 4);
    GetPutLE(peek.count, 4);
    PeekCut(PutLE(peek.first, 8), PutLE(peek.at, 4), PutLE(peek.count, 4));
  }

  lemma PeekCut(a: seq<byte>, b: seq<byte>, c: seq<byte>)
    requires |a| == 8 && |b| == 4 && |c| == 4
    ensures var s := a + b + c; s[..8] == a && s[8..12] == b && s[12..] == c
  {
  }

  // -------------------------------------------------------------- the handling and the two processes

  /** What a request does to the stream ring is nothing, or one of the steps that runs of the two processes are made of;
      the words answered are those given back by it, and the place answered is what is lent. */
  lemma ServedIsAStep(op: nat, sel: nat, value: nat, bytes: int, asked: nat, params: seq<byte>,
                      was: Queue, now: Queue, s: StreamRing.System, after: StreamRing.Worker, r: Reply, w: World)
    returns (step: Option<StreamRing.Step>)
    requires was.Valid() && StreamRing.Inv(s) && s.room.None? && asked < TWO32 && (op == STREAM_PEEK ==> asked < TWO31)
    requires Serves(op, sel, value, bytes, asked, params, was, now, s.w, after, r, w)
    ensures if step.None? then after == s.w
            else StreamRing.Enabled(s, step.value) && StreamRing.Next(s, step.value).w == after
    ensures op == STREAM_WORDS && r.Data? ==>
              step.Some? && |r.bytes| >= 8 && StreamRing.Next(s, step.value).released == s.released + r.bytes[8..]
    ensures op == STREAM_PEEK && r.Data? ==>
              && step == Some(StreamRing.Peek(asked)) && |r.bytes| == 16 && PeekRead(r.bytes).Ready?
              && StreamRing.Next(s, step.value).loan == StreamRing.Lend(after, PeekRead(r.bytes))
  {
    hide QueueDoes, AnswerDoes, Crashes, PeekData, WordsData, PeekRead, PutLE, StreamRing.Lend;
    hide StreamRing.Worker.Contents, StreamRing.Worker.Bytes, StreamRing.Worker.Release, StreamRing.Worker.PeekAccepted;
    if bytes > WorkerProtocol.PAYLOAD {
      step := None;
    } else if op == STREAM_PUMP && bytes == 0 {
      step := Some(StreamRing.Pump(value % 2 == 1));
    } else if op == STREAM_WORDS && bytes >= 8 {
      step := Some(StreamRing.ReadWords(bytes));
      WordsAnswer(s.w.ReadWords(bytes).1);
    } else if op == STREAM_PEEK {
      step := Some(StreamRing.Peek(asked));
      PeekAnswer(s.w.Peek(asked).1);
      if s.w.Peek(asked).1.Ready? {
        AppReadsThePeek(s.w, asked);
      }
    } else if op == RECALL_SHARED && after != s.w {
      step := Some(StreamRing.Recall(w.bytes[..Min(|w.bytes|, SharedSize(sel, value))]));
    } else {
      step := None;
      WordsAnswer(StreamRing.WordsRefused);
    }
  }

  /** So it is with the event queue: a request that writes no register is a step of a stream's runs or leaves the queue
      alone, and the bytes answered are the events that have gone out. */
  lemma ServedIsAQueueStep(op: nat, sel: nat, value: nat, bytes: int, asked: nat, params: seq<byte>,
                           s: EventQueue.System, now: Queue, sw: StreamRing.Worker, after: StreamRing.Worker,
                           r: Reply, w: World)
    returns (step: Option<EventQueue.Step>, rs: seq<Record>)
    requires EventQueue.Inv(s) && sw.Valid() && asked < TWO32 && op != WRITE && op != WRITE_MANY
    requires Serves(op, sel, value, bytes, asked, params, s.q, now, sw, after, r, w)
    ensures if step.None? then now == s.q else EventQueue.Next(s, step.value).q == now
    ensures op == TAKE_EVENTS && r.Data? ==>
              step.Some? && r.bytes == Flat(rs) && EventQueue.Next(s, step.value).out == s.out + TellAll(rs)
  {
    hide StreamDoes, AnswerDoes, Crashes, Flat, Queue.Contents, RecordsOf, Marked, EventQueue.Spoiled;
    step, rs := None, [];
    if op == TAKE_EVENTS && r.Data? {
      step, rs := Some(Ask(bytes)), s.q.Contents()[..s.q.Amount(bytes)];
    } else if op == LINE_MODE && r.Data? {
      step := Some(Mode(value != 0));
    }
  }

  lemma WordsAnswer(words: StreamRing.WordsReply)
    ensures WordsData(words).Data? <==> words.Words?
    ensures words.Words? ==> |WordsData(words).bytes| >= 8 && WordsData(words).bytes[8..] == words.bytes
  {
  }

  lemma PeekAnswer(peek: StreamRing.PeekReply)
    ensures PeekData(peek).Data? <==> peek.Ready?
    ensures !peek.Ready? ==> PeekData(peek) == Refused
    ensures peek.Ready? ==> |PeekData(peek).bytes| == 16
  {
  }

  /** A shared recall that answers other than 0 found the ring idle and put the whole record in its first bytes. */
  lemma SharedRecordIsWhole(bytes: int, size: int, params: seq<byte>, was: StreamRing.Worker, now: StreamRing.Worker,
                            r: Reply, w: World)
    requires SharedDoes(bytes, size, params, was, now, r, w) && size < TWO31 && r.Data? && GetLE(r.bytes) != 0
    ensures GetLE(r.bytes) == size && 0 < size <= |was.ring| == |now.ring| && size <= |w.bytes|
    ensures !was.on && was.shared && now == was.(ring := now.ring)
    ensures now.ring[..size] == w.bytes[..size] && now.ring[size..] == was.ring[size..]
  {
    GetZero();
    Pow256Values();
    if size > 0 {
      GetPutLE(size, 4);
    }
  }
}
