/**
 Requests and replies between the app and the acquisition worker, over a local
 packet socket: the app's calls one at a time with a sequence number and sticky
 failure, the worker's one reply held until its write succeeds.

 Link is both processes and the socket between them; its steps are what either
 process, or the socket, can do next.
 */
module WorkerProtocol {
  import opened Basics

  const MAGIC: nat := 0x57435141
  const HEADER: nat := 24
  const PAYLOAD: nat := 65536
  const PARAMS: nat := 52

  const OP_READ_MANY: nat := 11
  const OP_WRITE_MANY: nat := 12
  const OP_RECALL: nat := 9
  const OP_RECALL_SHARED: nat := 14

  type Packet = seq<byte>

  /** One call of the app: the reply's first head bytes go apart from the next dst bytes. */
  datatype Call = Call(op: nat, plane: byte, selector: nat, value: nat, epoch: nat, params: seq<byte>,
                       head: nat, dst: nat)
  {
    predicate Valid() {
      && op < 0x1_0000 && selector < 0x1_0000 && value < 0x1_0000 && epoch < TWO32
      && (params != [] ==> TakesParams(op))
    }

    function Want(): nat {
      head + dst
    }
  }

  predicate TakesParams(op: nat) {
    op == OP_RECALL || op == OP_RECALL_SHARED || op == OP_READ_MANY || op == OP_WRITE_MANY
  }

  function U16At(p: Packet, i: nat): (v: nat)
    requires i + 2 <= |p|
    ensures v < 0x1_0000
  {
    GetBound(p[i..i + 2]);
    assert Pow256(2) == 0x1_0000;
    GetLE(p[i..i + 2])
  }

  function U32At(p: Packet, i: nat): (v: nat)
    requires i + 4 <= |p|
    ensures v < TWO32
  {
    GetBound(p[i..i + 4]);
    Pow256Values();
    GetLE(p[i..i + 4])
  }

  /** The packet of a call. */
  function Request(sequence: nat, call: Call): (p: Packet)
    ensures |p| == HEADER + |call.params|
  {
    PutLE(MAGIC, 4) + PutLE(sequence, 4) + PutLE(call.op, 2) + [call.plane, 1] + PutLE(call.selector, 2)
    + PutLE(call.value, 2) + PutLE(call.Want(), 4) + PutLE(call.epoch, 4) + call.params
  }

  function Front(request: Packet, status: byte): (p: Packet)
    requires |request| >= HEADER
    ensures |p| == 16
  {
    request[..10] + [status] + request[11..16]
  }

  /** The reply built over a request's own header: a status, the reply's length, its bytes. */
  function Response(request: Packet, status: byte, data: seq<byte>): (p: Packet)
    requires |request| >= HEADER
    ensures |p| == HEADER + |data|
  {
    Front(request, status) + PutLE(|data|, 4) + request[20..24] + data
  }

  lemma ResponseAt(request: Packet, status: byte, data: seq<byte>, i: nat)
    requires |request| >= HEADER && i < HEADER + |data|
    ensures Response(request, status, data)[i]
            == if i == 10 then status else if 16 <= i < 20 then PutLE(|data|, 4)[i - 16]
               else if i < HEADER then request[i] else data[i - HEADER]
  {
    hide PutLE, Front;
    Pieces(Front(request, status), PutLE(|data|, 4), request[20..24], data, i);
    if i < 16 {
      FrontAt(request, status, i);
    }
  }

  lemma Pieces(a: seq<byte>, b: seq<byte>, c: seq<byte>, d: seq<byte>, i: nat)
    requires |a| == 16 && |b| == |c| == 4 && i < 24 + |d|
    ensures (a + b + c + d)[i] == if i < 16 then a[i] else if i < 20 then b[i - 16] else if i < 24 then c[i - 20] else d[i - 24]
  {
  }

  lemma FrontAt(request: Packet, status: byte, i: nat)
    requires |request| >= HEADER && i < 16
    ensures Front(request, status)[i] == if i == 10 then status else request[i]
  {
  }

  /** What the worker takes for a request. */
  predicate FramedRequest(p: Packet) {
    && |p| >= HEADER
    && (|p| == HEADER || (|p| <= HEADER + PARAMS && TakesParams(U16At(p, 8))))
    && U32At(p, 0) == MAGIC
    && p[11] == 1
  }

  /** What the app takes for the reply to its call. */
  predicate FramedReply(p: Packet, sequence: nat, op: nat) {
    && |p| >= HEADER
    && U32At(p, 0) == MAGIC
    && U32At(p, 4) == sequence
    && U16At(p, 8) == op
    && p[11] == 1
    && U32At(p, 16) == |p| - HEADER
  }

  /** What either side takes for a packet, byte by byte. */
  lemma FramesAre(p: Packet, sequence: nat, op: nat)
    requires |p| >= 24
    ensures FramedReply(p, sequence, op)
            <==> && p[..4] == [0x41, 0x51, 0x43, 0x57] && p[11] == 1
                 && sequence == p[4] as nat + 0x100 * p[5] as nat + 0x1_0000 * p[6] as nat + 0x100_0000 * p[7] as nat
                 && op == p[8] as nat + 0x100 * p[9] as nat
                 && |p| - 24 == p[16] as nat + 0x100 * p[17] as nat + 0x1_0000 * p[18] as nat + 0x100_0000 * p[19] as nat
    ensures var o := p[8] as nat + 0x100 * p[9] as nat;
            FramedRequest(p)
            <==> && p[..4] == [0x41, 0x51, 0x43, 0x57] && p[11] == 1
                 && (|p| == 24 || (|p| <= 76 && (o == 9 || o == 11 || o == 12 || o == 14)))
  {
    hide GetLE;
    ReadTwo(p, 8);
    ReadFour(p, 0);
    ReadFour(p, 4);
    ReadFour(p, 16);
    if U32At(p, 0) == MAGIC {
      MagicIs(p);
    }
  }

  lemma MagicIs(p: Packet)
    requires |p| >= 4 && p[0] as nat + 0x100 * p[1] as nat + 0x1_0000 * p[2] as nat + 0x100_0000 * p[3] as nat == MAGIC
    ensures p[..4] == [0x41, 0x51, 0x43, 0x57]
  {
  }

  lemma ReadTwo(p: Packet, i: nat)
    requires i + 2 <= |p|
    ensures U16At(p, i) == p[i] as nat + 0x100 * p[i + 1] as nat
  {
    var b := p[i..i + 2];
    assert GetLE(b[1..]) == b[1] + 256 * GetLE(b[1..][1..]);
  }

  lemma ReadFour(p: Packet, i: nat)
    requires i + 4 <= |p|
    ensures U32At(p, i)
            == p[i] as nat + 0x100 * p[i + 1] as nat + 0x1_0000 * p[i + 2] as nat + 0x100_0000 * p[i + 3] as nat
  {
    var b := p[i..i + 4];
    GetTwo(b);
    GetTwo(b[2..]);
    assert b[2..][2..] == [];
  }

  lemma GetTwo(b: seq<byte>)
    requires |b| >= 2
    ensures GetLE(b) == b[0] as nat + 0x100 * b[1] as nat + 0x1_0000 * GetLE(b[2..])
  {
    assert b[1..][1..] == b[2..];
    assert GetLE(b[1..]) == b[1] + 256 * GetLE(b[1..][1..]);
  }

  /** Every field of a call is in its place in the packet, low byte first. */
  lemma RequestBytes(sequence: nat, call: Call)
    requires call.Valid() && sequence < TWO32
    ensures var p := Request(sequence, call);
            && p[..4] == [0x41, 0x51, 0x43, 0x57] && p[11] == 1
            && sequence == p[4] as nat + 0x100 * p[5] as nat + 0x1_0000 * p[6] as nat + 0x100_0000 * p[7] as nat
            && call.op == p[8] as nat + 0x100 * p[9] as nat && call.plane == p[10]
            && call.selector == p[12] as nat + 0x100 * p[13] as nat
            && call.value == p[14] as nat + 0x100 * p[15] as nat
            && (call.Want() < TWO32 ==>
                  call.head + call.dst == p[16] as nat + 0x100 * p[17] as nat + 0x1_0000 * p[18] as nat + 0x100_0000 * p[19] as nat)
            && call.epoch == p[20] as nat + 0x100 * p[21] as nat + 0x1_0000 * p[22] as nat + 0x100_0000 * p[23] as nat
            && p[24..] == call.params
  {
    hide PutLE;
    TwoBytes(call.op);
    TwoBytes(call.selector);
    TwoBytes(call.value);
    FourBytes(MAGIC);
    FourBytes(sequence);
    FourBytes(call.epoch);
    if call.Want() < TWO32 {
      FourBytes(call.Want());
    }
  }

  lemma RequestFields(sequence: nat, call: Call)
    requires call.Valid() && sequence < TWO32
    ensures var p := Request(sequence, call);
            U32At(p, 0) == MAGIC && U32At(p, 4) == sequence && U16At(p, 8) == call.op && p[11] == 1
            && p[10] == call.plane && U16At(p, 12) == call.selector && U16At(p, 14) == call.value
            && p[HEADER..] == call.params
            && p[20..24] == PutLE(call.epoch, 4) && p[16..20] == PutLE(call.Want(), 4)
            && U32At(p, 20) == call.epoch && (call.Want() < TWO32 ==> U32At(p, 16) == call.Want())
  {
    hide PutLE, GetLE, Pow256;
    var p := Request(sequence, call);
    Pow256Values();
    Pow256OfTwo();
    GetPutLE(MAGIC, 4);
    GetPutLE(sequence, 4);
    GetPutLE(call.op, 2);
    GetPutLE(call.selector, 2);
    GetPutLE(call.value, 2);
    GetPutLE(call.epoch, 4);
    if call.Want() < TWO32 {
      GetPutLE(call.Want(), 4);
    }
    assert p[0..4] == PutLE(MAGIC, 4);
    assert p[4..8] == PutLE(sequence, 4);
    assert p[8..10] == PutLE(call.op, 2);
    assert p[12..14] == PutLE(call.selector, 2);
    assert p[14..16] == PutLE(call.value, 2);
    assert p[16..20] == PutLE(call.Want(), 4);
    assert p[20..24] == PutLE(call.epoch, 4);
  }

  /** The worker takes every packet the app sends, and the app's checks pass every reply the worker builds
      over it. */
  lemma FramingAgrees(sequence: nat, call: Call, status: byte, data: seq<byte>)
    requires call.Valid() && |call.params| <= PARAMS && sequence < TWO32 && |data| <= PAYLOAD
    ensures FramedRequest(Request(sequence, call))
    ensures var p := Response(Request(sequence, call), status, data);
            FramedReply(p, sequence, call.op) && p[10] == status && p[HEADER..] == data
  {
    hide PutLE, GetLE, Pow256;
    var q := Request(sequence, call);
    RequestFields(sequence, call);
    var p := Response(q, status, data);
    assert p[0..4] == q[0..4];
    assert p[4..8] == q[4..8];
    assert p[8..10] == q[8..10];
    assert p[11] == q[11];
    assert p[16..20] == PutLE(|data|, 4);
    Pow256Values();
    GetPutLE(|data|, 4);
  }

  // ---------------------------------------------------------------- the app's side

  datatype Outcome =
    | Refused                                      // nothing was sent
    | TransportFailed                              // consumption uncertain
    | DeviceError(text: seq<byte>)
    | Done(head: seq<byte>, dst: seq<byte>)

  datatype Client = Client(sequence: nat, failed: bool) {
    predicate Accepts(call: Call) {
      !failed && call.Want() <= PAYLOAD && |call.params| <= PARAMS
    }

    /** The client once a call has begun: the sequence moves on for a call refused for its parameters too. */
    function Begun(call: Call): Client {
      if failed || call.Want() > PAYLOAD then this else this.(sequence := (sequence + 1) % TWO32)
    }

    /** The end of a call, from the reply read (None: a write or read failed). */
    function Finish(call: Call, reply: Option<Packet>): (Client, Outcome) {
      if reply.None? || !FramedReply(reply.value, sequence, call.op) then (this.(failed := true), TransportFailed)
      else
        var data := reply.value[HEADER..];
        if reply.value[10] != 0 then (this, DeviceError(data))
        else if |data| > call.Want() then (this.(failed := true), TransportFailed)
        else
          var k := Min(call.head, |data|);
          (this, Done(data[..k], data[k..]))
    }
  }

  // ---------------------------------------------------------------- both sides and the socket

  /** A request and a reply as the queues carry them; their bytes are Packet(). */
  datatype Asked = Asked(sequence: nat, call: Call) {
    function Packet(): Packet {
      Request(sequence, call)
    }
  }

  datatype Answer = Answer(to: Asked, status: byte, data: seq<byte>) {
    function Packet(): Packet {
      Response(to.Packet(), status, data)
    }
  }

  /** sent, executed, replied and results are histories: the requests the app wrote or tried to, what the
      worker executed, the replies it wrote, and how the app's calls ended (one per request sent). */
  datatype Link = Link(client: Client, waiting: Option<Call>, toWorker: seq<Asked>, toApp: seq<Answer>,
                       up: bool, pending: Option<Answer>,
                       sent: seq<Asked>, executed: seq<Answer>, replied: seq<Answer>, results: seq<Outcome>)

  datatype Step =
    | StartCall(call: Call, written: bool, delivered: bool) // written false: the write failed, maybe after delivery
    | Execute(status: byte, data: seq<byte>)                // the worker reads a request and handles it
    | WriteReply(written: bool)                             // false: the socket is full for now
    | WorkerStops                                           // an error of its own, or the socket's
    | ReadReply
    | GiveUp                                                // the deadline, or a socket error

  predicate Enabled(s: Link, step: Step) {
    match step
    case StartCall(call, _, _) => s.waiting.None? && call.Valid()
    case Execute(status, data) => s.up && s.pending.None? && s.toWorker != [] && |data| <= PAYLOAD
    case WriteReply(_) => s.up && s.pending.Some?
    case WorkerStops => true
    case ReadReply => s.waiting.Some? && s.toApp != []
    case GiveUp => s.waiting.Some?
  }

  function End(s: Link, reply: Option<Packet>): Link
    requires s.waiting.Some?
  {
    var (client, outcome) := s.client.Finish(s.waiting.value, reply);
    s.(client := client, waiting := None, results := s.results + [outcome])
  }

  function Next(s: Link, step: Step): Link
    requires Enabled(s, step)
  {
    match step
    case StartCall(call, written, delivered) =>
      if !s.client.Accepts(call) then s.(client := s.client.Begun(call))
      else
        var client := s.client.Begun(call);
        var asked := Asked(client.sequence, call);
        var t := s.(client := client, waiting := Some(call), sent := s.sent + [asked],
                 toWorker := if written || delivered then s.toWorker + [asked] else s.toWorker);
        if written then t else End(t, None)
    case Execute(status, data) =>
      var asked := s.toWorker[0];
      if !FramedRequest(asked.Packet()) then s.(up := false, toWorker := s.toWorker[1..])
      else
        var answer := Answer(asked, status, data);
        s.(toWorker := s.toWorker[1..], pending := Some(answer), executed := s.executed + [answer])
    case WriteReply(written) =>
      if written then s.(pending := None, toApp := s.toApp + [s.pending.value], replied := s.replied + [s.pending.value])
      else s
    case WorkerStops => s.(up := false)
    case ReadReply => End(s.(toApp := s.toApp[1..]), Some(s.toApp[0].Packet()))
    case GiveUp => End(s, None)
  }

  const START := Link(Client(0, false), None, [], [], true, None, [], [], [], [])

  function AskedOf(answers: seq<Answer>): (r: seq<Asked>)
    ensures |r| == |answers|
  {
    seq(|answers|, i requires 0 <= i < |answers| => answers[i].to)
  }

  predicate Sendable(asked: Asked) {
    && asked.call.Valid() && asked.call.Want() <= PAYLOAD && |asked.call.params| <= PARAMS
    && asked.sequence < TWO32
  }

  /** The call the app waits for is in one place: on its way, done and its reply held, or its reply on its way. */
  predicate Awaited(s: Link)
    requires s.waiting.Some?
  {
    && !s.client.failed
    && s.sent != [] && s.sent[|s.sent| - 1] == Asked(s.client.sequence, s.waiting.value)
    && |s.results| == |s.sent| - 1
    && if s.toWorker != [] then |s.toWorker| == 1 && s.pending.None? && s.toApp == []
       else if s.pending.Some? then s.toApp == []
       else s.executed != [] && s.toApp == [s.executed[|s.executed| - 1]]
  }

  /** An outcome fits what the worker did for that request. */
  predicate Explains(s: Link, i: nat)
    requires i < |s.results|
  {
    match s.results[i]
    case Refused => false
    case TransportFailed => i == |s.results| - 1 && s.client.failed
    case DeviceError(text) => i < |s.executed| && s.executed[i].status != 0 && s.executed[i].data == text
    case Done(head, dst) => i < |s.executed| && s.executed[i].status == 0 && s.executed[i].data == head + dst
  }

  predicate Inv(s: Link) {
    && s.client.sequence < TWO32
    && (forall i :: 0 <= i < |s.sent| ==> Sendable(s.sent[i]))
    && AskedOf(s.executed) + s.toWorker <= s.sent
    && (!s.client.failed ==> AskedOf(s.executed) + s.toWorker == s.sent)
    && s.executed == s.replied + (if s.pending.Some? then [s.pending.value] else [])
    && (forall i :: 0 <= i < |s.executed| ==> |s.executed[i].data| <= PAYLOAD)
    && (forall i :: 0 <= i < |s.results| ==> Explains(s, i))
    && (s.waiting.Some? ==> Awaited(s))
    && (s.waiting.None? ==> |s.results| == |s.sent|)
    && (s.waiting.None? && !s.client.failed ==> s.toWorker == [] && s.pending.None? && s.toApp == [])
    && (s.client.failed ==> s.results != [] && s.results[|s.results| - 1].TransportFailed?)
  }

  /** Outcomes stay explained while the worker's history grows. */
  lemma ResultsKept(s: Link, t: Link)
    requires forall i :: 0 <= i < |s.results| ==> Explains(s, i)
    requires s.results <= t.results && s.executed <= t.executed
    requires s.client.failed ==> t.client.failed && t.results == s.results
    ensures forall i :: 0 <= i < |s.results| ==> Explains(t, i)
  {
    forall i | 0 <= i < |s.results| ensures Explains(t, i) {
      assert Explains(s, i);
    }
  }

  lemma StartCallKeepsInv(s: Link, call: Call, written: bool, delivered: bool)
    requires Inv(s) && s.waiting.None? && call.Valid()
    ensures Inv(Next(s, StartCall(call, written, delivered)))
  {
    hide Request, Response, FramedReply, Call.Valid;
    ResultsKept(s, Next(s, StartCall(call, written, delivered)));
  }

  /** The worker takes what the app sent: a request moves from its way to the executed ones. */
  lemma ExecuteMoves(s: Link, status: byte, data: seq<byte>)
    requires Inv(s) && Enabled(s, Execute(status, data))
    ensures var t := Next(s, Execute(status, data));
            var answer := Answer(s.toWorker[0], status, data);
            && t == s.(toWorker := s.toWorker[1..], pending := Some(answer), executed := s.executed + [answer])
            && AskedOf(t.executed) + t.toWorker == AskedOf(s.executed) + s.toWorker
  {
    var t := Next(s, Execute(status, data));
    var asked := s.toWorker[0];
    assert asked == (AskedOf(s.executed) + s.toWorker)[|s.executed|] == s.sent[|s.executed|];
    FramingAgrees(asked.sequence, asked.call, status, data);
    assert AskedOf(t.executed) + t.toWorker == AskedOf(s.executed) + s.toWorker;
  }

  lemma ExecuteKeepsInv(s: Link, status: byte, data: seq<byte>)
    requires Inv(s) && Enabled(s, Execute(status, data))
    ensures Inv(Next(s, Execute(status, data)))
  {
    ExecuteMoves(s, status, data);
    ResultsKept(s, Next(s, Execute(status, data)));
  }

  /** The reply the app reads is the one to the call it waits for: it is taken, unless it is longer than the
      room the call gave it. */
  lemma ReadReplyIsOwn(s: Link)
    requires Inv(s) && s.waiting.Some? && s.toApp != []
    ensures |s.executed| == |s.sent|
    ensures var e := s.executed[|s.executed| - 1];
            && e.to == Asked(s.client.sequence, s.waiting.value)
            && s.client.Finish(s.waiting.value, Some(s.toApp[0].Packet())).1
               == if e.status != 0 then DeviceError(e.data)
                  else if |e.data| > s.waiting.value.Want() then TransportFailed
                  else Done(e.data[..Min(s.waiting.value.head, |e.data|)], e.data[Min(s.waiting.value.head, |e.data|)..])
  {
    var e := s.executed[|s.executed| - 1];
    assert e.to == (AskedOf(s.executed) + s.toWorker)[|s.executed| - 1] == s.sent[|s.sent| - 1];
    FramingAgrees(s.client.sequence, s.waiting.value, e.status, e.data);
  }

  /** A call that was executed may end with the reply's own outcome, or in a transport failure. */
  lemma EndKeepsInv(s: Link, outcome: Outcome)
    requires Inv(s) && s.waiting.Some? && s.toApp != []
    requires var e := s.executed[|s.executed| - 1];
             || outcome.TransportFailed?
             || (outcome.DeviceError? && e.status != 0 && outcome.text == e.data)
             || (outcome.Done? && e.status == 0 && outcome.head + outcome.dst == e.data)
    ensures Inv(s.(client := if outcome.TransportFailed? then s.client.(failed := true) else s.client,
                waiting := None, toApp := s.toApp[1..], results := s.results + [outcome]))
  {
    ResultsKept(s, s.(client := if outcome.TransportFailed? then s.client.(failed := true) else s.client,
                   waiting := None, toApp := s.toApp[1..], results := s.results + [outcome]));
    assert |AskedOf(s.executed) + s.toWorker| == |s.sent|;
  }

  lemma ReadReplyKeepsInv(s: Link)
    requires Inv(s) && Enabled(s, ReadReply)
    ensures Inv(Next(s, ReadReply))
  {
    hide Inv, Request, Response, FramedReply, Explains, Awaited, AskedOf;
    ReadReplyIsOwn(s);
    EndKeepsInv(s, s.client.Finish(s.waiting.value, Some(s.toApp[0].Packet())).1);
  }

  lemma GiveUpKeepsInv(s: Link)
    requires Inv(s) && s.waiting.Some?
    ensures Inv(Next(s, GiveUp))
  {
    ResultsKept(s, Next(s, GiveUp));
  }

  /** Every step of the app, the worker or the socket keeps the invariant. */
  lemma NextKeepsInv(s: Link, step: Step)
    requires Inv(s) && Enabled(s, step)
    ensures Inv(Next(s, step))
  {
    match step
    case StartCall(call, written, delivered) => StartCallKeepsInv(s, call, written, delivered);
    case Execute(status, data) => ExecuteKeepsInv(s, status, data);
    case ReadReply => ReadReplyKeepsInv(s);
    case WriteReply(_) => ResultsKept(s, Next(s, step));
    case WorkerStops => ResultsKept(s, Next(s, step));
    case GiveUp => GiveUpKeepsInv(s);
  }

  predicate CanRun(s: Link, steps: seq<Step>)
    decreases |steps|
  {
    steps == [] || (Enabled(s, steps[0]) && CanRun(Next(s, steps[0]), steps[1..]))
  }

  function Run(s: Link, steps: seq<Step>): Link
    requires CanRun(s, steps)
    decreases |steps|
  {
    if steps == [] then s else Run(Next(s, steps[0]), steps[1..])
  }

  lemma {:induction false} RunKeepsInv(s: Link, steps: seq<Step>)
    requires Inv(s) && CanRun(s, steps)
    ensures Inv(Run(s, steps))
    decreases |steps|
  {
    if steps != [] {
      NextKeepsInv(s, steps[0]);
      RunKeepsInv(Next(s, steps[0]), steps[1..]);
    }
  }

  /** Over every run: the worker executes the app's requests in order, each at most once; a call that ends
      well was executed, with no error, and its bytes are that execution's own; the worker's replies are one
      per execution, in order, none overwritten before its write. */
  lemma EveryCallAtMostOnce(steps: seq<Step>)
    requires CanRun(START, steps)
    ensures var s := Run(START, steps);
            && AskedOf(s.executed) <= s.sent
            && |s.results| <= |s.sent|
            && (forall i :: 0 <= i < |s.results| && s.results[i].Done? ==>
                  i < |s.executed| && s.executed[i].to == s.sent[i] && s.executed[i].status == 0
                  && s.executed[i].data == s.results[i].head + s.results[i].dst)
            && (forall i :: 0 <= i < |s.results| && s.results[i].DeviceError? ==>
                  i < |s.executed| && s.executed[i].to == s.sent[i] && s.executed[i].status != 0
                  && s.executed[i].data == s.results[i].text)
            && s.executed == s.replied + (if s.pending.Some? then [s.pending.value] else [])
  {
    RunKeepsInv(START, steps);
    var s := Run(START, steps);
    assert AskedOf(s.executed) <= AskedOf(s.executed) + s.toWorker;
    forall i | 0 <= i < |s.executed| ensures s.executed[i].to == s.sent[i] {
      assert AskedOf(s.executed)[i] == s.sent[i];
    }
    forall i | 0 <= i < |s.results| && s.results[i].Done?
      ensures i < |s.executed| && s.executed[i].status == 0
              && s.executed[i].data == s.results[i].head + s.results[i].dst
    {
      assert Explains(s, i);
    }
    forall i | 0 <= i < |s.results| && s.results[i].DeviceError?
      ensures i < |s.executed| && s.executed[i].status != 0 && s.executed[i].data == s.results[i].text
    {
      assert Explains(s, i);
    }
  }

  /** A transport failure is the last thing a client does: no later call sends anything or ends at all, and
      the worker can only still execute what was on its way. */
  lemma {:induction false} FailureIsFinal(s: Link, steps: seq<Step>)
    requires Inv(s) && CanRun(s, steps) && s.client.failed
    ensures var t := Run(s, steps);
            t.client.failed && t.sent == s.sent && t.results == s.results
            && AskedOf(t.executed) + t.toWorker == AskedOf(s.executed) + s.toWorker
    decreases |steps|
  {
    if steps != [] {
      NextKeepsInv(s, steps[0]);
      assert s.waiting.None?;
      if steps[0].Execute? {
        ExecuteMoves(s, steps[0].status, steps[0].data);
      }
      FailureIsFinal(Next(s, steps[0]), steps[1..]);
    }
  }

  // ---------------------------------------------------------------- the objects updated in place

  /** v's n low bytes into a buffer, least significant first. */
  method PutInto(a: array<byte>, at: nat, v: nat, n: nat)
    requires at + n <= a.Length
    modifies a
    ensures forall i :: 0 <= i < a.Length ==>
              a[i] == if at <= i < at + n then PutLE(v, n)[i - at] else old(a[i])
  {
    var rest := PutLE(v, n);
    forall i | 0 <= i < n {
      a[at + i] := rest[i];
    }
  }

  class WorkerClient {
    var sequence: nat
    var failed: bool
    const request: array<byte>

    ghost function View(): Client
      reads this
    {
      Client(sequence, failed)
    }

    ghost predicate Valid()
      reads this
    {
      request.Length == HEADER + PARAMS && sequence < TWO32
    }

    constructor ()
      ensures Valid() && View() == START.client && fresh(request)
    {
      sequence, failed := 0, false;
      request := new byte[HEADER + PARAMS];
    }

    /** One call. The socket is what it does: written, whether it took the packet whole; reply, what the read
        then gave, None for an error or the deadline. */
    method CallSplit(call: Call, written: bool, reply: Option<Packet>) returns (packet: Option<Packet>, outcome: Outcome)
      requires Valid() && call.Valid()
      modifies this, request
      ensures Valid()
      ensures packet.Some? <==> !old(failed) && call.head + call.dst <= 65536 && |call.params| <= 52
      ensures sequence == if old(failed) || call.head + call.dst > 65536 then old(sequence) else (old(sequence) + 1) % TWO32
      ensures packet == if old(View()).Accepts(call) then Some(Request(old(View()).Begun(call).sequence, call)) else None
      ensures packet.None? ==> outcome.Refused? && View() == old(View()).Begun(call)
      ensures packet.Some? ==>
                (View(), outcome) == old(View()).Begun(call).Finish(call, if written then reply else None)
    {
      if failed {
        return None, Refused;
      }
      if call.Want() > PAYLOAD {
        return None, Refused;
      }
      sequence := (sequence + 1) % TWO32;
      if |call.params| > PARAMS {
        return None, Refused;
      }
      FillRequest(call);
      packet := Some(request[..HEADER + |call.params|]);
      var got := if written then reply else None;
      if got.None? || !FramedReply(got.value, sequence, call.op) {
        failed := true;
        return packet, TransportFailed;
      }
      var data := got.value[HEADER..];
      if got.value[10] != 0 {
        return packet, DeviceError(data);
      }
      if |data| > call.Want() {
        failed := true;
        return packet, TransportFailed;
      }
      var k := Min(call.head, |data|);
      return packet, Done(data[..k], data[k..]);
    }

    method FillRequest(call: Call)
      requires Valid() && call.Valid() && |call.params| <= PARAMS
      modifies request
      ensures request[..HEADER + |call.params|] == Request(sequence, call)
    {
      hide PutLE, TakesParams;
      forall i | 0 <= i < |call.params| {
        request[HEADER + i] := call.params[i];
      }
      PutInto(request, 0, MAGIC, 4);
      PutInto(request, 4, sequence, 4);
      PutInto(request, 8, call.op, 2);
      request[10], request[11] := call.plane, 1;
      PutInto(request, 12, call.selector, 2);
      PutInto(request, 14, call.value, 2);
      PutInto(request, 16, call.Want(), 4);
      PutInto(request, 20, call.epoch, 4);
    }
  }

  function Status(err: bool): byte {
    if err then 1 else 0
  }

  class WorkerServer {
    const response: array<byte>
    var pending: nat

    ghost predicate Valid()
      reads this
    {
      response.Length == HEADER + PAYLOAD && (pending == 0 || HEADER <= pending <= response.Length)
    }

    /** The reply not written yet. */
    ghost function Held(): seq<Packet>
      requires Valid()
      reads this, response
    {
      if pending == 0 then [] else [response[..pending]]
    }

    constructor ()
      ensures Valid() && Held() == [] && fresh(response)
    {
      response := new byte[HEADER + PAYLOAD];
      pending := 0;
    }

    /** Builds the reply to a request over the request's own header, in the response buffer. */
    method Respond(request: Packet, err: bool, data: seq<byte>) returns (n: nat)
      requires Valid() && pending == 0 && FramedRequest(request) && |data| <= PAYLOAD
      modifies response
      ensures n == HEADER + |data| && response[..n] == Response(request, Status(err), data)
      ensures response[10] == if err then 1 else 0
    {
      hide Response, PutLE;
      forall i | 0 <= i < HEADER {
        response[i] := request[i];
      }
      response[10] := 0;
      forall i | 0 <= i < |data| {
        response[HEADER + i] := data[i];
      }
      if err {
        response[10] := 1;
      }
      PutInto(response, 16, |data|, 4);
      ghost var p := Response(request, Status(err), data);
      forall i | 0 <= i < |p| ensures response[i] == p[i] {
        ResponseAt(request, Status(err), data, i);
      }
      assert response[..|p|] == p;
      return HEADER + |data|;
    }

    /** One turn of the loop: canWrite and canAnswer say whether the socket takes a reply now, incoming what it
        holds to read, err and data what the request's handling comes to. The replies built and the reply
        held before are the replies written and the reply held after: none is lost or written over. */
    method Turn(canWrite: bool, incoming: Option<Packet>, canAnswer: bool, err: bool, data: seq<byte>)
      returns (written: seq<Packet>, built: seq<Packet>, stop: bool)
      requires Valid() && |data| <= PAYLOAD
      modifies this`pending, response
      ensures Valid()
      ensures old(Held()) + built == written + Held()
      ensures built == if incoming.Some? && (old(pending) == 0 || canWrite) && FramedRequest(incoming.value)
                       then [Response(incoming.value, Status(err), data)] else []
      ensures stop <==> incoming.Some? && (old(pending) == 0 || canWrite) && !FramedRequest(incoming.value)
    {
      written, built, stop := [], [], false;
      if pending != 0 && canWrite {
        written := [response[..pending]];
        pending := 0;
      }
      if pending == 0 && incoming.Some? {
        if !FramedRequest(incoming.value) {
          return written, [], true;
        }
        pending := Respond(incoming.value, err, data);
        built := [response[..pending]];
        if canAnswer {
          written := written + [response[..pending]];
          pending := 0;
        }
      }
    }
  }
}
