/**
 What the app gets of each of its calls: the packet of a call, taken apart by the
 worker's handling of it, told in the call's own fields.
 */
module WorkerCalls {
  import opened Basics
  import opened EventQueue
  import opened WorkerHandle
  import StreamRing
  import WorkerProtocol

  /** The worker handles a call's packet. */
  ghost predicate Served(sequence: nat, call: WorkerProtocol.Call, was: State, now: State, r: Reply, w: World) {
    && call.Valid() && call.Want() <= 65536 && |call.params| <= 52 && sequence < TWO32 && was.Valid()
    && Handled(WorkerProtocol.Request(sequence, call), was, now, r, w)
  }

  /** What is promised of the packet is promised of the call: its own operation, plane, register, value, count, epoch and
      parameters. */
  lemma CallIsItsPacket(sequence: nat, call: WorkerProtocol.Call, was: State, now: State, r: Reply, w: World)
    requires Served(sequence, call, was, now, r, w)
    ensures Promises(call.op, call.plane, call.selector, call.value, call.head + call.dst, call.epoch, call.params,
                     was, now, r, w)
  {
    hide Promises, WorkerProtocol.Request, WorkerProtocol.U16At, WorkerProtocol.U32At, PutLE;
    WorkerProtocol.RequestFields(sequence, call);
  }

  /** Which requests the worker does not survive, of a count that is negative in 32 bits, or a shared recall of such a
      size. */
  lemma EndsTheWorker(op: nat, sel: nat, value: nat, bytes: int, asked: nat, params: seq<byte>, q: Queue,
                      sw: StreamRing.Worker)
    requires sel < 0x1_0000 && value < 0x1_0000
    ensures var recall := |params| >= 16 && (|params| - 4) % 12 == 0;
            Crashes(op, sel, value, bytes, asked, params, q, sw)
            <==> || (op == 3 && bytes < 0 && bytes % 2 == 0 && sel <= 127 && !(q.active && sel == 59))
                 || (op == 4 && bytes < 0 && bytes % 32 == 0 && q.active && asked == q.epoch && q.fault.None?)
                 || (op == 6 && bytes < 0 && q.active && q.lines.Some? && asked == q.epoch && q.fault.None?)
                 || (op == 9 && bytes < 0 && recall)
                 || (op == 14 && bytes == 4 && recall && !sw.on && sw.shared && sel >= 0x8000)
                 || (op == 15 && bytes < 0)
  {
  }

  // ---------------------------------------------------------------- registers

  /** A read is of the register named, in the plane named, and gives its word; not of a running stream's event port. */
  lemma ReadIsOfItsRegister(sequence: nat, call: WorkerProtocol.Call, was: State, now: State, r: Reply, w: World)
    requires Served(sequence, call, was, now, r, w) && call.op == 1
    ensures now.q == was.q && now.sw == was.sw
    ensures var asks := call.head + call.dst == 2 && (call.plane == 1 || call.plane == 3) && call.selector <= 127
                        && !(was.q.active && call.plane == 1 && call.selector == 59);
            if !asks then now.log == was.log && r == Refused
            else
              && now.log == was.log + [Access(Reads, call.plane as nat, call.selector, 0, was.q.active)]
              && (w.Word(0).None? ==> r == Refused)
              && (w.Word(0).Some? && w.Word(0).value < 0x1_0000 ==>
                    r.Data? && |r.bytes| == 2 && w.Word(0).value == r.bytes[0] as nat + 0x100 * r.bytes[1] as nat)
  {
    CallIsItsPacket(sequence, call, was, now, r, w);
    hide StreamDoes, QueueDoes, AnswerDoes, Crashes, PutLE;
    if w.Word(0).Some? && w.Word(0).value < 0x1_0000 {
      TwoBytes(w.Word(0).value);
    }
  }

  /** A write is to the register named; the stream's control starts or stops the stream and nothing else does. */
  lemma WriteIsToItsRegister(sequence: nat, call: WorkerProtocol.Call, was: State, now: State, r: Reply, w: World)
    requires Served(sequence, call, was, now, r, w) && call.op == 2
    ensures now.sw == was.sw
    ensures var asks := call.head + call.dst == 0 && (call.plane == 1 || call.plane == 3) && call.selector <= 127
                        && !(call.plane == 3 && call.selector == 7)
                        && !(was.q.active && call.plane == 1 && (call.selector == 60 || call.selector == 76));
            var control := call.plane == 1 && call.selector == 57;
            && now.log == was.log + (if asks then [Access(Writes, call.plane as nat, call.selector, call.value, was.q.active)] else [])
            && (!asks || w.Word(0).None? || !control ==> now.q == was.q)
            && (r == Data([]) <==> asks && w.Word(0).Some? && (control && call.value % 2 == 1 ==> w.Started(0).Some?))
            && (r != Data([]) ==> r == Refused)
            && (asks && w.Word(0).Some? && control ==>
                  && now.q.count == 0 && now.q.fault.None? && now.q.lines.None?
                  && (now.q.active <==> call.value % 2 == 1 && w.Started(0).Some?)
                  && (now.q.active ==> now.q.epoch == w.Started(0).value))
  {
    CallIsItsPacket(sequence, call, was, now, r, w);
    hide StreamDoes, QueueDoes, AnswerDoes, Crashes;
  }

  /** Bytes popped of the port named, on plane 1. */
  lemma PopIsOfItsPort(sequence: nat, call: WorkerProtocol.Call, was: State, now: State, r: Reply, w: World)
    requires Served(sequence, call, was, now, r, w) && call.op == 3
    ensures now.q == was.q && now.sw == was.sw
    ensures var n := call.head + call.dst;
            var asks := n != 0 && n % 2 == 0 && call.selector <= 127 && !(was.q.active && call.selector == 59);
            && now.log == was.log + (if asks then [Access(Pops, 1, call.selector, 0, was.q.active)] else [])
            && if !asks || !w.ok then r == Refused
               else r.Data? && |r.bytes| == n && forall i :: 0 <= i < n && i < |w.bytes| ==> r.bytes[i] == w.bytes[i]
  {
    CallIsItsPacket(sequence, call, was, now, r, w);
    hide StreamDoes, QueueDoes, AnswerDoes, Crashes;
  }

  /** Register k of a list of reads: two bytes of the parameters, the low one first. */
  function ReadAt(params: seq<byte>, k: nat): nat
    requires 2 * k + 1 < |params|
  {
    params[2 * k] as nat + 0x100 * params[2 * k + 1] as nat
  }

  lemma SelectorAt(params: seq<byte>, k: nat)
    requires 2 * k + 2 <= |params|
    ensures SelAt(params, k) == ReadAt(params, k)
  {
    PairOf(params[2 * k..2 * k + 2]);
  }

  lemma PairOf(b: seq<byte>)
    requires |b| == 2
    ensures GetLE(b) == b[0] as nat + 0x100 * b[1] as nat
  {
    assert GetLE(b[1..]) == b[1] + 256 * GetLE(b[1..][1..]);
  }

  lemma {:induction false} WordAt(w: World, n: nat, k: nat)
    requires k < n && w.Word(k).Some?
    ensures WordsRead(w, n)[2 * k..2 * k + 2] == PutLE(w.Word(k).value, 2)
  {
    if k < n - 1 {
      WordAt(w, n - 1, k);
      assert WordsRead(w, n)[2 * k..2 * k + 2] == WordsRead(w, n - 1)[2 * k..2 * k + 2];
    }
  }

  /** A list of reads is of the registers its parameters name, in order, and gives all their words or an error. */
  lemma ReadsAreOfTheirRegisters(sequence: nat, call: WorkerProtocol.Call, was: State, now: State, r: Reply, w: World,
                                 k: nat)
    requires Served(sequence, call, was, now, r, w) && call.op == 11
    requires 2 * k + 1 < |call.params|
    ensures now.q == was.q && now.sw == was.sw && was.log <= now.log
    ensures k < |now.log| - |was.log| ==>
              now.log[|was.log| + k] == Access(Reads, call.plane as nat, ReadAt(call.params, k), 0, was.q.active)
    ensures r.Data? ==>
              && |r.bytes| == |call.params| && |now.log| == |was.log| + |call.params| / 2 && w.Word(k).Some?
              && (w.Word(k).value < 0x1_0000 ==>
                    w.Word(k).value == r.bytes[2 * k] as nat + 0x100 * r.bytes[2 * k + 1] as nat)
  {
    hide Served, PutLE, SelAt, WordsRead, World.Word, ReadsWell, ReadAllowed, ReadAt;
    ListOfReads(sequence, call, was, now, r, w);
    SelectorAt(call.params, k);
    if r.Data? {
      WordsAreRead(call.plane as nat, call.params, call.head + call.dst, was.q.active, w, k);
    }
  }

  lemma WordsAreRead(plane: nat, params: seq<byte>, bytes: int, active: bool, w: World, k: nat)
    requires ReadsWell(plane, params, bytes, active, w) && 2 * k + 1 < |params|
    ensures w.Word(k).Some? && |WordsRead(w, |params| / 2)| == |params|
    ensures var b := WordsRead(w, |params| / 2);
            w.Word(k).value < 0x1_0000 ==> w.Word(k).value == b[2 * k] as nat + 0x100 * b[2 * k + 1] as nat
  {
    hide PutLE, SelAt, WordsRead, World.Word, ReadAllowed;
    var b := WordsRead(w, |params| / 2);
    WordAt(w, |params| / 2, k);
    if w.Word(k).value < 0x1_0000 {
      TwoBytes(w.Word(k).value);
      assert b[2 * k] == b[2 * k..2 * k + 2][0] && b[2 * k + 1] == b[2 * k..2 * k + 2][1];
    }
  }

  /** They are all made exactly when each is of a register, none is the running stream's event port, and the hardware
      answers them. */
  lemma ReadsAreMade(sequence: nat, call: WorkerProtocol.Call, was: State, now: State, r: Reply, w: World)
    requires Served(sequence, call, was, now, r, w) && call.op == 11
    ensures r.Data? <==>
              && |call.params| >= 2 && |call.params| % 2 == 0 && call.head + call.dst == |call.params|
              && (call.plane == 1 || call.plane == 3)
              && forall i :: 0 <= i < |call.params| / 2 ==>
                   && ReadAt(call.params, i) <= 127 && w.Word(i).Some?
                   && !(was.q.active && call.plane == 1 && ReadAt(call.params, i) == 59)
  {
    hide Served, SelAt, WordsRead, World.Word, ReadAt;
    ListOfReads(sequence, call, was, now, r, w);
    forall i | 0 <= i < |call.params| / 2 ensures SelAt(call.params, i) == ReadAt(call.params, i) {
      SelectorAt(call.params, i);
    }
  }

  lemma ListOfReads(sequence: nat, call: WorkerProtocol.Call, was: State, now: State, r: Reply, w: World)
    requires Served(sequence, call, was, now, r, w) && call.op == 11
    ensures now.sw == was.sw
    ensures ReadsDo(call.plane as nat, call.params, call.head + call.dst, was.q, now.q, was.log, now.log, r, w)
  {
    CallIsItsPacket(sequence, call, was, now, r, w);
    hide StreamDoes, QueueDoes, AnswerDoes, Crashes, ReadsDo;
  }

  /** Register and value k of a list of writes. */
  function WriteAt(params: seq<byte>, k: nat): (nat, nat)
    requires 4 * k + 3 < |params|
  {
    (params[4 * k] as nat + 0x100 * params[4 * k + 1] as nat, params[4 * k + 2] as nat + 0x100 * params[4 * k + 3] as nat)
  }

  lemma SelectorAndValueAt(params: seq<byte>, k: nat)
    requires 4 * k + 4 <= |params|
    ensures (SelOf(params, k), ValueOf(params, k)) == WriteAt(params, k)
  {
    PairOf(params[4 * k..4 * k + 2]);
    PairOf(params[4 * k + 2..4 * k + 4]);
  }

  lemma {:induction false} WriteIs(q: Queue, params: seq<byte>, n: nat, w: World, k: nat)
    requires 4 * n <= |params| && k < n
    ensures |WritesOf(q, params, n, w)| == n
    ensures WritesOf(q, params, n, w)[k]
            == Access(Writes, 1, WriteAt(params, k).0, WriteAt(params, k).1, AfterWrites(q, params, k, w).active)
  {
    NoneWritten(q, params, w);
    OneMoreWrite(q, params, n - 1, w);
    SelectorAndValueAt(params, n - 1);
    if n > 1 {
      WriteIs(q, params, n - 1, w, if k < n - 1 then k else 0);
    }
  }

  /** Writes that leave the stream's control alone leave the stream alone. */
  lemma {:induction false} StreamIsLeft(q: Queue, params: seq<byte>, n: nat, w: World)
    requires 4 * n <= |params| && forall k :: 0 <= k < n ==> WriteAt(params, k).0 != 57
    ensures AfterWrites(q, params, n, w) == q
  {
    NoneWritten(q, params, w);
    if n > 0 {
      StreamIsLeft(q, params, n - 1, w);
      OneMoreWrite(q, params, n - 1, w);
      SelectorAndValueAt(params, n - 1);
      assert WriteAt(params, n - 1).0 != 57;
    }
  }

  /** A list of writes is to the registers its parameters name, with the values they name, in order. */
  lemma WritesAreToTheirRegisters(sequence: nat, call: WorkerProtocol.Call, was: State, now: State, r: Reply, w: World,
                                  k: nat)
    requires Served(sequence, call, was, now, r, w) && call.op == 12
    requires 4 * k + 3 < |call.params|
    ensures now.sw == was.sw && was.log <= now.log
    ensures k < |now.log| - |was.log| ==>
              var a := now.log[|was.log| + k];
              a.kind == Writes && a.plane == 1 && (a.sel, a.value) == WriteAt(call.params, k)
    ensures r.Data? ==> r.bytes == [] && |call.params| % 4 == 0 && 4 * (|now.log| - |was.log|) == |call.params|
                        && call.plane == 1 && call.head + call.dst == 0 && w.Word(k).Some?
  {
    hide Served, SelOf, ValueOf, World.Word, AfterWrites, WritesOf, WriteMay, WriteAllowed;
    ListOfWrites(sequence, call, was, now, r, w);
    var n := |now.log| - |was.log|;
    if k < n {
      WriteIs(was.q, call.params, n, w, k);
    }
    if r.Data? {
      assert WriteTook(call.params, k, w);
    }
  }

  /** Those that leave the stream's control alone are all made exactly when each is to a register, none is the running
      stream's own, and the hardware takes them. */
  lemma PlainWritesAreMade(sequence: nat, call: WorkerProtocol.Call, was: State, now: State, r: Reply, w: World)
    requires Served(sequence, call, was, now, r, w) && call.op == 12
    requires |call.params| >= 4 && |call.params| % 4 == 0
    requires forall k :: 0 <= k < |call.params| / 4 ==> WriteAt(call.params, k).0 != 57
    ensures now.q == was.q
    ensures r == Data([]) <==>
              && call.plane == 1 && call.head + call.dst == 0
              && forall k :: 0 <= k < |call.params| / 4 ==>
                   && WriteAt(call.params, k).0 <= 127 && w.Word(k).Some?
                   && !(was.q.active && (WriteAt(call.params, k).0 == 60 || WriteAt(call.params, k).0 == 76))
  {
    hide Served, SelOf, ValueOf, World.Word, AfterWrites, WritesOf;
    ListOfWrites(sequence, call, was, now, r, w);
    forall k | 0 <= k < |call.params| / 4 ensures (SelOf(call.params, k), ValueOf(call.params, k)) == WriteAt(call.params, k) {
      SelectorAndValueAt(call.params, k);
    }
    forall m | 0 <= 4 * m <= |call.params| ensures AfterWrites(was.q, call.params, m, w) == was.q {
      StreamIsLeft(was.q, call.params, m, w);
    }
    PlainWritesDo(call.plane as nat, call.params, call.head + call.dst, was.q, now.q, was.log, now.log, r, w);
  }

  lemma PlainWritesDo(plane: nat, params: seq<byte>, bytes: int, was: Queue, now: Queue, log: seq<Access>,
                      after: seq<Access>, r: Reply, w: World)
    requires WritesDo(plane, params, bytes, was, now, log, after, r, w) && |params| >= 4 && |params| % 4 == 0
    requires forall k :: 0 <= k < |params| / 4 ==> (SelOf(params, k), ValueOf(params, k)) == WriteAt(params, k)
    requires forall m :: 0 <= m <= |params| / 4 ==> AfterWrites(was, params, m, w) == was
    requires forall k :: 0 <= k < |params| / 4 ==> WriteAt(params, k).0 != 57
    ensures now == was
    ensures r == Data([]) <==>
              && plane == 1 && bytes == 0
              && forall k :: 0 <= k < |params| / 4 ==>
                   && WriteAt(params, k).0 <= 127 && w.Word(k).Some?
                   && !(was.active && (WriteAt(params, k).0 == 60 || WriteAt(params, k).0 == 76))
  {
    hide SelOf, ValueOf, World.Word, AfterWrites, WritesOf, WriteAt;
    var made := |after| - |log|;
    if r.Data? {
      assert made == |params| / 4;
      forall k | 0 <= k < made ensures WriteTook(params, k, w) && WriteAllowed(1, SelOf(params, k), was.active) {
        assert WriteMay(was, params, k, w) && AfterWrites(was, params, k, w) == was;
      }
    } else if WritesFramed(plane, params, bytes) {
      if made > 0 && !WriteTook(params, made - 1, w) {
        assert WriteAt(params, made - 1).0 != 57;
      } else {
        assert !WriteAllowed(1, SelOf(params, made), was.active);
      }
    }
  }

  lemma ListOfWrites(sequence: nat, call: WorkerProtocol.Call, was: State, now: State, r: Reply, w: World)
    requires Served(sequence, call, was, now, r, w) && call.op == 12
    ensures now.sw == was.sw
    ensures WritesDo(call.plane as nat, call.params, call.head + call.dst, was.q, now.q, was.log, now.log, r, w)
  {
    CallIsItsPacket(sequence, call, was, now, r, w);
    hide StreamDoes, QueueDoes, AnswerDoes, Crashes, WritesDo;
  }

  // ---------------------------------------------------------------- the event queue

  lemma {:induction false} EventAt(rs: seq<Record>, i: nat)
    requires i < |rs|
    ensures Flat(rs)[32 * i..32 * i + 32] == rs[i]
  {
    hide Flat;
    var n := |rs| - 1;
    LastEvent(rs);
    if i < n {
      EventAt(rs[..n], i);
      BothParts(Flat(rs[..n]), rs[n], 32 * i, 32 * i + 32);
    } else {
      Behind(Flat(rs[..n]), rs[n], []);
    }
  }

  lemma LastEvent(rs: seq<Record>)
    requires rs != []
    ensures Flat(rs) == Flat(rs[..|rs| - 1]) + rs[|rs| - 1]
  {
  }

  lemma BothParts(a: seq<byte>, b: seq<byte>, i: nat, j: nat)
    requires i <= j <= |a|
    ensures (a + b)[i..j] == a[i..j]
  {
  }

  /** The events a request for some bytes gets: the oldest, 32 bytes each, as many as wait and fit. */
  ghost predicate GivesEvents(waiting: seq<Record>, bytes: nat, now: Queue, r: Reply, n: nat) {
    && n <= |waiting| && 32 * n <= bytes && (n == |waiting| || 32 * (n + 1) > bytes)
    && now.Valid() && now.Contents() == waiting[n..]
    && r.Data? && |r.bytes| == 32 * n && forall i :: 0 <= i < n ==> r.bytes[32 * i..32 * i + 32] == waiting[i]
  }

  lemma EventsAreTheOldest(sequence: nat, call: WorkerProtocol.Call, was: State, now: State, r: Reply, w: World)
    requires Served(sequence, call, was, now, r, w) && call.op == 4
    ensures now.sw == was.sw && now.log == was.log
    ensures var bytes := call.head + call.dst;
            if bytes == 0 || bytes % 32 != 0 || !was.q.active || call.epoch != was.q.epoch || was.q.fault.Some?
            then r == Refused && now.q == was.q
            else exists n: nat :: GivesEvents(was.q.Contents(), bytes, now.q, r, n)
  {
    hide Served, Flat, Queue.Contents, GivesEvents;
    QueueOf(sequence, call, was, now, r, w);
    if was.q.Answers(call.head + call.dst, call.epoch) {
      EventsGiven(was.q, call.head + call.dst, r);
    }
  }

  lemma EventsGiven(q: Queue, bytes: nat, r: Reply)
    requires q.Valid() && bytes % 32 == 0 && r == Data(Flat(q.Contents()[..q.Amount(bytes)]))
    ensures GivesEvents(q.Contents(), bytes, q.Taken(q.Amount(bytes)), r, q.Amount(bytes))
  {
    hide Flat, Queue.Contents, Queue.Taken;
    var n := q.Amount(bytes);
    TakenDrops(q, n);
    var given := q.Contents()[..n];
    forall i | 0 <= i < n ensures Flat(given)[32 * i..32 * i + 32] == q.Contents()[i] {
      EventAt(given, i);
    }
  }

  /** What is promised of the event queue's operations, and that nothing else is touched. */
  lemma QueueOf(sequence: nat, call: WorkerProtocol.Call, was: State, now: State, r: Reply, w: World)
    requires Served(sequence, call, was, now, r, w) && OnQueue(call.op)
    ensures was.Valid() && now.sw == was.sw && now.log == was.log
    ensures QueueDoes(call.op, call.value, call.head + call.dst, call.epoch, was.q, now.q, r)
  {
    CallIsItsPacket(sequence, call, was, now, r, w);
    hide StreamDoes, AnswerDoes, Crashes, QueueDoes;
  }

  /** Lines instead of events, or events again. */
  lemma LineModeIsTurned(sequence: nat, call: WorkerProtocol.Call, was: State, now: State, r: Reply, w: World)
    requires Served(sequence, call, was, now, r, w) && call.op == 5
    ensures now.sw == was.sw && now.log == was.log
    ensures if !was.q.active || call.head + call.dst != 0 then r == Refused && now.q == was.q
            else
              && r == Data([])
              && (call.value == 0 ==> now.q == was.q.(lines := None))
              && (call.value != 0 ==>
                    && now.q.lines.Some? && RecordsOf(now.q.lines.value) == was.q.Contents() && now.q.count == 0
                    && (Marked(now.q.lines.value) <==> was.q.fault == Some(Overflow)))
  {
    hide Served, RecordsOf, Marked, Queue.Begun;
    QueueOf(sequence, call, was, now, r, w);
    BegunTells(was.q);
  }

  // ---------------------------------------------------------------- the stream

  lemma PumpIsTurned(sequence: nat, call: WorkerProtocol.Call, was: State, now: State, r: Reply, w: World)
    requires Served(sequence, call, was, now, r, w) && call.op == 7
    ensures now.q == was.q && now.log == was.log
    ensures if call.head + call.dst != 0 then r == Refused && now.sw == was.sw
            else
              && (r == Data([]) <==> w.ok) && (r == Refused <==> !w.ok)
              && (now.sw.on <==> call.value % 2 == 1) && now.sw.Valid() && now.sw.Contents() == []
              && now.sw.first == 0 && !now.sw.fault && now.sw.ring == was.sw.ring && now.sw.shared == was.sw.shared
  {
    hide Served;
    StreamOf(sequence, call, was, now, r, w);
  }

  /** The words a copying read gets: the oldest, whole, as many as wait and fit behind their ordinal. */
  ghost predicate GivesWords(was: StreamRing.Worker, limit: nat, now: StreamRing.Worker, r: Reply, n: nat)
    requires was.Valid() && was.count % 4 == 0
  {
    && n % 4 == 0 && n <= was.count && n + 8 <= limit && (n == was.count || n + 4 + 8 > limit)
    && r.Data? && |r.bytes| == 8 + n && GetLE(r.bytes[..8]) == was.first && r.bytes[8..] == was.Contents()[..n]
    && now.Valid() && now.Contents() == was.Contents()[n..]
  }

  lemma WordsAreTheOldest(sequence: nat, call: WorkerProtocol.Call, was: State, now: State, r: Reply, w: World)
    requires Served(sequence, call, was, now, r, w) && call.op == 8 && was.sw.count % 4 == 0
    ensures now.q == was.q && now.log == was.log
    ensures var limit := call.head + call.dst;
            if limit < 8 || !was.sw.on || was.sw.fault then r == Refused && now.sw == was.sw
            else exists n: nat :: GivesWords(was.sw, limit, now.sw, r, n)
  {
    hide Served, PutLE, GetLE, StreamRing.Worker.Contents, StreamRing.Worker.Bytes;
    StreamOf(sequence, call, was, now, r, w);
    var limit := call.head + call.dst;
    if limit >= 8 && was.sw.on && !was.sw.fault {
      var n := was.sw.Amount(limit);
      FirstWords(was.sw, n);
      Pow256Values();
      GetPutLE(was.sw.first, 8);
      StreamRing.WordsFill(limit - 8, was.sw.count);
      StreamRing.ReleaseDrops(was.sw, n);
      assert GivesWords(was.sw, limit, now.sw, r, n) by {
        Behind(PutLE(was.sw.first, 8), was.sw.Bytes(0, n), now.sw.Contents());
      }
    }
  }

  lemma FirstWords(sw: StreamRing.Worker, n: nat)
    requires sw.Valid() && n <= sw.count
    ensures sw.Bytes(0, n) == sw.Contents()[..n]
  {
  }

  lemma Behind(a: seq<byte>, b: seq<byte>, c: seq<byte>)
    ensures (a + b)[..|a|] == a && (a + b)[|a|..] == b && (b + c)[|b|..] == c
  {
  }

  /** A peek gives back what it says, if that much is queued, and tells the place and the length of the rest. */
  lemma PeekTellsTheRest(sequence: nat, call: WorkerProtocol.Call, was: State, now: State, r: Reply, w: World)
    requires Served(sequence, call, was, now, r, w) && call.op == 13 && call.epoch < 0x8000_0000
    ensures now.q == was.q && now.log == was.log
    ensures var gives := was.sw.on && was.sw.shared && call.epoch % 4 == 0 && call.epoch <= was.sw.count;
            && (r.Data? <==> gives && !was.sw.fault) && (!r.Data? ==> r == Refused)
            && (if gives then now.sw.Valid() && now.sw.Contents() == was.sw.Contents()[call.epoch..] else now.sw == was.sw)
            && (r.Data? ==>
                  && |r.bytes| == 16 && GetLE(r.bytes[..8]) == (was.sw.first + call.epoch / 4) % 0x1_0000_0000_0000_0000
                  && GetLE(r.bytes[8..12]) == now.sw.head && GetLE(r.bytes[12..]) == now.sw.count)
  {
    hide Served, PutLE, GetLE, PeekData, StreamRing.Worker.Contents, StreamRing.Worker.Bytes;
    StreamOf(sequence, call, was, now, r, w);
    var peek := was.sw.Peek(call.epoch).1;
    PeekAnswer(peek);
    if was.sw.on && was.sw.shared && call.epoch % 4 == 0 && call.epoch <= was.sw.count {
      StreamRing.ReleaseDrops(was.sw, call.epoch);
      Behind([], was.sw.Bytes(0, call.epoch), now.sw.Contents());
      if peek.Ready? {
        PeekIsCut(peek);
      }
    }
  }

  lemma PeekIsCut(peek: StreamRing.PeekReply)
    requires peek.Ready? && peek.first < TWO64 && 0 <= peek.at < TWO31 && 0 <= peek.count < TWO31
    ensures var r := PeekData(peek);
            && r.Data? && |r.bytes| == 16 && GetLE(r.bytes[..8]) == peek.first
            && GetLE(r.bytes[8..12]) == peek.at && GetLE(r.bytes[12..]) == peek.count
  {
    hide PutLE, GetLE, Pow256;
    Pow256Values();
    GetPutLE(peek.first, 8);
    GetPutLE(peek.at, 4);
    GetPutLE(peek.count, 4);
    PeekCut(PutLE(peek.first, 8), PutLE(peek.at, 4), PutLE(peek.count, 4));
  }

  /** A recall into the shared ring: of the size in the register's and the value's 32 bits. */
  lemma SharedRecallFillsTheRing(sequence: nat, call: WorkerProtocol.Call, was: State, now: State, r: Reply, w: World)
    requires Served(sequence, call, was, now, r, w) && call.op == 14 && call.selector < 0x8000
    ensures now.q == was.q && now.log == was.log
    ensures var size := call.selector * 0x1_0000 + call.value;
            var n := Min(|w.bytes|, size);
            if call.head + call.dst != 4 || |call.params| < 16 || (|call.params| - 4) % 12 != 0 || size == 0
            then r == Refused && now.sw == was.sw
            else if was.sw.on || !was.sw.shared || size > |was.sw.ring| then r == Data([0, 0, 0, 0]) && now.sw == was.sw
            else
              && |now.sw.ring| == |was.sw.ring| && now.sw == was.sw.(ring := now.sw.ring)
              && now.sw.ring[..n] == w.bytes[..n] && now.sw.ring[n..] == was.sw.ring[n..]
              && (r.Data? <==> w.ok && n == size) && (!r.Data? ==> r == Refused)
              && (r.Data? ==>
                    && |r.bytes| == 4
                    && size == r.bytes[0] as nat + 0x100 * r.bytes[1] as nat + 0x1_0000 * r.bytes[2] as nat
                               + 0x100_0000 * r.bytes[3] as nat)
  {
    hide Served, SharedDoes, PutLE, Int32;
    StreamOf(sequence, call, was, now, r, w);
    SizeIs(call.selector, call.value);
    SharedFills(call.head + call.dst, call.selector * 0x1_0000 + call.value, call.params, was.sw, now.sw, r, w);
  }

  lemma SizeIs(sel: nat, value: nat)
    requires sel < 0x8000 && value < 0x1_0000
    ensures SharedSize(sel, value) == sel * 0x1_0000 + value < TWO31
  {
  }

  lemma SharedFills(bytes: int, size: nat, params: seq<byte>, was: StreamRing.Worker, now: StreamRing.Worker, r: Reply,
                    w: World)
    requires SharedDoes(bytes, size, params, was, now, r, w) && size < TWO31
    ensures var n := Min(|w.bytes|, size);
            if bytes != 4 || |params| < 16 || (|params| - 4) % 12 != 0 || size == 0 then r == Refused && now == was
            else if was.on || !was.shared || size > |was.ring| then r == Data([0, 0, 0, 0]) && now == was
            else
              && |now.ring| == |was.ring| && now == was.(ring := now.ring)
              && now.ring[..n] == w.bytes[..n] && now.ring[n..] == was.ring[n..]
              && (r.Data? <==> w.ok && n == size) && (!r.Data? ==> r == Refused)
              && (r.Data? ==>
                    && |r.bytes| == 4
                    && size == r.bytes[0] as nat + 0x100 * r.bytes[1] as nat + 0x1_0000 * r.bytes[2] as nat
                               + 0x100_0000 * r.bytes[3] as nat)
  {
    hide PutLE;
    FourBytes(0);
    FourBytes(size);
  }

  /** What is promised of the stream's operations, and that nothing else is touched. */
  lemma StreamOf(sequence: nat, call: WorkerProtocol.Call, was: State, now: State, r: Reply, w: World)
    requires Served(sequence, call, was, now, r, w) && OnStream(call.op)
    ensures call.Valid() && was.Valid() && now.q == was.q && now.log == was.log
    ensures StreamDoes(call.op, call.selector, call.value, call.head + call.dst, call.epoch, call.params,
                       was.sw, now.sw, r, w)
  {
    CallIsItsPacket(sequence, call, was, now, r, w);
    hide QueueDoes, AnswerDoes, Crashes, StreamDoes;
  }

  // ---------------------------------------------------------------- what only answers

  /** Hello, transcript lines, a recall, a stack download and the panel's words, and any operation there is not. */
  lemma AnswersAreAsAsked(sequence: nat, call: WorkerProtocol.Call, was: State, now: State, r: Reply, w: World)
    requires Served(sequence, call, was, now, r, w)
    requires call.op == 0 || call.op == 6 || call.op == 9 || call.op == 10 || call.op >= 15
    ensures now == was
    ensures var n := call.head + call.dst;
            && (call.op == 0 ==> r == if n == 1 then Data([if w.fast then 1 else 0]) else Refused)
            && (call.op == 6 ==>
                  if !was.q.active || was.q.lines.None? || call.epoch != was.q.epoch || was.q.fault.Some? then r == Refused
                  else r == Data(if |w.bytes| <= n then w.bytes else w.bytes[..n]))
            && (call.op == 9 ==>
                  if n == 0 || |call.params| < 16 || (|call.params| - 4) % 12 != 0 || !w.ok || |w.bytes| < n then r == Refused
                  else r == Data(w.bytes[..n]))
            && (call.op == 10 ==> if n == 22 && w.ok then r.Data? && |r.bytes| == 22 else r == Refused)
            && (call.op == 15 ==> if w.ok then r.Data? && |r.bytes| == n else r == Refused)
            && (call.op > 15 ==> r == Refused)
            && (call.op == 10 || call.op == 15 ==>
                  r.Data? ==> forall i :: 0 <= i < n && i < |w.bytes| ==> r.bytes[i] == w.bytes[i])
  {
    CallIsItsPacket(sequence, call, was, now, r, w);
    hide QueueDoes, StreamDoes, Crashes;
  }
}
