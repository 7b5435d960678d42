/**
 The worker's queue of decoded events: the pump drains the FPGA's events into a ring,
 the app takes them in its requests, or the worker builds the transcript's lines of
 them. What the queue cannot hold ends the transcript, or marks it.
 */
module EventQueue {
  import opened Basics

  const EVENTS: nat := 131072
  const EVENT_BYTES: nat := 32

  /** An event as it is stored and sent. */
  type Record = e: seq<byte> | |e| == EVENT_BYTES witness seq(EVENT_BYTES, _ => 0)

  /** An event the FPGA gave; one that is not valid has no record. */
  datatype Decoded = Decoded(rec: Record, valid: bool)

  datatype Drained = Failed | Batch(events: seq<Decoded>)

  datatype Fault = Overflow | Malformed | Device

  /** What goes into a transcript: an event, or the mark of a loss. */
  datatype Line = Told(rec: Record) | Loss(count: nat)

  /** Crashed is the end of the worker process. */
  datatype Reply = Refused | Data(bytes: seq<byte>) | Crashed

  function LinesOf(es: seq<Decoded>): (ls: seq<Line>)
    ensures |ls| == |es|
  {
    seq(|es|, i requires 0 <= i < |es| => Told(es[i].rec))
  }

  function TellAll(rs: seq<Record>): (ls: seq<Line>)
    ensures |ls| == |rs|
  {
    seq(|rs|, i requires 0 <= i < |rs| => Told(rs[i]))
  }

  function RecordsOf(ls: seq<Line>): seq<Record> {
    if ls == [] then []
    else RecordsOf(ls[..|ls| - 1]) + match ls[|ls| - 1] case Told(r) => [r] case Loss(_) => []
  }

  predicate Marked(ls: seq<Line>) {
    exists i :: 0 <= i < |ls| && ls[i].Loss?
  }

  datatype Queue = Queue(active: bool, epoch: nat, ring: seq<Record>, head: nat, count: nat,
                         fault: Option<Fault>, lost: nat, lines: Option<seq<Line>>)
  {
    predicate Valid() {
      |ring| == EVENTS && head < EVENTS && count <= EVENTS
    }

    function Contents(): (s: seq<Record>)
      requires Valid()
      ensures |s| == count
    {
      seq(count, k requires 0 <= k < count => ring[Wrap(head + k, EVENTS)])
    }

    function Push(r: Record): Queue
      requires Valid() && count < EVENTS
    {
      this.(ring := ring[Wrap(head + count, EVENTS) := r], count := count + 1)
    }

    /** A batch of n, from one event on: what finds no room faults the queue. */
    function PushAll(es: seq<Decoded>, n: nat): Queue
      requires Valid()
      decreases |es|
    {
      if es == [] then this
      else if count == EVENTS then this.(fault := Some(Overflow), lost := lost + n)
      else if !es[0].valid then this.(fault := Some(Malformed))
      else Push(es[0].rec).PushAll(es[1..], n)
    }

    function Pump(d: Drained): Queue
      requires Valid()
    {
      if !active || fault.Some? then this
      else
        match d
        case Failed => this.(fault := Some(Device))
        case Batch(es) =>
          if lines.Some? then this.(lines := Some(lines.value + LinesOf(es))) else PushAll(es, |es|)
    }

    predicate Answers(bytes: int, asked: nat) {
      bytes != 0 && bytes % EVENT_BYTES == 0 && active && asked == epoch && fault.None?
    }

    function Amount(bytes: nat): nat {
      Min(bytes / EVENT_BYTES, count)
    }

    function Taken(n: nat): Queue
      requires Valid() && n <= count
    {
      this.(head := Wrap(head + n, EVENTS), count := count - n)
    }

    /** Stops the stream, and starts one when its epoch is given. */
    function Restarted(start: Option<nat>): Queue {
      var q := this.(lines := None, active := false, head := 0, count := 0, fault := None);
      if start.Some? then q.(epoch := start.value, active := true) else q
    }

    /** The transcript begun: a mark for an overflow before it, then what was queued. */
    function Begun(): seq<Line>
      requires Valid()
    {
      (if fault == Some(Overflow) then [Loss(Min(lost, 0x8000_0000))] else []) + TellAll(Contents())
    }

    function LineMode(on: bool): Queue
      requires Valid()
    {
      if !on then this.(lines := None)
      else
        Taken(count).(lines := Some(Begun()), lost := 0, fault := if fault == Some(Overflow) then None else fault)
    }
  }

  // ---------------------------------------------------------------- the ring as a queue

  lemma PushAppends(q: Queue, r: Record)
    requires q.Valid() && q.count < EVENTS
    ensures q.Push(r).Valid() && q.Push(r).Contents() == q.Contents() + [r]
  {
    var p := q.Push(r);
    forall k | 0 <= k < p.count ensures p.Contents()[k] == (q.Contents() + [r])[k] {
      assert k < q.count ==> Wrap(q.head + k, EVENTS) != Wrap(q.head + q.count, EVENTS);
    }
  }

  lemma TakenDrops(q: Queue, n: nat)
    requires q.Valid() && n <= q.count
    ensures q.Taken(n).Valid() && q.Taken(n).Contents() == q.Contents()[n..]
  {
    var p := q.Taken(n);
    forall k | 0 <= k < p.count ensures p.Contents()[k] == q.Contents()[n..][k] {
      assert Wrap(p.head + k, EVENTS) == Wrap(q.head + (n + k), EVENTS);
    }
  }

  /** The oldest n events, in two pieces of the ring. */
  lemma TwoPieces(q: Queue, n: nat)
    requires q.Valid() && n <= q.count
    ensures var first := Min(n, EVENTS - q.head);
            q.ring[q.head..q.head + first] + q.ring[..n - first] == q.Contents()[..n]
  {
    var first := Min(n, EVENTS - q.head);
    var s := q.ring[q.head..q.head + first] + q.ring[..n - first];
    forall k | 0 <= k < n ensures s[k] == q.Contents()[k] {
      assert q.Contents()[k] == q.ring[Wrap(q.head + k, EVENTS)];
      if k < first {
        assert s[k] == q.ring[q.head..q.head + first][k] == q.ring[q.head + k];
      } else {
        assert s[k] == q.ring[..n - first][k - first] == q.ring[k - first];
      }
    }
  }

  lemma TellNext(rs: seq<Record>, k: nat)
    requires k < |rs|
    ensures TellAll(rs[..k + 1]) == TellAll(rs[..k]) + [Told(rs[k])]
  {
  }

  /** A batch pushed: all of it goes in, or the queue faults and the first of it does. */
  lemma {:induction false} PushAllAppends(q: Queue, es: seq<Decoded>, n: nat)
    requires q.Valid() && q.fault.None? && |es| <= n
    ensures var p := q.PushAll(es, n);
            && p.Valid() && q.count <= p.count <= q.count + |es|
            && p == q.(ring := p.ring, count := p.count, fault := p.fault, lost := p.lost)
            && p.Contents() == q.Contents() + Records(es[..p.count - q.count])
            && (p.fault.None? ==> p.count == q.count + |es| && p.lost == q.lost)
            && (p.fault.Some? ==> p.fault.value != Device && p.count < q.count + |es|)
            && (p.fault == Some(Overflow) ==> p.count == EVENTS && p.lost == q.lost + n)
    decreases |es|
  {
    hide Queue.Push, Queue.Contents, Records;
    if es == [] {
      NoRecords(q.Contents(), es);
    } else if q.count < EVENTS && es[0].valid {
      PushAppends(q, es[0].rec);
      var r := q.Push(es[0].rec);
      PushFields(q, es[0].rec);
      PushAllAppends(r, es[1..], n);
      MoreRecords(q.Contents(), es, q.PushAll(es, n).count - q.count);
    } else {
      NoRecords(q.Contents(), es);
      FaultKeepsContents(q, Overflow, q.lost + n);
      FaultKeepsContents(q, Malformed, q.lost);
    }
  }

  lemma NoRecords(c: seq<Record>, es: seq<Decoded>)
    ensures c + Records(es[..0]) == c
  {
  }

  lemma MoreRecords(c: seq<Record>, es: seq<Decoded>, k: int)
    requires 1 <= k <= |es|
    ensures c + [es[0].rec] + Records(es[1..][..k - 1]) == c + Records(es[..k])
  {
    assert es[..k] == [es[0]] + es[1..][..k - 1];
    assert Records(es[..k]) == [es[0].rec] + Records(es[1..][..k - 1]);
  }

  lemma FaultKeepsContents(q: Queue, fault: Fault, lost: nat)
    requires q.Valid()
    ensures q.(fault := Some(fault), lost := lost).Valid()
    ensures q.(fault := Some(fault), lost := lost).Contents() == q.Contents()
  {
  }

  /** What goes in is valid; a queue faults as malformed just at an event that is not, where there was room for it. */
  lemma {:induction false} PushAllStops(q: Queue, es: seq<Decoded>, n: nat, i: nat)
    requires q.Valid() && q.fault.None? && |es| <= n && i < |es|
    ensures var p := q.PushAll(es, n);
            && (i < p.count - q.count ==> es[i].valid)
            && (i == p.count - q.count ==> p.fault == Some(if p.count == EVENTS then Overflow else Malformed))
            && (p.fault == Some(Malformed) && i == p.count - q.count ==> !es[i].valid)
    decreases |es|
  {
    hide Queue.Push, Queue.Contents;
    PushAllAppends(q, es, n);
    if q.count < EVENTS && es[0].valid {
      PushAppends(q, es[0].rec);
      var r := q.Push(es[0].rec);
      PushFields(q, es[0].rec);
      PushAllAppends(r, es[1..], n);
      if i > 0 {
        PushAllStops(r, es[1..], n, i - 1);
      }
    }
  }

  function Records(es: seq<Decoded>): (rs: seq<Record>)
    ensures |rs| == |es|
  {
    seq(|es|, i requires 0 <= i < |es| => es[i].rec)
  }

  lemma PushFields(q: Queue, r: Record)
    requires q.Valid() && q.count < EVENTS
    ensures var p := q.Push(r); p == q.(ring := p.ring, count := q.count + 1)
  {
  }

  // ---------------------------------------------------------------- a stream's events, over a run

  /** The queue, with what the pump drained since the stream began and what went out of the ring since, to the
      app's requests or into a transcript. */
  datatype System = System(q: Queue, drained: seq<Record>, out: seq<Line>)

  datatype Step = Pump(d: Drained) | Ask(bytes: nat) | Mode(lines: bool)

  function Next(s: System, step: Step): System
    requires s.q.Valid() && s.q.active
  {
    match step
    case Pump(d) =>
      var told := if s.q.lines.Some? && s.q.fault.None? && d.Batch? then LinesOf(d.events) else [];
      System(s.q.Pump(d), s.drained + (if s.q.fault.None? && d.Batch? then Records(d.events) else []), s.out + told)
    case Ask(bytes) =>
      if s.q.Answers(bytes, s.q.epoch)
      then var n := s.q.Amount(bytes); s.(q := s.q.Taken(n), out := s.out + TellAll(s.q.Contents()[..n]))
      else s
    case Mode(lines) =>
      System(s.q.LineMode(lines), s.drained, s.out + if lines then s.q.Begun() else [])
  }

  predicate Spoiled(s: System) {
    Marked(s.out) || s.q.fault == Some(Overflow) || s.q.fault == Some(Malformed)
  }

  /** What went out, then what waits: all that was drained, unless a mark or a fault says otherwise; and up to a
      mark, never with a gap. */
  ghost predicate Inv(s: System) {
    && s.q.Valid() && s.q.active
    && (s.q.lines.Some? ==> s.q.count == 0 && s.q.fault != Some(Overflow) )
    && var told := RecordsOf(s.out) + s.q.Contents();
    && (!Marked(s.out) ==> told <= s.drained)
    && (if Spoiled(s) then |told| < |s.drained| else told == s.drained)
  }

  lemma {:induction false} RecordsAppend(a: seq<Line>, b: seq<Line>)
    ensures RecordsOf(a + b) == RecordsOf(a) + RecordsOf(b)
  {
    if b == [] {
      assert a + b == a;
    } else {
      assert (a + b)[..|a + b| - 1] == a + b[..|b| - 1];
      RecordsAppend(a, b[..|b| - 1]);
    }
  }

  lemma MarkedAppends(a: seq<Line>, b: seq<Line>)
    ensures Marked(a + b) <==> Marked(a) || Marked(b)
  {
    if Marked(a) {
      var i :| 0 <= i < |a| && a[i].Loss?;
      assert (a + b)[i].Loss?;
    } else if Marked(b) {
      var i :| 0 <= i < |b| && b[i].Loss?;
      assert (a + b)[|a| + i].Loss?;
    }
  }

  lemma {:induction false} ToldRecords(rs: seq<Record>)
    ensures RecordsOf(TellAll(rs)) == rs && !Marked(TellAll(rs))
  {
    if rs != [] {
      var n := |rs| - 1;
      ToldRecords(rs[..n]);
      assert TellAll(rs)[..n] == TellAll(rs[..n]);
    }
  }

  lemma PumpKeepsInv(s: System, d: Drained)
    requires Inv(s)
    ensures Inv(Next(s, Pump(d)))
  {
    hide Queue.Push, Queue.PushAll, RecordsOf, Marked;
    var t := Next(s, Pump(d));
    assert s.out + [] == s.out && s.drained + [] == s.drained;
    if s.q.fault.None? && d.Batch? {
      var es := d.events;
      if s.q.lines.Some? {
        assert LinesOf(es) == TellAll(Records(es));
        ToldRecords(Records(es));
        RecordsAppend(s.out, LinesOf(es));
        MarkedAppends(s.out, LinesOf(es));
        assert t.q.Contents() == s.q.Contents() == [];
      } else {
        PushAllAppends(s.q, es, |es|);
        var k := t.q.count - s.q.count;
        assert Records(es[..k]) == Records(es)[..k];
      }
    } else {
      assert t.q.Contents() == s.q.Contents();
    }
  }

  lemma AskKeepsInv(s: System, bytes: nat)
    requires Inv(s)
    ensures Inv(Next(s, Ask(bytes)))
  {
    hide RecordsOf, Marked;
    if s.q.Answers(bytes, s.q.epoch) {
      var n := s.q.Amount(bytes);
      var c := s.q.Contents();
      TakenDrops(s.q, n);
      ToldRecords(c[..n]);
      RecordsAppend(s.out, TellAll(c[..n]));
      MarkedAppends(s.out, TellAll(c[..n]));
      assert c == c[..n] + c[n..];
    }
  }

  lemma BegunTells(q: Queue)
    requires q.Valid()
    ensures RecordsOf(q.Begun()) == q.Contents() && (Marked(q.Begun()) <==> q.fault == Some(Overflow))
  {
    hide Queue.Contents, RecordsOf, Marked;
    var c := q.Contents();
    var mark := if q.fault == Some(Overflow) then [Loss(Min(q.lost, 0x8000_0000))] else [];
    assert q.Begun() == mark + TellAll(c);
    ToldRecords(c);
    RecordsAppend(mark, TellAll(c));
    MarkedAppends(mark, TellAll(c));
    MarkTells(q);
  }

  lemma MarkTells(q: Queue)
    ensures var mark := if q.fault == Some(Overflow) then [Loss(Min(q.lost, 0x8000_0000))] else [];
            RecordsOf(mark) == [] && (Marked(mark) <==> q.fault == Some(Overflow))
  {
    var mark := if q.fault == Some(Overflow) then [Loss(Min(q.lost, 0x8000_0000))] else [];
    if mark != [] {
      assert mark[0].Loss? && mark[..0] == [];
    }
  }

  lemma ModeKeepsInv(s: System, lines: bool)
    requires Inv(s)
    ensures Inv(Next(s, Mode(lines)))
  {
    hide RecordsOf, Marked, Queue.Begun;
    if lines {
      BegunTells(s.q);
      RecordsAppend(s.out, s.q.Begun());
      MarkedAppends(s.out, s.q.Begun());
      TakenDrops(s.q, s.q.count);
      var t := Next(s, Mode(lines));
      assert t.q.Contents() == [];
      assert RecordsOf(t.out) + [] == RecordsOf(s.out) + s.q.Contents();
    } else {
      assert s.out + [] == s.out;
      assert s.q.LineMode(false).Contents() == s.q.Contents();
    }
  }

  function Run(s: System, steps: seq<Step>): (t: System)
    requires Inv(s)
    ensures Inv(t)
    decreases |steps|
  {
    if steps == [] then s
    else
      var r := Run(s, steps[..|steps| - 1]);
      NextKeepsInv(r, steps[|steps| - 1]);
      Next(r, steps[|steps| - 1])
  }

  lemma NextKeepsInv(s: System, step: Step)
    requires Inv(s)
    ensures Inv(Next(s, step))
  {
    match step
    case Pump(d) => PumpKeepsInv(s, d);
    case Ask(bytes) => AskKeepsInv(s, bytes);
    case Mode(lines) => ModeKeepsInv(s, lines);
  }

  /** A stream begun. */
  function Start(q: Queue, epoch: nat): System {
    System(q.Restarted(Some(epoch)), [], [])
  }

  lemma StartHolds(q: Queue, epoch: nat)
    requires q.Valid()
    ensures Inv(Start(q, epoch))
  {
  }

  /** Over every run of a stream, exactly the events drained have gone out or wait, in their order, if and only if
      there is no loss mark and no overflow (and the FPGA gave no event that has no record); and what went out
      unmarked has no gap. */
  lemma LossIsExplicit(q: Queue, epoch: nat, steps: seq<Step>)
    requires q.Valid()
    ensures Inv(Start(q, epoch))
    ensures var s := Run(Start(q, epoch), steps);
            && (RecordsOf(s.out) + s.q.Contents() == s.drained <==> !Spoiled(s))
            && (!Marked(s.out) ==> RecordsOf(s.out) + s.q.Contents() <= s.drained)
  {
    StartHolds(q, epoch);
  }

  /** A request of bytes takes the oldest events that fit in them, 32 bytes each: all of those waiting, or as many as no
      more fit; and none after a fault or for part of an event. */
  lemma AskGivesTheOldest(s: System, bytes: nat)
    requires Inv(s)
    ensures var waiting, t := s.q.Contents(), Next(s, Ask(bytes));
            if bytes == 0 || bytes % 32 != 0 || s.q.fault.Some? then t == s
            else
              exists n: nat :: n <= |waiting| && 32 * n <= bytes && (n == |waiting| || 32 * (n + 1) > bytes)
                               && t.q.Valid() && t.q.Contents() == waiting[n..] && t.out == s.out + TellAll(waiting[..n])
  {
    if s.q.Answers(bytes, s.q.epoch) {
      TakenDrops(s.q, s.q.Amount(bytes));
    }
  }

  /** A stream begun has its epoch, nothing queued and no fault; one stopped is not active. */
  lemma StreamBegins(q: Queue, epoch: nat)
    requires q.Valid()
    ensures var s := Start(q, epoch);
            && s.q.active && s.q.epoch == epoch && s.q.Contents() == [] && s.q.fault.None? && s.q.lines.None?
            && s.drained == [] && s.out == []
    ensures !q.Restarted(None).active && q.Restarted(None).count == 0
  {
  }

  /** After a fault a pump takes nothing; a drain that fails is a fault, and takes nothing. */
  lemma FaultedPumpTakesNothing(s: System, d: Drained)
    requires Inv(s)
    ensures s.q.fault.Some? ==> Next(s, Pump(d)) == s
    ensures s.q.fault.None? && d.Failed? ==> Next(s, Pump(d)) == s.(q := s.q.(fault := Some(Device)))
    ensures s.q.fault.None? && d.Batch? ==> Next(s, Pump(d)).q.fault != Some(Device)
  {
    assert s.drained + [] == s.drained && s.out + [] == s.out;
    if s.q.fault.None? && d.Batch? && s.q.lines.None? {
      PushAllAppends(s.q, d.events, |d.events|);
    }
  }

  /** The mark of an overflow tells the number counted, up to 2^31, before all else; the count begins anew. */
  lemma MarkTellsTheCount(q: Queue)
    requires q.Valid()
    ensures q.fault == Some(Overflow) ==>
              |q.Begun()| == q.count + 1 && q.Begun()[0] == Loss(if q.lost <= 0x8000_0000 then q.lost else 0x8000_0000)
    ensures var p := q.LineMode(true);
            p.lost == 0 && p.Valid() && p.Contents() == [] && p.lines == Some(q.Begun()) && p.fault != Some(Overflow)
            && (q.fault != Some(Overflow) ==> p.fault == q.fault)
  {
    TakenDrops(q, q.count);
  }

  /** The count of a loss is never under what the overflow dropped, and is that only where nothing was counted
      before and the queue was full when the batch came: the batch's events that did go in are counted too. */
  lemma OverflowIsOvercounted(q: Queue, es: seq<Decoded>)
    requires q.Valid() && q.active && q.fault.None? && q.lines.None? && q.Pump(Batch(es)).fault == Some(Overflow)
    ensures var p := q.Pump(Batch(es));
            var dropped := |es| - (p.count - q.count);
            0 < dropped <= p.lost && (p.lost == dropped <==> q.lost == 0 && q.count == EVENTS)
  {
    hide Queue.PushAll;
    PushAllAppends(q, es, |es|);
  }

  /** One place free and two events: one is dropped, and two are counted. */
  lemma OneDroppedTwoCounted(q: Queue, a: Record, b: Record)
    requires q.Valid() && q.active && q.fault.None? && q.lines.None? && q.lost == 0 && q.count == 131071
    ensures var p := q.Pump(Batch([Decoded(a, true), Decoded(b, true)]));
            p.fault == Some(Overflow) && p.lost == 2 && p.Valid() && p.Contents() == q.Contents() + [a]
  {
    var es := [Decoded(a, true), Decoded(b, true)];
    PushAllAppends(q, es, 2);
    assert es[1..] == [Decoded(b, true)];
    assert Records(es[..1]) == [a];
  }
}
