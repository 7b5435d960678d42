/**
 What the I2C decode marks in the record: the tokens again, each where it was on the
 lines.
 */
module I2cSpans {
  import opened Basics
  import opened I2c

  /** The tokens a mark stands for. */
  function Tells(s: Span): seq<Token> {
    match s.kind
    case Start => [START]
    case Stop => [STOP]
    case Addr => [ADDR(s.val)]
    case Rw(read) => [if read then READ else WRITE]
    case Data => [DATA(s.val)]
    case Ack => [ACK]
    case Nak => [NAK]
    case NoStop => []
  }

  function TellsAll(spans: seq<Span>): seq<Token> {
    if spans == [] then [] else TellsAll(spans[..|spans| - 1]) + Tells(spans[|spans| - 1])
  }

  lemma TellsOne(spans: seq<Span>, s: Span)
    ensures TellsAll(spans + [s]) == TellsAll(spans) + Tells(s)
  {
    assert (spans + [s])[..|spans|] == spans;
  }

  lemma TellsTwo(spans: seq<Span>, s: Span, t: Span)
    ensures TellsAll(spans + [s, t]) == TellsAll(spans) + (Tells(s) + Tells(t))
  {
    hide TellsAll, Tells;
    TellsOne(spans, s);
    TellsOne(spans + [s], t);
    assert spans + [s, t] == spans + [s] + [t];
  }

  lemma StepTells(s: State, i: int, prev: Sample, cur: Sample)
    requires TellsAll(s.spans) == s.core.toks
    ensures var t := Step(s, i, prev, cur); TellsAll(t.spans) == t.core.toks
  {
    hide TellsAll;
    var c := s.core;
    var t := Step(s, i, prev, cur);
    var n := |s.spans|;
    if |t.spans| == n + 1 {
      TellsOne(s.spans, t.spans[n]);
    } else if |t.spans| == n + 2 {
      TellsTwo(s.spans, t.spans[n], t.spans[n + 1]);
    }
    assert s.spans + [] == s.spans;
  }

  /** The marks of a record, read in order, are its tokens: the same addresses, directions, bytes and acknowledges. */
  lemma {:induction false} SpansAreTheTokens(w: seq<Sample>)
    ensures TellsAll(Walk(w).spans) == Walk(w).core.toks
  {
    hide Step;
    if |w| > 1 {
      SpansAreTheTokens(w[..|w| - 1]);
      StepTells(Walk(w[..|w| - 1]), |w| - 1, w[|w| - 2], w[|w| - 1]);
    }
  }

  // ---------------------------------------------------------------- where they are

  /** SCL rises at sample k. */
  predicate Rise(w: seq<Sample>, k: int) {
    0 < k < |w| && w[k - 1].cl == 0 && w[k].cl == 1
  }

  /** How often it does after sample a, up to sample b. */
  function Rises(w: seq<Sample>, a: int, b: int): nat
    decreases b - a
  {
    if b <= a then 0 else Rises(w, a, b - 1) + if Rise(w, b) then 1 else 0
  }

  /** A START and a STOP are marked where SDA changes under a high SCL; a bit by itself where SCL rises; a byte from its
      first bit's rise to its eighth's. */
  predicate Lies(w: seq<Sample>, s: Span) {
    match s.kind
    case Start => s.i0 == s.i1 && 0 < s.i0 < |w| && w[s.i0].cl == 1 && w[s.i0 - 1].da == 1 && w[s.i0].da == 0
    case Stop => s.i0 == s.i1 && 0 < s.i0 < |w| && w[s.i0].cl == 1 && w[s.i0 - 1].da == 0 && w[s.i0].da == 1
    case Addr => Rise(w, s.i0) && Rise(w, s.i1) && Rises(w, s.i0, s.i1) == 7
    case Data => Rise(w, s.i0) && Rise(w, s.i1) && Rises(w, s.i0, s.i1) == 7
    case NoStop => false
    case _ => s.i0 == s.i1 && Rise(w, s.i0)
  }

  /** Inside a byte, its first bit was taken where bitStart says, and the rises since are its further bits. */
  ghost predicate Tracked(w: seq<Sample>, s: State, n: nat) {
    && (forall i :: 0 <= i < |s.spans| ==> Lies(w, s.spans[i]))
    && s.core.bitCount <= 8
    && (s.core.inTxn && s.core.bitCount > 0 ==>
          Rise(w, s.bitStart) && s.bitStart < n && Rises(w, s.bitStart, n as int - 1) == s.core.bitCount - 1)
  }

  lemma RisesNext(w: seq<Sample>, a: int, b: int)
    requires a < b
    ensures Rises(w, a, b) == Rises(w, a, b - 1) + if Rise(w, b) then 1 else 0
  {
  }

  lemma RisesNone(w: seq<Sample>, a: int)
    ensures Rises(w, a, a) == 0
  {
  }

  lemma StepTracks(w: seq<Sample>, s: State, i: nat)
    requires 0 < i < |w| && Tracked(w, s, i)
    ensures Tracked(w, Step(s, i, w[i - 1], w[i]), i + 1)
  {
    hide Rises;
    RisesNone(w, i);
    if s.core.inTxn && s.core.bitCount > 0 {
      RisesNext(w, s.bitStart, i);
    }
  }

  lemma {:induction false} WalkTracks(w: seq<Sample>, n: nat)
    requires n <= |w|
    ensures Tracked(w, Walk(w[..n]), n)
  {
    hide Step, Tracked;
    if n <= 1 {
      NoneYet(w, n);
    } else {
      WalkTracks(w, n - 1);
      WalkNext(w, n - 1);
      StepTracks(w, Walk(w[..n - 1]), n - 1);
    }
  }

  lemma NoneYet(w: seq<Sample>, n: nat)
    requires n <= |w| && n <= 1
    ensures Tracked(w, Walk(w[..n]), n)
  {
  }

  /** Every mark lies where its token was. */
  lemma SpansLie(w: seq<Sample>, i: nat)
    requires i < |Walk(w).spans|
    ensures Lies(w, Walk(w).spans[i])
  {
    hide Walk, Lies;
    WalkTracks(w, |w|);
    assert w[..|w|] == w;
  }

  /** A bit is read off SDA's code where SCL rises, whatever SDA's level: into a byte's value, or as the acknowledge. */
  lemma BitIsTheCodesOwn(c: Core, prev: Sample, cur: Sample)
    requires c.inTxn && prev.cl == 0 && cur.cl == 1 && prev.da == cur.da
    ensures var t := StepCore(c, prev, cur);
            && (0 < c.bitCount < 7 ==> t.val == 2 * c.val + cur.raw && t.bitCount == c.bitCount + 1 && t.toks == c.toks)
            && (c.bitCount == 0 ==> t.val == cur.raw && t.bitCount == 1)
            && (c.bitCount == 8 ==> t.toks == c.toks + [if cur.raw == 0 then ACK else NAK])
  {
  }
}
