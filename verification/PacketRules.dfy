/**
 The rules of the packets of a byte stream, number by number: what a word is, when two
 words are of one packet, when a packet is complete, and where it lies.
 */
module PacketRules {
  import opened Basics
  import opened Packets

  /** A packet's words are the data, framing-error and parity-error spans, but a framing error of value 0 on a UART: a
      break. */
  lemma WordsAre(sp: Span, env: Env)
    ensures sp.IsWord() <==> sp.kind == Data || sp.kind == FrameError || sp.kind == ParityError
    ensures env.IsBreak(sp) <==> env.uart && sp.kind == FrameError && sp.val == 0
    ensures env.Carries(sp) <==> sp.IsWord() && !env.IsBreak(sp)
  {
  }

  /** A word's bytes are its low ones, the highest of them first, each marked when the word is faulty. */
  lemma BytesAre(v: nat, ss: seq<Span>, sp: Span, env: Env)
    ensures WordBytes(v, 1) == [v % 0x100] && WordBytes(v, 2) == [v / 0x100 % 0x100, v % 0x100]
    ensures WordBytes(v, 3) == [v / 0x1_0000 % 0x100, v / 0x100 % 0x100, v % 0x100]
    ensures Sent([], env) == [] && Marks([], env) == []
    ensures Sent(ss + [sp], env)
            == Sent(ss, env) + if sp.IsWord() && !env.IsBreak(sp) then WordBytes(sp.val, env.width) else []
    ensures Marks(ss + [sp], env)
            == Marks(ss, env) + if sp.IsWord() && !env.IsBreak(sp) then seq(env.width, _ => sp.kind != Data) else []
  {
    assert (ss + [sp])[..|ss|] == ss;
    assert Pow256(0) == 1 && Pow256(1) == 0x100 && Pow256(2) == 0x1_0000;
    WordBytesNext(v, 0);
    WordBytesNext(v, 1);
    WordBytesNext(v, 2);
  }

  /** The widths the median is of: each word's length in samples. */
  lemma WidthsAre(ss: seq<Span>, sp: Span)
    ensures Widths([]) == []
    ensures Widths(ss + [sp])
            == Widths(ss) + if !sp.IsWord() then [] else [if sp.i1 >= sp.i0 then (sp.i1 - sp.i0) as real else (sp.i0 - sp.i1) as real]
  {
    assert (ss + [sp])[..|ss|] == ss;
  }

  /** The idle that ends a packet is one and a half byte times, a byte time the median word and a bit, or a ninth of the
      word where the bit is unknown; never under one sample. */
  lemma IdleIs(med: real, bit: real)
    ensures var byte := if bit == 0.0 then med + med / 9.0 else med + bit;
            && IdleTime(med, bit) >= 1.0 && IdleTime(med, bit) >= 1.5 * byte
            && (IdleTime(med, bit) == 1.0 || IdleTime(med, bit) == 1.5 * byte)
  {
  }

  // ---------------------------------------------------------------- how far a packet reaches

  /** The furthest end, and the earliest beginning, of the words among spans s up to k. */
  lemma {:induction false} ReachIs(ss: seq<Span>, s: nat, k: nat, env: Env, j: nat)
    requires s <= j < k <= |ss| && env.Carries(ss[s]) && env.Carries(ss[j])
    ensures ss[j].i0 <= Reach(ss, s, k, env) && ss[j].i1 <= Reach(ss, s, k, env)
    ensures Origin(ss, s, k, env) <= ss[j].i0 && Origin(ss, s, k, env) <= ss[j].i1
    decreases k
  {
    if k > s + 1 && j < k - 1 {
      ReachIs(ss, s, k - 1, env, j);
    } else if k > s + 1 {
      ReachIs(ss, s, k - 1, env, s);
    }
  }

  lemma {:induction false} ReachIsReached(ss: seq<Span>, s: nat, k: nat, env: Env)
    requires s < k <= |ss| && env.Carries(ss[s])
    ensures exists j :: s <= j < k && env.Carries(ss[j])
                        && (Reach(ss, s, k, env) == ss[j].i0 || Reach(ss, s, k, env) == ss[j].i1)
    ensures exists j :: s <= j < k && env.Carries(ss[j])
                        && (Origin(ss, s, k, env) == ss[j].i0 || Origin(ss, s, k, env) == ss[j].i1)
    decreases k
  {
    hide Env.Carries;
    if k > s + 1 {
      ReachIsReached(ss, s, k - 1, env);
      var r :| s <= r < k - 1 && env.Carries(ss[r])
               && (Reach(ss, s, k - 1, env) == ss[r].i0 || Reach(ss, s, k - 1, env) == ss[r].i1);
      var o :| s <= o < k - 1 && env.Carries(ss[o])
               && (Origin(ss, s, k - 1, env) == ss[o].i0 || Origin(ss, s, k - 1, env) == ss[o].i1);
      var rr := if env.Carries(ss[k - 1]) && Reach(ss, s, k, env) != Reach(ss, s, k - 1, env) then k - 1 else r;
      var oo := if env.Carries(ss[k - 1]) && Origin(ss, s, k, env) != Origin(ss, s, k - 1, env) then k - 1 else o;
      assert env.Carries(ss[rr]) && (Reach(ss, s, k, env) == ss[rr].i0 || Reach(ss, s, k, env) == ss[rr].i1);
      assert env.Carries(ss[oo]) && (Origin(ss, s, k, env) == ss[oo].i0 || Origin(ss, s, k, env) == ss[oo].i1);
    } else {
      assert env.Carries(ss[s]);
    }
  }

  // ---------------------------------------------------------------- one packet or two

  /** A word that comes next, with no gap and no break before it, is of the packet that goes on if and only if it begins no
      more than the idle after the furthest end of the packet's words. */
  lemma NextWordStays(parts: seq<Part>, ss: seq<Span>, env: Env, p: nat, l: nat)
    requires Covers(parts, ss, |ss|, env) && p < |parts| && parts[p].s < l < |ss| && env.Carries(ss[l])
    requires l <= parts[p].e
    ensures l < parts[p].e <==> (ss[l].i0 - Reach(ss, parts[p].s, l, env)) as real <= env.idle
  {
    hide Reach, Part.Within;
    PartIsWithin(parts, ss, env, p);
    PartGoesOn(parts[p], ss, env, l);
  }

  lemma PartIsWithin(parts: seq<Part>, ss: seq<Span>, env: Env, p: nat)
    requires Covers(parts, ss, |ss|, env) && p < |parts|
    ensures parts[p].Within(ss, env)
  {
    hide Part.Within, Env.Carries;
  }

  lemma PartGoesOn(part: Part, ss: seq<Span>, env: Env, k: nat)
    requires part.Within(ss, env) && part.s < k <= part.e && k < |ss|
    ensures k < part.e <==> !Ends(ss, part.s, k, env)
  {
    hide Ends, Env.Carries;
  }

  /** So two words of the median width apart by no more than one and a half byte times are of one packet, and by more are
      of two. */
  lemma ByteTimesApart(parts: seq<Part>, ss: seq<Span>, env: Env, med: real, bit: real, p: nat, l: nat)
    requires Covers(parts, ss, |ss|, env) && p < |parts| && parts[p].s < l < |ss| && env.Carries(ss[l])
    requires l <= parts[p].e
    requires env.idle == IdleTime(med, bit) && bit != 0.0
    ensures var apart := (ss[l].i0 - Reach(ss, parts[p].s, l, env)) as real;
            && (apart <= 1.5 * (med + bit) ==> l < parts[p].e)
            && (apart > 1.5 * (med + bit) && apart > 1.0 ==> l >= parts[p].e)
  {
    hide Covers, Reach;
    NextWordStays(parts, ss, env, p, l);
    IdleIs(med, bit);
  }

  /** An incomplete frame and a break are in no packet's words, and no packet goes on past one. */
  lemma CutsEndPackets(parts: seq<Part>, ss: seq<Span>, env: Env, p: nat, k: nat)
    requires Covers(parts, ss, |ss|, env) && p < |parts| && parts[p].s < k < |ss|
    requires ss[k].kind == Gap || (env.uart && ss[k].kind == FrameError && ss[k].val == 0)
    ensures parts[p].e <= k
  {
    hide Reach, Part.Within;
    PartIsWithin(parts, ss, env, p);
    if k < parts[p].e {
      PartGoesOn(parts[p], ss, env, k);
    }
  }

  // ---------------------------------------------------------------- complete packets

  /** The span, of those before k, that the start of a packet at k is judged by: the last that is a word, a break or an
      incomplete frame. */
  predicate LastEvent(ss: seq<Span>, k: nat, j: nat, env: Env) {
    && j < k <= |ss| && ss[j].kind != Other && forall i :: j < i < k ==> ss[i].kind == Other
  }

  lemma {:induction false} BeforeIs(ss: seq<Span>, k: nat, env: Env, j: nat)
    requires LastEvent(ss, k, j, env)
    ensures Before(ss, k, env) == if ss[j].kind == Gap then Cut
                                  else if env.uart && ss[j].kind == FrameError && ss[j].val == 0 then Break else Word
    decreases k
  {
    if j < k - 1 {
      assert ss[k - 1].kind == Other;
      BeforeIs(ss, k - 1, env, j);
    }
  }

  lemma {:induction false} NothingBefore(ss: seq<Span>, k: nat, env: Env)
    requires k <= |ss| && forall i :: 0 <= i < k ==> ss[i].kind == Other
    ensures Before(ss, k, env) == Nothing && EndBefore(ss, k) == 0
  {
    if k > 0 {
      NothingBefore(ss, k - 1, env);
    }
  }

  lemma {:induction false} EndBeforeIs(ss: seq<Span>, k: nat, i: nat)
    requires i < k <= |ss| && ss[i].kind != Other
    ensures ss[i].i1 <= EndBefore(ss, k)
    ensures EndBefore(ss, k) == 0 || exists j :: 0 <= j < k && ss[j].kind != Other && ss[j].i1 == EndBefore(ss, k)
    decreases k
  {
    EndBeforeIsReached(ss, k);
    if i < k - 1 {
      EndBeforeIs(ss, k - 1, i);
    }
  }

  lemma {:induction false} EndBeforeIsReached(ss: seq<Span>, k: nat)
    requires k <= |ss|
    ensures EndBefore(ss, k) == 0 || exists j :: 0 <= j < k && ss[j].kind != Other && ss[j].i1 == EndBefore(ss, k)
  {
    if k > 0 {
      EndBeforeIsReached(ss, k - 1);
      if EndBefore(ss, k) != EndBefore(ss, k - 1) {
        assert ss[k - 1].kind != Other && ss[k - 1].i1 == EndBefore(ss, k);
      }
    }
  }

  /** A packet is complete when its start and its end are not cut. The first of a record needs the idle before it, one after
      an incomplete frame more than the idle since what ended before; the last needs the idle after it, one before an
      incomplete frame more than the idle. */
  lemma CompleteIs(ss: seq<Span>, part: Part, p: Packet, env: Env)
    requires part.s < part.e <= |ss| && part.Is(ss, p, env)
    ensures var reach := Reach(ss, part.s, part.e, env);
            var startSeen := match Before(ss, part.s, env)
              case Nothing => ss[part.s].i0 as real >= env.idle
              case Cut => (ss[part.s].i0 - EndBefore(ss, part.s)) as real > env.idle
              case Word => true
              case Break => true;
            var endSeen :=
              if part.e == |ss| then (env.n - 1 - reach) as real >= env.idle
              else if ss[part.e].kind == Gap then (ss[part.e].i0 - reach) as real > env.idle
              else true;
            p.complete <==> startSeen && endSeen
    ensures env.n > 0 ==>
              && p.i0 == (var o := Origin(ss, part.s, part.e, env); if o < 0 then 0 else if o > env.n - 1 then env.n - 1 else o)
              && p.i1 == (var o := Reach(ss, part.s, part.e, env); if o < 0 then 0 else if o > env.n - 1 then env.n - 1 else o)
  {
    hide Reach, Origin, Before, EndBefore, Part.Fills;
  }
}
