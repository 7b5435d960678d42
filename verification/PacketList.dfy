/**
 The packet list: the complete packets of a capture, held still while the same
 messages repeat, with a selection that follows its message.
 */
module PacketList {
  import opened Basics
  import opened Packets
  import opened ContentKey

  const MAX_KNOWN: nat := 4096

  type Message = seq<byte>

  // ---------------------------------------------------------------- the complete packets of a capture

  /** Where the complete packets are. */
  function Places(ps: seq<Packet>): (at: seq<nat>)
    ensures forall i :: 0 <= i < |at| ==> at[i] < |ps| && ps[at[i]].complete
  {
    if ps == [] then []
    else
      var n := |ps| - 1;
      Places(ps[..n]) + if ps[n].complete then [n] else []
  }

  /** Every complete packet is placed, once and in order. */
  lemma {:induction false} PlacesAreAll(ps: seq<Packet>)
    ensures forall i, j :: 0 <= i < j < |Places(ps)| ==> Places(ps)[i] < Places(ps)[j]
    ensures forall k :: 0 <= k < |ps| && ps[k].complete ==> k in Places(ps)
  {
    if ps != [] {
      var n := |ps| - 1;
      PlacesAreAll(ps[..n]);
      assert ps[n].complete ==> Places(ps)[|Places(ps)| - 1] == n;
      forall k | 0 <= k < |ps| && ps[k].complete ensures k in Places(ps) {
        if k < n {
          assert k in Places(ps[..n]);
        }
      }
    }
  }

  function CompleteOf(ps: seq<Packet>): seq<Packet> {
    if ps == [] then []
    else
      var n := |ps| - 1;
      CompleteOf(ps[..n]) + if ps[n].complete then [ps[n]] else []
  }

  function Keys(rows: seq<Packet>): (keys: seq<Message>)
    ensures |keys| == |rows|
  {
    seq(|rows|, i requires 0 <= i < |rows| => Key(rows[i]))
  }

  function Messages(keys: seq<Message>): set<Message> {
    set k | k in keys
  }

  lemma {:induction false} CompleteAtPlaces(ps: seq<Packet>)
    ensures |CompleteOf(ps)| == |Places(ps)|
    ensures forall i :: 0 <= i < |Places(ps)| ==> CompleteOf(ps)[i] == ps[Places(ps)[i]]
  {
    if ps != [] {
      CompleteAtPlaces(ps[..|ps| - 1]);
    }
  }

  /** The first of the rows nearest s that is a copy of a message, -1 none. */
  function Nearest(keys: seq<Message>, want: Message, s: int): int {
    if keys == [] then -1
    else
      var n := |keys| - 1;
      var best := Nearest(keys[..n], want, s);
      if keys[n] == want && (best < 0 || Abs(n - s) < Abs(best - s)) then n else best
  }

  /** Place a is nearer s than place b, or as near and not after it. */
  predicate AsNear(a: int, b: int, s: int) {
    Abs(a - s) < Abs(b - s) || (Abs(a - s) == Abs(b - s) && a <= b)
  }

  lemma {:induction false} NearestIs(keys: seq<Message>, want: Message, s: int)
    ensures var best := Nearest(keys, want, s);
            if want in keys
            then 0 <= best < |keys| && keys[best] == want
                 && forall i :: 0 <= i < |keys| && keys[i] == want ==> AsNear(best, i, s)
            else best == -1
  {
    if keys != [] {
      var n := |keys| - 1;
      NearestIs(keys[..n], want, s);
      assert keys == keys[..n] + [keys[n]];
    }
  }

  /** In numbers: no copy is fewer rows away, and of two as far the one before. */
  lemma NearestIsNear(keys: seq<Message>, want: Message, s: int, i: nat)
    requires i < |keys| && keys[i] == want
    ensures var best := Nearest(keys, want, s);
            && 0 <= best < |keys| && keys[best] == want
            && var d, e := (if best < s then s - best else best - s), (if i < s then s - i else i - s);
               d < e || (d == e && best <= i)
  {
    NearestIs(keys, want, s);
  }

  // ---------------------------------------------------------------- the list as a value

  datatype List = List(rows: seq<Packet>, keys: seq<Message>, shown: nat, known: set<Message>,
                       sel: int, selKey: Message, hasSel: bool)
  {
    /** The keys are the rows', the rows' messages known, and a followed message that is listed selected. */
    ghost predicate Valid() {
      && keys == Keys(rows) && shown == |Messages(keys)| && Messages(keys) <= known
      && (rows != [] ==> hasSel && 0 <= sel < |rows|)
      && (selKey in keys ==> keys[Selected()] == selKey)
    }

    function Selected(): int {
      if rows == [] then -1 else Clamp(sel, 0, |rows| - 1)
    }

    /** A message never seen, or a fuller view. */
    predicate Replaces(ps: seq<Packet>) {
      var ms := Messages(Keys(CompleteOf(ps)));
      ms != {} && (rows == [] || |ms| > shown || !(ms <= known))
    }

    function Updated(ps: seq<Packet>): List {
      if Replaces(ps) then Set(ps) else this
    }

    /** The complete packets, unless they are the rows. */
    ghost function Replaced(ps: seq<Packet>): List {
      if Positions(rows, CompleteOf(ps)) then this else Set(ps)
    }

    function Set(ps: seq<Packet>): List {
      var rows' := CompleteOf(ps);
      var keys' := Keys(rows');
      var kept := if |known| + |keys'| > MAX_KNOWN then {} else known;
      var l := List(rows', keys', |Messages(keys')|, kept + Messages(keys'), sel, selKey, hasSel);
      if rows' == [] then l
      else if !hasSel then l.(sel := 0, selKey := keys'[0], hasSel := true)
      else
        var best := Nearest(keys', selKey, sel);
        l.(sel := Clamp(if best < 0 then sel else best, 0, |rows'| - 1))
    }

    function Select(i: int): List {
      if rows == [] then this
      else
        var s := Clamp(i, 0, |rows| - 1);
        if s < |keys| then this.(sel := s, selKey := keys[s], hasSel := true) else this
    }
  }

  const EMPTY := List([], [], 0, {}, 0, [], false)

  lemma MessagesSize(keys: seq<Message>)
    ensures |Messages(keys)| == 0 <==> keys == []
  {
    if keys != [] {
      assert keys[0] in Messages(keys);
    } else {
      assert Messages(keys) == {};
    }
  }

  lemma EmptyIsValid()
    ensures EMPTY.Valid()
  {
    MessagesSize([]);
  }

  /** The complete packets of a capture, in its order. */
  lemma CompleteAre(ps: seq<Packet>, p: Packet)
    ensures CompleteOf([]) == [] && CompleteOf(ps + [p]) == CompleteOf(ps) + if p.complete then [p] else []
  {
    assert (ps + [p])[..|ps|] == ps;
  }

  /** When a capture offered becomes the rows: it has a complete packet, and no rows are shown, or it says more messages
      than they do, or one not known. */
  lemma OfferIsTaken(l: List, ps: seq<Packet>)
    requires l.Valid()
    ensures var cs := CompleteOf(ps);
            var ms := Messages(Keys(cs));
            && (cs != [] && (l.rows == [] || |ms| > |Messages(Keys(l.rows))| || exists k :: k in ms && k !in l.known) ==>
                  l.Updated(ps).rows == cs && ms <= l.Updated(ps).known)
            && (cs == [] || (l.rows != [] && |ms| <= |Messages(Keys(l.rows))| && forall k :: k in ms ==> k in l.known) ==>
                  l.Updated(ps) == l)
  {
    MessagesSize(Keys(CompleteOf(ps)));
  }

  /** A row selected is the one named, or the first or last where there is none so named; with no rows nothing is. */
  lemma SelectTakesTheRow(l: List, i: int)
    requires l.Valid()
    ensures l.rows == [] ==> l.Select(i) == l && l.Selected() == -1
    ensures l.rows != [] ==>
              && l.Select(i).Selected() == (if i < 0 then 0 else if i >= |l.rows| then |l.rows| - 1 else i)
              && l.Select(i).selKey == Key(l.rows[l.Select(i).Selected()]) && l.Select(i).rows == l.rows
  {
    hide Key;
  }

  /** New rows: the selection is on its message's copy nearest the old place, where it is listed. */
  lemma SetFollows(l: List, ps: seq<Packet>)
    requires l.Valid()
    ensures var m := l.Set(ps);
            && m.Valid() && m.rows == CompleteOf(ps)
            && (l.hasSel ==> m.selKey == l.selKey)
            && (l.hasSel && m.selKey in m.keys ==> m.sel == Nearest(m.keys, m.selKey, l.sel))
            && (l.hasSel && m.rows != [] && m.selKey !in m.keys ==> m.sel == Clamp(l.sel, 0, |m.rows| - 1))
            && (!l.hasSel && m.rows != [] ==> m.sel == 0 && m.selKey == m.keys[0])
  {
    NearestIs(Keys(CompleteOf(ps)), l.selKey, l.sel);
  }

  lemma SelectFollows(l: List, i: int)
    requires l.Valid() && l.rows != []
    ensures var m := l.Select(i);
            m.Valid() && m.Selected() == Clamp(i, 0, |l.rows| - 1) && m.selKey == l.keys[m.Selected()] && m.rows == l.rows
  {
  }

  // ---------------------------------------------------------------- runs of captures

  /** A capture offered, a capture put on screen as when the scope stops, a row selected. */
  datatype Action = Update(ps: seq<Packet>) | Replace(ps: seq<Packet>) | Select(i: int)

  ghost function Next(l: List, a: Action): List {
    match a
    case Update(ps) => l.Updated(ps)
    case Replace(ps) => l.Replaced(ps)
    case Select(i) => l.Select(i)
  }

  ghost function Run(l: List, actions: seq<Action>): List {
    if actions == [] then l else Next(Run(l, actions[..|actions| - 1]), actions[|actions| - 1])
  }

  /** How often a capture offered replaces the rows. */
  ghost function Changes(l: List, actions: seq<Action>): nat {
    if actions == [] then 0
    else
      var before := actions[..|actions| - 1];
      var a := actions[|actions| - 1];
      Changes(l, before) + if a.Update? && Run(l, before).Replaces(a.ps) then 1 else 0
  }

  /** How often a capture is put on screen. */
  function Stops(actions: seq<Action>): nat {
    if actions == [] then 0
    else Stops(actions[..|actions| - 1]) + if actions[|actions| - 1].Replace? then 1 else 0
  }

  /** Every capture's complete packets say messages of a set small enough to remember beside them. */
  ghost predicate Draws(actions: seq<Action>, all: set<Message>) {
    forall i :: 0 <= i < |actions| && !actions[i].Select? ==> DrawsFrom(actions[i].ps, all)
  }

  ghost predicate DrawsFrom(ps: seq<Packet>, all: set<Message>) {
    Messages(Keys(CompleteOf(ps))) <= all && |all| + |CompleteOf(ps)| <= MAX_KNOWN
  }

  /** How many changes a list can still make: fuller views of what it knows, and more once it knows more. */
  function Left(l: List, size: nat): int {
    Triangle(size) - Triangle(|l.known|) + |l.known| - l.shown
  }

  ghost predicate Within(l: List, all: set<Message>) {
    l.Valid() && l.known <= all
  }

  /** New rows never leave more changes than all the messages, and fewer when they say more. */
  lemma SetSpends(l: List, ps: seq<Packet>, all: set<Message>)
    requires Within(l, all) && DrawsFrom(ps, all)
    ensures var m := l.Set(ps);
            && Within(m, all) && m.known == l.known + Messages(Keys(CompleteOf(ps)))
            && Left(m, |all|) <= Left(l, |all|) + |all|
            && (l.Replaces(ps) ==> Left(m, |all|) < Left(l, |all|))
  {
    var ms := Messages(Keys(CompleteOf(ps)));
    var m := l.Set(ps);
    SetFollows(l, ps);
    Sizes(l.known, all);
    Sizes(l.known, m.known);
    Sizes(Messages(l.keys), l.known);
    Sizes(ms, m.known);
    MessagesSize(l.keys);
    if ms <= l.known {
      assert m.known == l.known;
    } else {
      assert l.known < m.known;
      Grown(l.known, m.known);
      TriangleGrows(|l.known|, |m.known|);
    }
  }

  lemma {:induction false} Sizes(a: set<Message>, b: set<Message>)
    requires a <= b
    ensures |a| <= |b|
  {
    assert b == a + (b - a);
  }

  lemma Grown(a: set<Message>, b: set<Message>)
    requires a < b
    ensures |a| < |b|
  {
    var k :| k in b && k !in a;
    Sizes(a + {k}, b);
  }

  /** Rows put on screen again say nothing new. */
  lemma SameRowsSayNothingNew(l: List, ps: seq<Packet>)
    requires l.Valid() && Positions(l.rows, CompleteOf(ps))
    ensures Messages(Keys(CompleteOf(ps))) <= l.known
  {
    hide Key, ContentOf;
    var cs := CompleteOf(ps);
    forall i | 0 <= i < |cs| ensures Keys(cs)[i] == Keys(l.rows)[i] {
      KeyIsContent(l.rows[i], cs[i]);
    }
    assert Keys(cs) == l.keys;
  }

  /** A list of a bus of finitely many messages replaces its rows for a capture offered a bounded number of times,
      whatever the captures, those put on screen and the user's selections, and forgets nothing. */
  lemma {:induction false} ChangesAreBounded(l: List, actions: seq<Action>, all: set<Message>)
    requires Within(l, all) && Draws(actions, all)
    ensures var m := Run(l, actions);
            && Within(m, all) && l.known <= m.known
            && Changes(l, actions) + Left(m, |all|) <= Left(l, |all|) + Stops(actions) * |all|
  {
    hide List.Valid, List.Updated, List.Replaced, List.Set, List.Select, List.Replaces, Left;
    if actions == [] {
      assert Stops(actions) * |all| == 0;
    } else {
      var before, a := actions[..|actions| - 1], actions[|actions| - 1];
      ChangesAreBounded(l, before, all);
      NextSpends(Run(l, before), a, all);
      assert (Stops(before) + 1) * |all| == Stops(before) * |all| + |all|;
    }
  }

  function Says(a: Action): set<Message> {
    if a.Select? then {} else Messages(Keys(CompleteOf(a.ps)))
  }

  lemma NextSpends(l: List, a: Action, all: set<Message>)
    requires Within(l, all) && (!a.Select? ==> DrawsFrom(a.ps, all))
    ensures var m := Next(l, a);
            && Within(m, all) && m.known == l.known + Says(a)
            && Left(m, |all|) + (if a.Update? && l.Replaces(a.ps) then 1 else 0)
               <= Left(l, |all|) + if a.Replace? then |all| else 0
  {
    match a
    case Update(ps) =>
      if l.Replaces(ps) {
        SetSpends(l, ps, all);
      } else {
        assert Messages(Keys(CompleteOf(ps))) <= l.known;
      }
    case Replace(ps) =>
      if Positions(l.rows, CompleteOf(ps)) {
        SameRowsSayNothingNew(l, ps);
      } else {
        SetSpends(l, ps, all);
      }
    case Select(i) =>
      if l.rows != [] {
        SelectFollows(l, i);
      }
  }

  /** From empty: at most |M|(|M| + 1)/2 changes, so never more than |M| * |M|, and |M| more for each capture put on
      screen. */
  lemma FewChanges(actions: seq<Action>, all: set<Message>)
    requires Draws(actions, all)
    ensures 2 * Changes(EMPTY, actions) <= |all| * (|all| + 1) + 2 * (Stops(actions) * |all|)
    ensures Changes(EMPTY, actions) <= |all| * |all| + Stops(actions) * |all|
  {
    hide List.Valid, Left, Draws, Run;
    EmptyIsValid();
    ChangesAreBounded(EMPTY, actions, all);
    SomeLeft(Run(EMPTY, actions), all);
    AllLeft(|all|);
    SquareIsMore(|all|);
  }

  lemma SomeLeft(l: List, all: set<Message>)
    requires Within(l, all)
    ensures Left(l, |all|) >= 0
  {
    Sizes(l.known, all);
    Sizes(Messages(l.keys), l.known);
    if |l.known| < |all| {
      TriangleGrows(|l.known|, |all|);
    }
  }

  lemma AllLeft(size: nat)
    ensures 2 * Left(EMPTY, size) == size * (size + 1)
  {
    TriangleIs(size);
  }

  lemma SquareIsMore(n: nat)
    ensures n * (n + 1) <= 2 * (n * n)
  {
    if n > 0 {
      assert n * (n - 1) >= 0;
    }
  }

  function Seen(actions: seq<Action>): set<Message> {
    if actions == [] then {}
    else
      Seen(actions[..|actions| - 1]) + Says(actions[|actions| - 1])
  }

  /** What the list knows is what it has seen: a message that comes again is never taken for a new one. */
  lemma {:induction false} RunRemembers(l: List, actions: seq<Action>, all: set<Message>)
    requires Within(l, all) && Draws(actions, all)
    ensures Run(l, actions).known == l.known + Seen(actions)
  {
    hide List.Valid, List.Updated, List.Replaced, List.Set, List.Select, Left, Says;
    if actions != [] {
      var before, a := actions[..|actions| - 1], actions[|actions| - 1];
      RunRemembers(l, before, all);
      ChangesAreBounded(l, before, all);
      NextSpends(Run(l, before), a, all);
    }
  }

  /** New rows forget no message exactly when they and the memory fit in 4096, or hold all it knew; a message
      forgotten counts as new when it comes again. */
  lemma WhatIsForgotten(l: List, ps: seq<Packet>, again: seq<Packet>)
    ensures var keys, m := Keys(CompleteOf(ps)), l.Set(ps);
            && (l.known <= m.known <==> |l.known| + |keys| <= 4096 || l.known <= Messages(keys))
            && (!(Messages(Keys(CompleteOf(again))) * l.known <= m.known) ==> m.Replaces(again))
  {
    var ms := Messages(Keys(CompleteOf(again)));
    if !(ms * l.known <= l.Set(ps).known) {
      var k :| k in ms * l.known && k !in l.Set(ps).known;
      assert k in ms;
    }
  }

  /** The memory is bounded, whatever the bus: by 4096 messages, or by those on screen. */
  lemma KnownIsBounded(l: List, ps: seq<Packet>)
    ensures |l.Set(ps).known| <= Max(MAX_KNOWN, l.Set(ps).shown)
  {
    var keys := Keys(CompleteOf(ps));
    var kept := if |l.known| + |keys| > MAX_KNOWN then {} else l.known;
    MessagesCount(keys);
    assert |kept + Messages(keys)| <= |kept| + |Messages(keys)|;
    assert {} + Messages(keys) == Messages(keys);
  }

  lemma {:induction false} MessagesCount(keys: seq<Message>)
    ensures |Messages(keys)| <= |keys|
  {
    if keys == [] {
      MessagesSize(keys);
    } else {
      var n := |keys| - 1;
      MessagesCount(keys[..n]);
      assert keys == keys[..n] + [keys[n]];
      assert Messages(keys) == Messages(keys[..n]) + {keys[n]};
    }
  }

  // ---------------------------------------------------------------- the list as the display keeps it

  /** A capture's packets are replaced whole, never changed in place. */
  class Capture {
    const packets: seq<Packet>

    constructor (packets: seq<Packet>)
      ensures this.packets == packets
    {
      this.packets := packets;
    }
  }

  function PacketsOf(c: Capture?): seq<Packet> {
    if c == null then [] else c.packets
  }

  /** The answer SelectedIn gives: the place in the capture of the message's nearest complete copy, -1 none. */
  function Found(ps: seq<Packet>, want: Message, s: int): int {
    var best := Nearest(Keys(CompleteOf(ps)), want, s);
    CompleteAtPlaces(ps);
    if 0 <= best < |Places(ps)| then Places(ps)[best] else -1
  }

  /** A packet's place among a capture's complete ones. */
  function Rank(ps: seq<Packet>, k: nat): nat
    requires k <= |ps|
  {
    |Places(ps[..k])|
  }

  /** That is how many complete packets come before it. */
  lemma RankIs(ps: seq<Packet>, k: nat)
    requires k < |ps|
    ensures Rank(ps, 0) == 0 && Rank(ps, k + 1) == Rank(ps, k) + if ps[k].complete then 1 else 0
  {
    assert ps[..k + 1][..k] == ps[..k];
  }

  lemma {:induction false} RankOfPlace(ps: seq<Packet>, i: nat)
    requires i < |Places(ps)|
    ensures Rank(ps, Places(ps)[i]) == i
  {
    var rest := ps[..|ps| - 1];
    if i < |Places(rest)| {
      RankOfPlace(rest, i);
      assert ps[..Places(ps)[i]] == rest[..Places(rest)[i]];
    }
  }

  predicate Copies(ps: seq<Packet>, want: Message, k: int) {
    0 <= k < |ps| && ps[k].complete && Key(ps[k]) == want
  }

  /** A complete packet is one of the places. */
  lemma PlaceOf(ps: seq<Packet>, k: nat) returns (i: nat)
    requires k < |ps| && ps[k].complete
    ensures i < |Places(ps)| && Places(ps)[i] == k && i == Rank(ps, k) && i < |Keys(CompleteOf(ps))|
    ensures Keys(CompleteOf(ps))[i] == Key(ps[k])
  {
    hide Key;
    PlacesAreAll(ps);
    CompleteAtPlaces(ps);
    i :| 0 <= i < |Places(ps)| && Places(ps)[i] == k;
    RankOfPlace(ps, i);
  }

  /** It is a complete copy of the message, nearest s of all in place among the complete packets, the first where
      two are; -1 when there is none. */
  lemma FoundIs(ps: seq<Packet>, want: Message, s: int)
    ensures var at := Found(ps, want, s);
            if at < 0 then forall k :: !Copies(ps, want, k)
            else Copies(ps, want, at) && forall k :: Copies(ps, want, k) ==> AsNear(Rank(ps, at), Rank(ps, k), s)
  {
    hide Key, Nearest, Rank, Places, CompleteOf, Keys;
    var at, keys := Found(ps, want, s), Keys(CompleteOf(ps));
    CompleteAtPlaces(ps);
    NearestIs(keys, want, s);
    if at >= 0 {
      var i := PlaceOf(ps, at);
      RankOfPlace(ps, Nearest(keys, want, s));
    }
    forall k | Copies(ps, want, k)
      ensures at >= 0
      ensures AsNear(Rank(ps, at), Rank(ps, k), s)
    {
      var i := PlaceOf(ps, k);
    }
  }

  /** An answer, and what it was for. */
  datatype Memo = Memo(capture: Capture?, n: nat, sel: int, want: Message, res: int)

  ghost predicate Positions(rows: seq<Packet>, ps: seq<Packet>) {
    |rows| == |ps| && forall i :: 0 <= i < |rows| ==>
      rows[i].i0 == ps[i].i0 && rows[i].i1 == ps[i].i1 && ContentOf(rows[i]) == ContentOf(ps[i])
  }

  /** Rows are a capture's packets when they lie where those do and say what those say, one by one. */
  lemma PositionsAre(rows: seq<Packet>, ps: seq<Packet>)
    ensures Positions(rows, ps)
            <==> && |rows| == |ps|
                 && forall i :: 0 <= i < |rows| ==>
                      rows[i].i0 == ps[i].i0 && rows[i].i1 == ps[i].i1 && Key(rows[i]) == Key(ps[i])
  {
    hide Key, ContentOf;
    forall i | 0 <= i < |rows| && i < |ps| ensures Key(rows[i]) == Key(ps[i]) <==> ContentOf(rows[i]) == ContentOf(ps[i]) {
      KeyIsContent(rows[i], ps[i]);
    }
  }

  lemma CompleteNext(ps: seq<Packet>, i: nat)
    requires i < |ps|
    ensures CompleteOf(ps[..i + 1]) == CompleteOf(ps[..i]) + if ps[i].complete then [ps[i]] else []
    ensures Places(ps[..i + 1]) == Places(ps[..i]) + if ps[i].complete then [i] else []
    ensures Keys(CompleteOf(ps[..i + 1])) == Keys(CompleteOf(ps[..i])) + if ps[i].complete then [Key(ps[i])] else []
  {
    hide Key;
    assert ps[..i + 1][..i] == ps[..i];
  }

  lemma MessagesNext(keys: seq<Message>, k: Message)
    ensures Messages(keys + [k]) == Messages(keys) + {k}
  {
  }

  method CompleteKeys(ps: seq<Packet>) returns (keys: seq<Message>, distinct: nat)
    ensures keys == Keys(CompleteOf(ps)) && distinct == |Messages(keys)|
  {
    hide Key, Keys, CompleteOf, Messages;
    keys := [];
    var seen: set<Message> := {};
    NoRows();
    assert ps[..0] == [];
    for i := 0 to |ps|
      invariant keys == Keys(CompleteOf(ps[..i])) && seen == Messages(keys)
    {
      CompleteNext(ps, i);
      if ps[i].complete {
        var k := AppendContentKey([], ps[i]);
        assert k == Key(ps[i]);
        MessagesNext(keys, k);
        keys := keys + [k];
        seen := seen + {k};
      }
    }
    assert ps[..|ps|] == ps;
    distinct := |seen|;
  }

  method CompleteRows(ps: seq<Packet>) returns (rows: seq<Packet>)
    ensures rows == CompleteOf(ps)
  {
    hide Key;
    rows := [];
    for i := 0 to |ps|
      invariant rows == CompleteOf(ps[..i])
    {
      CompleteNext(ps, i);
      if ps[i].complete {
        rows := rows + [ps[i]];
      }
    }
    assert ps[..|ps|] == ps;
  }

  lemma NoRows()
    ensures CompleteOf([]) == [] && Keys([]) == [] && Messages([]) == {} && Places([]) == []
  {
  }

  lemma NearestNext(keys: seq<Message>, k: Message, want: Message, s: int)
    ensures var b := Nearest(keys, want, s);
            Nearest(keys + [k], want, s) == if k == want && (b < 0 || Abs(|keys| - s) < Abs(b - s)) then |keys| else b
  {
    assert (keys + [k])[..|keys|] == keys;
  }

  /** One packet more, while the nearest copy so far is the complete packet b. */
  lemma FoundNext(ps: seq<Packet>, i: nat, want: Message, s: int, b: int)
    requires i < |ps| && b == Nearest(Keys(CompleteOf(ps[..i])), want, s)
    ensures var c := |CompleteOf(ps[..i])|;
            var takes := ps[i].complete && Key(ps[i]) == want && (b < 0 || Abs(c - s) < Abs(b - s));
            && Nearest(Keys(CompleteOf(ps[..i + 1])), want, s) == (if takes then c else b)
            && Found(ps[..i + 1], want, s) == (if takes then i else Found(ps[..i], want, s))
            && -1 <= b < c
  {
    hide Key, Keys, CompleteOf, Places;
    CompleteNext(ps, i);
    CompleteAtPlaces(ps[..i]);
    CompleteAtPlaces(ps[..i + 1]);
    var keys := Keys(CompleteOf(ps[..i]));
    NearestIs(keys, want, s);
    if ps[i].complete {
      NearestNext(keys, Key(ps[i]), want, s);
    } else {
      assert keys + [] == keys && Places(ps[..i]) + [] == Places(ps[..i]);
    }
  }

  method NearestMessage(ps: seq<Packet>, want: Message, s: int) returns (best: int)
    ensures best == Found(ps, want, s)
  {
    hide Key, Found, Nearest, CompleteOf;
    best := -1;
    var bestD, c := 0, 0;
    ghost var b := -1;
    NoneFound(want, s);
    assert ps[..0] == [];
    for i := 0 to |ps|
      invariant c == |CompleteOf(ps[..i])| && best == Found(ps[..i], want, s)
      invariant b == Nearest(Keys(CompleteOf(ps[..i])), want, s) && (b < 0 <==> best < 0) && (b >= 0 ==> bestD == Abs(b - s))
    {
      FoundNext(ps, i, want, s, b);
      CompleteNext(ps, i);
      if ps[i].complete {
        var k := AppendContentKey([], ps[i]);
        assert k == Key(ps[i]);
        if k == want {
          var d := Abs(c - s);
          if best < 0 || d < bestD {
            best, bestD, b := i, d, c;
          }
        }
        c := c + 1;
      }
    }
    assert ps[..|ps|] == ps;
  }

  lemma NoneFound(want: Message, s: int)
    ensures CompleteOf([]) == [] && Nearest(Keys(CompleteOf([])), want, s) == -1 && Found([], want, s) == -1
  {
  }

  /** Whether rows are the complete packets of ps, their positions and what they say. */
  method SamePackets(rows: seq<Packet>, ps: seq<Packet>, keys: seq<Message>) returns (same: bool)
    requires keys == Keys(CompleteOf(ps))
    ensures same <==> Positions(rows, CompleteOf(ps))
  {
    hide Key, ContentOf;
    ghost var cs := CompleteOf(ps);
    if |rows| != |keys| {
      return false;
    }
    var i := 0;
    assert ps[..0] == [];
    for k := 0 to |ps|
      invariant i == |CompleteOf(ps[..k])| <= |cs| && CompleteOf(ps[..k]) == cs[..i]
      invariant forall j :: 0 <= j < i ==> rows[j].i0 == cs[j].i0 && rows[j].i1 == cs[j].i1 && ContentOf(rows[j]) == ContentOf(cs[j])
    {
      CompleteNext(ps, k);
      CompletePrefix(ps, k + 1);
      if ps[k].complete {
        assert ps[k] == CompleteOf(ps[..k + 1])[i] == cs[i];
        if rows[i].i0 != ps[k].i0 || rows[i].i1 != ps[k].i1 {
          return false;
        }
        var key := AppendContentKey([], rows[i]);
        assert key == Key(rows[i]) && keys[i] == Key(cs[i]);
        KeyIsContent(rows[i], cs[i]);
        if key != keys[i] {
          return false;
        }
        i := i + 1;
      }
    }
    assert ps[..|ps|] == ps;
    return true;
  }

  lemma {:induction false} CompletePrefix(ps: seq<Packet>, k: nat)
    requires k <= |ps|
    ensures CompleteOf(ps[..k]) <= CompleteOf(ps)
    decreases |ps| - k
  {
    if k == |ps| {
      assert ps[..k] == ps;
    } else {
      CompleteNext(ps, k);
      CompletePrefix(ps, k + 1);
    }
  }

  class PacketList {
    var rows: seq<Packet>
    var keys: seq<Message>
    var shown: nat
    var known: set<Message>
    var sel: int
    var selKey: Message
    var hasSel: bool
    var memo: Option<Memo>

    ghost function State(): List
      reads this
    {
      List(rows, keys, shown, known, sel, selKey, hasSel)
    }

    ghost predicate Valid()
      reads this
    {
      && State().Valid()
      && (memo.Some? ==>
            var m := memo.value;
            m.n == |PacketsOf(m.capture)| && m.res == Found(PacketsOf(m.capture), m.want, m.sel))
    }

    constructor ()
      ensures Valid() && State() == EMPTY
    {
      rows, keys, shown, known, sel, selKey, hasSel, memo := [], [], 0, {}, 0, [], false, None;
      new;
      EmptyIsValid();
    }

    method Reset()
      modifies this
      ensures Valid() && State() == EMPTY
    {
      rows, keys, shown, known, sel, selKey, hasSel, memo := [], [], 0, {}, 0, [], false, None;
      EmptyIsValid();
    }

    /** Offers a capture: it replaces the rows for a message never seen, or a fuller view; else nothing moves. */
    method Update(ps: seq<Packet>) returns (changed: bool)
      requires Valid()
      modifies this
      ensures Valid() && State() == old(State()).Updated(ps)
      ensures changed <==> old(State()).Replaces(ps)
    {
      hide Key, List.Valid, List.Set, Found;
      var ks, distinct := CompleteKeys(ps);
      MessagesSize(ks);
      if ks == [] {
        return false;
      }
      if |rows| > 0 && distinct <= shown {
        var isNew := false;
        for i := 0 to |ks|
          invariant forall j :: 0 <= j < i ==> ks[j] in known
        {
          if ks[i] !in known {
            isNew := true;
            break;
          }
        }
        if !isNew {
          return false;
        }
      }
      Install(ps, ks, distinct);
      return true;
    }

    /** Takes the complete packets as the rows, unless they are the rows. */
    method Replace(ps: seq<Packet>) returns (changed: bool)
      requires Valid()
      modifies this
      ensures Valid() && State() == old(State()).Replaced(ps)
      ensures State() == if changed then old(State()).Set(ps) else old(State())
      ensures changed <==> !Positions(old(rows), CompleteOf(ps))
    {
      hide Key, List.Valid, List.Set, Found;
      var ks, distinct := CompleteKeys(ps);
      var same := SamePackets(rows, ps, ks);
      if same {
        return false;
      }
      Install(ps, ks, distinct);
      return true;
    }

    method Select(i: int)
      requires Valid()
      modifies this
      ensures Valid() && State() == old(State()).Select(i)
    {
      if |rows| == 0 {
        return;
      }
      sel := Clamp(i, 0, |rows| - 1);
      selKey, hasSel := keys[sel], true;
    }

    method Selected() returns (s: int)
      requires Valid()
      ensures s == State().Selected()
      ensures rows != [] && selKey in keys ==> 0 <= s < |rows| && keys[s] == selKey == Key(rows[s])
    {
      hide Key;
      if |rows| == 0 {
        return -1;
      }
      return Clamp(sel, 0, |rows| - 1);
    }

    /** Where the selected row's message is in a live capture; the same question gets its last answer. */
    method SelectedIn(c: Capture?) returns (at: int)
      requires Valid()
      modifies this`memo
      ensures Valid() && at == if rows == [] then -1 else Found(PacketsOf(c), keys[State().Selected()], State().Selected())
    {
      hide Key, Found;
      var s := Selected();
      if s < 0 {
        return -1;
      }
      var ps := if c == null then [] else c.packets;
      var want := keys[s];
      var first := if |ps| > 0 then c else null;
      if memo.Some? && memo.value.capture == first && memo.value.n == |ps| && memo.value.sel == s && memo.value.want == want {
        return memo.value.res;
      }
      at := NearestMessage(ps, want, s);
      memo := Some(Memo(first, |ps|, s, want, at));
    }

    /** Installs the complete packets of ps, and moves the selection onto its message. */
    method Install(ps: seq<Packet>, ks: seq<Message>, distinct: nat)
      requires Valid() && ks == Keys(CompleteOf(ps)) && distinct == |Messages(ks)|
      modifies this
      ensures Valid() && State() == old(State()).Set(ps)
    {
      hide Key, Found, Nearest, CompleteOf, Keys, List.Valid, Messages;
      ghost var l := State();
      SetFollows(l, ps);
      var rs := CompleteRows(ps);
      var was := sel;
      rows, keys, shown := rs, ks, distinct;
      if |known| + |ks| > MAX_KNOWN {
        known := {};
      }
      Remember(ks);
      if |rs| == 0 {
        return;
      }
      if !hasSel {
        sel, selKey, hasSel := 0, ks[0], true;
        return;
      }
      var best := NearestCopy(ks, selKey, was);
      if best < 0 {
        best := was;
      }
      sel := Clamp(best, 0, |rs| - 1);
    }

    method Remember(ks: seq<Message>)
      modifies this`known
      ensures known == old(known) + Messages(ks)
    {
      ghost var was := known;
      for i := 0 to |ks|
        invariant known == was + Messages(ks[..i])
      {
        assert ks[..i + 1] == ks[..i] + [ks[i]];
        known := known + {ks[i]};
      }
      assert ks[..|ks|] == ks;
    }

    method NearestCopy(ks: seq<Message>, want: Message, place: int) returns (best: int)
      ensures best == Nearest(ks, want, place)
    {
      best := -1;
      for i := 0 to |ks|
        invariant best == Nearest(ks[..i], want, place)
      {
        assert ks[..i + 1][..i] == ks[..i];
        if ks[i] == want && (best < 0 || Abs(i - place) < Abs(best - place)) {
          best := i;
        }
      }
      assert ks[..|ks|] == ks;
    }
  }
}
