/**
 A sliced line: its first level and the edges where it changes.
 */
module Edges {
  import opened Basics

  /** A change of level at sample i, dir +1 up or -1 down, x where it crossed the threshold. */
  datatype Edge = Edge(i: nat, dir: int, x: real) {
    function Level(): bit {
      if dir > 0 then 1 else 0
    }
  }

  /** Edges in time, none at the first sample. */
  predicate Rising(es: seq<Edge>) {
    && (forall j :: 0 <= j < |es| ==> es[j].i > 0)
    && (forall j, k :: 0 <= j < k < |es| ==> es[j].i < es[k].i)
  }

  predicate From(es: seq<Edge>, at: nat) {
    es == [] || es[0].i >= at
  }

  /** A line's level at sample k, from its first level and its edges. */
  function LevelAt(first: bit, es: seq<Edge>, k: nat): bit
    decreases |es|
  {
    if es == [] || es[0].i > k then first else LevelAt(es[0].Level(), es[1..], k)
  }

  datatype Line = Line(first: bit, edges: seq<Edge>) {
    function At(k: nat): bit {
      LevelAt(first, edges, k)
    }
  }

  lemma FirstLevels(first: bit, es: seq<Edge>, k: nat)
    requires es == [] || es[0].i > k
    ensures LevelAt(first, es, k) == first
  {
  }

  lemma DropEdge(first: bit, es: seq<Edge>)
    requires es != [] && Rising(es)
    ensures forall k: nat :: k >= es[0].i ==> LevelAt(first, es, k) == LevelAt(es[0].Level(), es[1..], k)
    ensures Rising(es[1..]) && From(es[1..], es[0].i + 1)
  {
  }

  /** Edges go up and down in turn, from the first level. */
  predicate Alternating(first: bit, es: seq<Edge>) {
    forall j :: 0 <= j < |es| ==> es[j].Level() == (if j % 2 == 0 then 1 - first else first) && (es[j].dir == 1 || es[j].dir == -1)
  }

  /** A further edge sets the level from its sample on. */
  lemma {:induction false} LevelAtAppend(first: bit, es: seq<Edge>, e: Edge, k: nat)
    requires Rising(es + [e])
    ensures LevelAt(first, es + [e], k) == if k >= e.i then e.Level() else LevelAt(first, es, k)
    decreases |es|
  {
    var all := es + [e];
    if es == [] {
      assert all[1..] == [];
    } else {
      assert all[0] == es[0] && all[1..] == es[1..] + [e] && all[|es|] == e;
      if es[0].i <= k {
        LevelAtAppend(es[0].Level(), es[1..], e, k);
      }
    }
  }

  /** The level after a number of alternating edges is that number's parity. */
  lemma {:induction false} ParityIsLevel(first: bit, es: seq<Edge>, k: nat, count: nat)
    requires Rising(es) && Alternating(first, es) && count <= |es|
    requires (forall j :: 0 <= j < count ==> es[j].i <= k) && (forall j :: count <= j < |es| ==> es[j].i > k)
    ensures LevelAt(first, es, k) == (first + count) % 2
    decreases |es|
  {
    if es != [] && count > 0 {
      assert Alternating(es[0].Level(), es[1..]) by {
        forall j | 0 <= j < |es| - 1 ensures es[1..][j] == es[j + 1] {}
      }
      ParityIsLevel(es[0].Level(), es[1..], k, count - 1);
    }
  }
}
