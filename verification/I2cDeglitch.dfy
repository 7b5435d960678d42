/**
 Spikes taken off an I2C line: a run shorter than g samples between two others takes
 the level before it.
 */
module I2cDeglitch {
  import opened Basics

  /** The samples i up to j are one level. */
  predicate Level(s: seq<bit>, i: nat, j: nat)
    requires i < j <= |s|
  {
    forall k :: i <= k < j ==> s[k] == s[i]
  }

  /** Sample k is in a stretch of one level that a spike is not: g samples long, or touching an end of the record. */
  ghost predicate Held(s: seq<bit>, g: int, k: nat) {
    exists i: nat, j: nat :: i <= k < j <= |s| && Level(s, i, j) && (i == 0 || j == |s| || j - i >= g)
  }

  /** A sample's level, spikes taken off: its own where it is held, else the one before it. */
  ghost function Cleaned(s: seq<bit>, g: int, k: nat): bit
    requires k < |s|
  {
    if k == 0 || Held(s, g, k) then s[k] else Cleaned(s, g, k - 1)
  }

  method Deglitch(level: array<bit>, g: int)
    modifies level
    ensures forall k :: 0 <= k < level.Length ==> level[k] == Cleaned(old(level[..]), g, k)
  {
    hide Level, Held;
    ghost var s := level[..];
    if g < 2 {
      forall k | 0 <= k < |s| ensures level[k] == Cleaned(s, g, k) {
        RunIsLevel(s, k, k + 1);
        RunIsHeld(s, g, k, k + 1, k);
      }
      return;
    }
    var i := 0;
    while i < level.Length
      invariant i <= level.Length && (0 < i < level.Length ==> s[i] != s[i - 1])
      invariant forall k :: 0 <= k < i ==> level[k] == Cleaned(s, g, k)
      invariant forall k :: i <= k < level.Length ==> level[k] == s[k]
    {
      var j := i;
      while j < level.Length && level[j] == level[i]
        invariant i <= j <= level.Length && forall k :: i <= k < j ==> s[k] == s[i]
      {
        j := j + 1;
      }
      RunIsLevel(s, i, j);
      if i > 0 && j < level.Length && j - i < g {
        for k := i to j
          invariant forall q :: 0 <= q < k ==> level[q] == Cleaned(s, g, q)
          invariant level[if k == i then i - 1 else k - 1] == level[i - 1]
          invariant forall q :: k <= q < level.Length ==> level[q] == s[q]
        {
          SpikeIsNotHeld(s, g, i, j, k);
          assert level[i - 1] == Cleaned(s, g, i - 1);
          level[k] := level[i - 1];
        }
      } else {
        forall k | i <= k < j ensures Held(s, g, k) {
          RunIsHeld(s, g, i, j, k);
        }
      }
      i := j;
    }
  }

  lemma RunIsLevel(s: seq<bit>, i: nat, j: nat)
    requires i < j <= |s| && forall k :: i <= k < j ==> s[k] == s[i]
    ensures Level(s, i, j)
  {
  }

  lemma RunIsHeld(s: seq<bit>, g: int, i: nat, j: nat, k: nat)
    requires i <= k < j <= |s| && Level(s, i, j) && (i == 0 || j == |s| || j - i >= g)
    ensures Held(s, g, k)
  {
  }

  lemma OneLevel(s: seq<bit>, a: nat, b: nat, x: int, y: int)
    requires a < b <= |s| && Level(s, a, b) && a <= x < b && a <= y < b
    ensures s[x] == s[y]
  {
  }

  lemma SpikeIsNotHeld(s: seq<bit>, g: int, i: nat, j: nat, k: nat)
    requires 0 < i <= k < j < |s| && Level(s, i, j) && s[i] != s[i - 1] && s[j] != s[i] && j - i < g
    ensures !Held(s, g, k)
  {
    hide Level;
    OneLevel(s, i, j, j - 1, i);
    if Held(s, g, k) {
      var a: nat, b: nat :| a <= k < b <= |s| && Level(s, a, b) && (a == 0 || b == |s| || b - a >= g);
      if a < i {
        OneLevel(s, a, b, i - 1, i);
      } else if b > j {
        OneLevel(s, a, b, j - 1, j);
      }
    }
  }

  /** No spike is left: every change of the cleaned line is held for g samples, or to the record's end. */
  lemma NoSpikeIsLeft(s: seq<bit>, g: int, p: nat, k: nat)
    requires 0 < p <= k < |s| && k < p + g && Cleaned(s, g, p) != Cleaned(s, g, p - 1)
    ensures Cleaned(s, g, k) == Cleaned(s, g, p)
  {
    assert Held(s, g, p);
    var a: nat, b: nat :| a <= p < b <= |s| && Level(s, a, b) && (a == 0 || b == |s| || b - a >= g);
    if a < p {
      assert false;
    }
    assert Held(s, g, k);
  }

  // ---------------------------------------------------------------- spikes put on a clean line

  /** The samples i up to j of s are those of c. */
  ghost predicate Same(c: seq<bit>, s: seq<bit>, i: nat, j: nat)
    requires i <= j <= |c| == |s|
  {
    forall k :: i <= k < j ==> s[k] == c[k]
  }

  /** All of them are flipped. */
  ghost predicate Flipped(c: seq<bit>, s: seq<bit>, i: nat, j: nat)
    requires i <= j <= |c| == |s|
  {
    forall k :: i <= k < j ==> s[k] != c[k]
  }

  /** Fewer than g samples flipped inside a stretch of one level, and on either side g samples that are not, or all there
      are to the record's end. */
  ghost predicate Spike(c: seq<bit>, s: seq<bit>, g: int, a: nat, b: nat)
    requires |c| == |s|
  {
    && 0 < a < b < |c| && b - a < g
    && Level(c, Max(0, a - g), Min(|c|, b + g))
    && Flipped(c, s, a, b) && Same(c, s, Max(0, a - g), a) && Same(c, s, b, Min(|c|, b + g))
  }

  ghost predicate Spiked(c: seq<bit>, s: seq<bit>, g: int) {
    |c| == |s| && forall k :: 0 <= k < |c| && s[k] != c[k] ==> exists a: nat, b: nat :: a <= k < b && Spike(c, s, g, a, b)
  }

  /** A line whose stretches all last, with any such spikes on it, is given back clean. */
  lemma {:induction false} SpikesComeOff(c: seq<bit>, s: seq<bit>, g: int, k: nat)
    requires Spiked(c, s, g) && k < |c| && forall q: nat :: q < |c| ==> Held(c, g, q)
    ensures Cleaned(s, g, k) == c[k]
  {
    hide Held, Spike, Level;
    if s[k] == c[k] {
      KeptIsHeld(c, s, g, k);
    } else {
      var a: nat, b: nat :| a <= k < b && Spike(c, s, g, a, b);
      FlippedIsNotHeld(c, s, g, a, b, k);
      SpikesComeOff(c, s, g, k - 1);
    }
  }

  lemma FlippedIsNotHeld(c: seq<bit>, s: seq<bit>, g: int, a: nat, b: nat, k: nat)
    requires |c| == |s| && Spike(c, s, g, a, b) && a <= k < b
    ensures k > 0 && !Held(s, g, k) && c[k] == c[k - 1]
  {
    hide Held;
    var lo, hi := Max(0, a - g), Min(|c|, b + g);
    forall i | a <= i < b ensures s[i] == s[a] {
      OneLevel(c, lo, hi, i, a);
    }
    OneLevel(c, lo, hi, a, a - 1);
    OneLevel(c, lo, hi, b - 1, b);
    OneLevel(c, lo, hi, k, k - 1);
    SpikeIsNotHeld(s, g, a, b, k);
  }

  /** Where the samples are the clean line's over a stretch of one level, it is one level too. */
  lemma SameIsHeld(c: seq<bit>, s: seq<bit>, g: int, i: nat, j: nat, k: nat)
    requires i <= k < j <= |c| == |s| && Level(c, i, j) && Same(c, s, i, j) && (i == 0 || j == |s| || j - i >= g)
    ensures Held(s, g, k)
  {
    RunIsHeld(s, g, i, j, k);
  }

  lemma InsideLevel(s: seq<bit>, i: nat, j: nat, i': nat, j': nat)
    requires i <= i' < j' <= j <= |s| && Level(s, i, j)
    ensures Level(s, i', j')
  {
  }

  /** A sample no spike touches is held: by the spike next to it, or by the clean line's own stretch. */
  lemma KeptIsHeld(c: seq<bit>, s: seq<bit>, g: int, k: nat)
    requires Spiked(c, s, g) && k < |c| && s[k] == c[k] && Held(c, g, k)
    ensures Held(s, g, k)
  {
    var i: nat, j: nat :| i <= k < j <= |c| && Level(c, i, j) && (i == 0 || j == |c| || j - i >= g);
    hide Held, Spike, Level;
    var p, f := Clear(c, s, i, j, k);
    if f < j {
      var a: nat, b: nat :| a <= f < b && Spike(c, s, g, a, b);
      HeldBefore(c, s, g, i, j, k, f, a, b);
    } else if p > i {
      var a: nat, b: nat :| a <= p - 1 < b && Spike(c, s, g, a, b);
      HeldAfter(c, s, g, i, j, k, p, a, b);
    } else {
      SameIsHeld(c, s, g, i, j, k);
    }
  }

  /** The unflipped samples about k, inside a stretch. */
  lemma Clear(c: seq<bit>, s: seq<bit>, i: nat, j: nat, k: nat) returns (p: nat, f: nat)
    requires i <= k < j <= |c| == |s| && s[k] == c[k]
    ensures i <= p <= k < f <= j && Same(c, s, p, f)
    ensures (f < j ==> s[f] != c[f]) && (p > i ==> s[p - 1] != c[p - 1])
  {
    p, f := k, k + 1;
    while f < j && s[f] == c[f]
      invariant f <= j && Same(c, s, k, f)
    {
      f := f + 1;
    }
    while p > i && s[p - 1] == c[p - 1]
      invariant i <= p <= k && Same(c, s, p, f)
    {
      p := p - 1;
    }
  }

  lemma HeldBefore(c: seq<bit>, s: seq<bit>, g: int, i: nat, j: nat, k: nat, f: nat, a: nat, b: nat)
    requires i <= k < f < j <= |c| == |s| && Level(c, i, j) && Same(c, s, k, f) && a <= f < b && Spike(c, s, g, a, b)
    ensures Held(s, g, k)
  {
    hide Held, Level;
    assert a == f by {
      assert s[f - 1] == c[f - 1];
    }
    var lo := Max(0, a - g);
    if k >= lo {
      InsideLevel(c, lo, Min(|c|, b + g), lo, a);
      SameIsHeld(c, s, g, lo, a, k);
    } else {
      InsideLevel(c, i, j, k, f);
      SameIsHeld(c, s, g, k, f, k);
    }
  }

  lemma HeldAfter(c: seq<bit>, s: seq<bit>, g: int, i: nat, j: nat, k: nat, p: nat, a: nat, b: nat)
    requires i < p <= k < j <= |c| == |s| && Level(c, i, j) && Same(c, s, p, k + 1) && a < p <= b && Spike(c, s, g, a, b)
    ensures Held(s, g, k)
  {
    hide Held, Level;
    assert b == p by {
      assert s[p] == c[p];
    }
    var hi := Min(|c|, b + g);
    if k < hi {
      InsideLevel(c, Max(0, a - g), hi, b, hi);
      SameIsHeld(c, s, g, b, hi, k);
    } else {
      InsideLevel(c, i, j, p, k + 1);
      SameIsHeld(c, s, g, p, k + 1, k);
    }
  }
}
