/** The k-th smallest value, found in place: Hoare's selection with a median-of-three pivot. */
module QuickSelect {

  function Swapped(s: seq<real>, i: nat, j: nat): (t: seq<real>)
    requires i < |s| && j < |s|
    ensures |t| == |s|
  {
    s[i := s[j]][j := s[i]]
  }

  /** Nothing before lo is over anything from lo on, and nothing up to hi is over anything past it. */
  predicate Fenced(s: seq<real>, lo: nat, hi: int)
    requires lo <= |s| && hi < |s|
  {
    && (forall x, y :: 0 <= x < lo <= y < |s| ==> s[x] <= s[y])
    && (forall x, y :: 0 <= x <= hi < y < |s| ==> s[x] <= s[y])
  }

  /** The same elements, those outside the fences in place. */
  ghost predicate Shuffled(s: seq<real>, t: seq<real>, lo: nat, hi: int)
    requires lo <= |s| && hi < |s|
  {
    && |t| == |s| && multiset(t) == multiset(s) && (Fenced(s, lo, hi) ==> Fenced(t, lo, hi))
  }

  lemma SwapStays(s: seq<real>, lo: nat, hi: int, i: nat, j: nat)
    requires lo <= i <= hi < |s| && lo <= j <= hi
    ensures Shuffled(s, Swapped(s, i, j), lo, hi)
  {
  }

  lemma ShuffledTwice(s: seq<real>, t: seq<real>, u: seq<real>, lo: nat, hi: int)
    requires lo <= |s| && hi < |s| && Shuffled(s, t, lo, hi) && Shuffled(t, u, lo, hi)
    ensures Shuffled(s, u, lo, hi)
  {
  }

  /** Swaps two elements between the fences. */
  method Swap(a: array<real>, i: nat, j: nat, ghost was: seq<real>, ghost lo: nat, ghost hi: nat)
    requires lo <= i <= hi < a.Length && lo <= j <= hi < |was| && Shuffled(was, a[..], lo, hi)
    modifies a
    ensures Shuffled(was, a[..], lo, hi)
    ensures a[..] == Swapped(old(a[..]), i, j)
  {
    hide Shuffled;
    SwapStays(a[..], lo, hi, i, j);
    ShuffledTwice(was, a[..], Swapped(a[..], i, j), lo, hi);
    a[i], a[j] := a[j], a[i];
    assert a[..] == Swapped(old(a[..]), i, j);
  }

  method Order(a: array<real>, i: nat, j: nat, ghost was: seq<real>, ghost lo: nat, ghost hi: nat)
    requires lo <= i <= hi < a.Length && lo <= j <= hi < |was| && Shuffled(was, a[..], lo, hi)
    modifies a
    ensures Shuffled(was, a[..], lo, hi)
    ensures a[..] == if old(a[j] < a[i]) then Swapped(old(a[..]), i, j) else old(a[..])
  {
    hide Shuffled;
    if a[j] < a[i] {
      Swap(a, i, j, was, lo, hi);
    }
  }

  /** The fences' ends and their middle put in order: the scans' sentinels. */
  method MedianOfThree(a: array<real>, lo: nat, hi: nat, mid: nat)
    requires lo <= mid <= hi < a.Length
    modifies a
    ensures Shuffled(old(a[..]), a[..], lo, hi)
    ensures a[lo] <= a[mid] <= a[hi]
  {
    ghost var was := a[..];
    assert Shuffled(was, a[..], lo, hi);
    hide Shuffled;
    Order(a, lo, mid, was, lo, hi);
    Order(a, lo, hi, was, lo, hi);
    Order(a, mid, hi, was, lo, hi);
  }

  /** The fenced part split about p: up to p before i, from p after j. */
  method Partition(a: array<real>, lo: nat, hi: nat, mid: nat) returns (i: int, j: int)
    requires lo < hi < a.Length && lo <= mid <= hi && a[lo] <= a[mid] <= a[hi]
    modifies a
    ensures Shuffled(old(a[..]), a[..], lo, hi)
    ensures lo - 1 <= j < hi && lo < i <= hi + 1 && j < i
    ensures forall x :: lo <= x < i ==> a[x] <= old(a[mid])
    ensures forall y :: j < y <= hi ==> old(a[mid]) <= a[y]
  {
    ghost var was := a[..];
    assert Shuffled(was, a[..], lo, hi);
    hide Shuffled;
    var p := a[mid];
    i, j := lo, hi;
    while i <= j
      invariant (i == lo && j == hi && a[mid] == p) || (lo < i <= hi + 1 && lo - 1 <= j < hi)
      invariant Shuffled(was, a[..], lo, hi)
      invariant forall x :: lo <= x < i ==> a[x] <= p
      invariant forall y :: j < y <= hi ==> p <= a[y]
      decreases j - i
    {
      i := ScanUp(a, i, if i == lo then mid else j + 1, p);
      j := ScanDown(a, j, if j == hi then mid else lo, p);
      if i <= j {
        Swap(a, i, j, was, lo, hi);
        i, j := i + 1, j - 1;
      }
    }
  }

  /** The first place from i on whose value is not under p; stop is one. */
  method ScanUp(a: array<real>, i0: int, ghost stop: int, p: real) returns (i: int)
    requires 0 <= i0 <= stop < a.Length && p <= a[stop]
    ensures i0 <= i <= stop && p <= a[i] && forall x :: i0 <= x < i ==> a[x] < p
  {
    i := i0;
    while a[i] < p
      invariant i0 <= i <= stop && forall x :: i0 <= x < i ==> a[x] < p
      decreases stop - i
    {
      i := i + 1;
    }
  }

  method ScanDown(a: array<real>, j0: int, ghost stop: int, p: real) returns (j: int)
    requires 0 <= stop <= j0 < a.Length && a[stop] <= p
    ensures stop <= j <= j0 && a[j] <= p && forall y :: j < y <= j0 ==> p < a[y]
  {
    j := j0;
    while a[j] > p
      invariant stop <= j <= j0 && forall y :: j < y <= j0 ==> p < a[y]
      decreases j
    {
      j := j - 1;
    }
  }

  // ---------------------------------------------------------------- the selection

  /** Element k is where a sort would put it. */
  predicate Placed(s: seq<real>, k: nat)
    requires k < |s|
  {
    (forall x :: 0 <= x < k ==> s[x] <= s[k]) && (forall y :: k < y < |s| ==> s[k] <= s[y])
  }

  /** Split about p, either side is fenced, and between them every element is placed. */
  lemma Narrow(s: seq<real>, lo: nat, hi: nat, i: int, j: int, p: real)
    requires lo - 1 <= j < i <= hi + 1 <= |s| && Fenced(s, lo, hi)
    requires forall x :: lo <= x < i ==> s[x] <= p
    requires forall y :: j < y <= hi ==> p <= s[y]
    ensures lo <= j ==> Fenced(s, lo, j)
    ensures i <= hi ==> Fenced(s, i, hi)
    ensures forall k :: j < k < i ==> Placed(s, k)
  {
  }

  lemma Unfenced(s: seq<real>)
    ensures Fenced(s, 0, |s| - 1)
  {
  }

  lemma FencedIn(s: seq<real>, k: nat)
    requires k < |s| && Fenced(s, k, k)
    ensures Placed(s, k)
  {
  }

  // ---------------------------------------------------------------- against a sort

  /** Under v, or up to it. */
  predicate Below(x: real, v: real, upTo: bool) {
    x < v || (upTo && x == v)
  }

  function Under(s: seq<real>, v: real, upTo: bool): nat {
    if s == [] then 0 else Under(s[..|s| - 1], v, upTo) + if Below(s[|s| - 1], v, upTo) then 1 else 0
  }

  lemma {:induction false} UnderAppends(s: seq<real>, t: seq<real>, v: real, upTo: bool)
    ensures Under(s + t, v, upTo) == Under(s, v, upTo) + Under(t, v, upTo)
  {
    if t == [] {
      assert s + t == s;
    } else {
      assert (s + t)[..|s + t| - 1] == s + t[..|t| - 1];
      UnderAppends(s, t[..|t| - 1], v, upTo);
    }
  }

  lemma {:induction false} UnderIsAMatterOfElements(s: seq<real>, t: seq<real>, v: real, upTo: bool)
    requires multiset(s) == multiset(t)
    ensures Under(s, v, upTo) == Under(t, v, upTo)
  {
    if s == [] {
      assert |multiset(t)| == 0;
    } else {
      var n, x := |s| - 1, s[|s| - 1];
      assert s == s[..n] + [x];
      assert x in multiset(t);
      var j :| 0 <= j < |t| && t[j] == x;
      Without(t, j, v, upTo);
      UnderIsAMatterOfElements(s[..n], t[..j] + t[j + 1..], v, upTo);
    }
  }

  lemma Without(t: seq<real>, j: nat, v: real, upTo: bool)
    requires j < |t|
    ensures multiset(t[..j] + t[j + 1..]) == multiset(t) - multiset{t[j]}
    ensures Under(t, v, upTo) == Under(t[..j] + t[j + 1..], v, upTo) + if Below(t[j], v, upTo) then 1 else 0
  {
    var x := t[j];
    assert t == t[..j] + [x] + t[j + 1..];
    UnderAppends(t[..j], t[j + 1..], v, upTo);
    UnderAppends(t[..j], [x], v, upTo);
    UnderAppends(t[..j] + [x], t[j + 1..], v, upTo);
    assert [x][..0] == [];
  }

  /** At most k elements are under v, or up to it, exactly when a sort's element k is not. */
  lemma PlacedCounts(s: seq<real>, k: nat, v: real, upTo: bool)
    requires k < |s| && Placed(s, k)
    ensures Below(s[k], v, upTo) <==> k < Under(s, v, upTo)
  {
    assert s == s[..k] + s[k..];
    UnderAppends(s[..k], s[k..], v, upTo);
    UnderBounds(s[..k], v, upTo);
    if Below(s[k], v, upTo) {
      AllUnder(s[..k + 1], v, upTo);
      assert s == s[..k + 1] + s[k + 1..];
      UnderAppends(s[..k + 1], s[k + 1..], v, upTo);
    } else {
      NoneUnder(s[k..], v, upTo);
    }
  }

  lemma {:induction false} UnderBounds(s: seq<real>, v: real, upTo: bool)
    ensures Under(s, v, upTo) <= |s|
  {
    if s != [] {
      UnderBounds(s[..|s| - 1], v, upTo);
    }
  }

  lemma {:induction false} AllUnder(s: seq<real>, v: real, upTo: bool)
    requires forall i :: 0 <= i < |s| ==> Below(s[i], v, upTo)
    ensures Under(s, v, upTo) == |s|
  {
    if s != [] {
      AllUnder(s[..|s| - 1], v, upTo);
    }
  }

  lemma {:induction false} NoneUnder(s: seq<real>, v: real, upTo: bool)
    requires forall i :: 0 <= i < |s| ==> !Below(s[i], v, upTo)
    ensures Under(s, v, upTo) == 0
  {
    if s != [] {
      NoneUnder(s[..|s| - 1], v, upTo);
    }
  }

  /** v is the element a sort of s puts at k: at most k elements are under it, and more than k are up to it. */
  predicate Ranks(s: seq<real>, k: nat, v: real) {
    Under(s, v, false) <= k < Under(s, v, true)
  }

  lemma PlacedRanks(s: seq<real>, t: seq<real>, k: nat)
    requires multiset(s) == multiset(t) && k < |t| && Placed(t, k)
    ensures Ranks(s, k, t[k])
  {
    hide Under;
    UnderIsAMatterOfElements(s, t, t[k], false);
    UnderIsAMatterOfElements(s, t, t[k], true);
    PlacedCounts(t, k, t[k], false);
    PlacedCounts(t, k, t[k], true);
  }

  lemma {:induction false} UnderGrows(s: seq<real>, v: real, w: real)
    requires v < w
    ensures Under(s, v, true) <= Under(s, w, false)
  {
    if s != [] {
      UnderGrows(s[..|s| - 1], v, w);
    }
  }

  /** One value has a rank, and it is a sort's. */
  lemma RankIsSorted(s: seq<real>, t: seq<real>, k: nat, v: real)
    requires multiset(s) == multiset(t) && k < |t| && Ranks(s, k, v)
    requires forall x, y :: 0 <= x <= y < |t| ==> t[x] <= t[y]
    ensures v == t[k]
  {
    assert Placed(t, k);
    PlacedRanks(s, t, k);
    if v < t[k] {
      UnderGrows(s, v, t[k]);
    } else if v > t[k] {
      UnderGrows(s, t[k], v);
    }
  }

  /** The element a sort would put at k, in place k of a reordered array. */
  method Select(a: array<real>, k: nat) returns (v: real)
    requires k < a.Length
    modifies a
    ensures multiset(a[..]) == multiset(old(a[..]))
    ensures v == a[k] && Placed(a[..], k) && Ranks(old(a[..]), k, v)
  {
    hide Fenced, Placed, Ranks;
    ghost var was := a[..];
    var lo, hi := 0, a.Length - 1;
    Unfenced(a[..]);
    while lo < hi
      invariant 0 <= lo <= k <= hi < a.Length
      invariant Fenced(a[..], lo, hi) && multiset(a[..]) == multiset(was)
      decreases hi - lo
    {
      var mid := lo + (hi - lo) / 2;
      MedianOfThree(a, lo, hi, mid);
      ghost var p := a[mid];
      var i, j := Partition(a, lo, hi, mid);
      Narrow(a[..], lo, hi, i, j, p);
      if k <= j {
        hi := j;
      } else if k >= i {
        lo := i;
      } else {
        PlacedRanks(was, a[..], k);
        return a[k];
      }
    }
    FencedIn(a[..], k);
    PlacedRanks(was, a[..], k);
    return a[k];
  }
}
