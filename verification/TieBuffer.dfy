/**
 The eye's bounded sample of its timing errors: every decim-th value is kept, and
 when the buffer is full every other kept one is dropped and decim doubles, so the
 buffer stays an even sample of the whole run.
 */
module TieBuffer {
  import opened Basics

  const CAP: nat := 60000

  /** kept is every decim-th of all, from the first, and none is missing. */
  ghost predicate Decimated<T>(kept: seq<T>, all: seq<T>, decim: nat) {
    && decim >= 1
    && |kept| * decim - decim < |all| <= |kept| * decim
    && forall k :: 0 <= k < |kept| ==> k * decim < |all| && kept[k] == all[k * decim]
  }

  class Buffer<T> {
    var kept: seq<T>
    var decim: nat
    var seen: nat
    ghost var all: seq<T>  // every value offered

    ghost predicate Valid()
      reads this
    {
      seen == |all| && |kept| < CAP && Decimated(kept, all, decim)
    }

    constructor ()
      ensures Valid() && all == []
    {
      kept, decim, seen, all := [], 1, 0, [];
    }

    method Push(v: T)
      requires Valid()
      modifies this
      ensures Valid() && all == old(all) + [v]
      ensures decim == old(decim) || (decim == 2 * old(decim) && |kept| == 30000)
      ensures decim != old(decim) <==> |old(kept)| == 59999 && |old(all)| % old(decim) == 0
    {
      PushKeepsDecimated(kept, all, decim, v);
      all := all + [v];
      if seen % decim == 0 {
        kept := kept + [v];
        if |kept| >= CAP {
          Halve();
        }
      }
      seen := seen + 1;
    }

    method Halve()
      requires |kept| == CAP && Decimated(kept, all, decim)
      modifies this`kept, this`decim
      ensures decim == 2 * old(decim) && |kept| == CAP / 2 && Decimated(kept, all, decim)
    {
      var half := [];
      var j := 0;
      while j < |kept|
        invariant j % 2 == 0 && j <= |kept| && |half| == j / 2
        invariant forall k :: 0 <= k < |half| ==> half[k] == kept[2 * k]
      {
        half := half + [kept[j]];
        j := j + 2;
      }
      forall k | 0 <= k < |half| ensures k * (2 * decim) < |all| && half[k] == all[k * (2 * decim)] {
        assert k * (2 * decim) == (2 * k) * decim;
      }
      kept, decim := half, 2 * decim;
    }
  }

  lemma PushKeepsDecimated<T>(kept: seq<T>, all: seq<T>, decim: nat, v: T)
    requires Decimated(kept, all, decim)
    ensures Decimated(if |all| % decim == 0 then kept + [v] else kept, all + [v], decim)
  {
    var n := |kept|;
    if |all| % decim == 0 {
      KeptIsDue(n, decim, |all|);
      assert (n + 1) * decim == n * decim + decim;
    } else {
      NotDue(n, decim, |all|);
    }
  }

  lemma KeptIsDue(n: nat, decim: nat, seen: nat)
    requires decim >= 1 && n * decim - decim < seen <= n * decim && seen % decim == 0
    ensures seen == n * decim
  {
    var q := seen / decim;
    assert seen == q * decim;
    if q < n {
      MulNext(q, n, decim);
    } else if q > n {
      MulNext(n, q, decim);
    }
  }

  lemma NotDue(n: nat, decim: nat, seen: nat)
    requires decim >= 1 && seen <= n * decim && seen % decim != 0
    ensures seen < n * decim
  {
    if seen == n * decim {
      DivModIs(seen, decim, n, 0);
    }
  }
}
