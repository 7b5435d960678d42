/**
 The CAN check as a code: a stream with its check behind it is a multiple of the
 generator polynomial, and no other 15 bits make it one.
 */
module CanCode {
  import opened Basics
  import opened CanCrc

  /** A stream as a polynomial over two elements: its last bit is the coefficient of x to the 0. */
  function Coef(s: seq<bit>, k: int): bit {
    if 0 <= k < |s| then s[|s| - 1 - k] else 0
  }

  /** Coefficient k of q times x^15 + x^14 + x^10 + x^8 + x^7 + x^4 + x^3 + 1, the generator of section 3.1.1 of the Bosch
      CAN Specification 2.0 Part A. */
  function Product(q: seq<bit>, k: int): bit {
    Terms(q, k) % 2
  }

  function Terms(q: seq<bit>, k: int): nat {
    Coef(q, k) + Coef(q, k - 3) + Coef(q, k - 4) + Coef(q, k - 7) + Coef(q, k - 8) + Coef(q, k - 10) + Coef(q, k - 14)
    + Coef(q, k - 15)
  }

  ghost predicate Quotient(s: seq<bit>, q: seq<bit>) {
    |s| == |q| + 15 && forall k :: 0 <= k < |s| ==> Coef(s, k) == Product(q, k)
  }

  ghost predicate Multiple(s: seq<bit>) {
    exists q :: Quotient(s, q)
  }

  // ---------------------------------------------------------------- the register's bits

  /** The k-th bit, alone. */
  function Unit(k: nat): bv15
    requires k < 15
  {
    if k == 0 then 1 else Unit(k - 1) << 1
  }

  predicate Single(u: bv15) {
    || u == 1 || u == 2 || u == 4 || u == 8 || u == 0x10 || u == 0x20 || u == 0x40 || u == 0x80
    || u == 0x100 || u == 0x200 || u == 0x400 || u == 0x800 || u == 0x1000 || u == 0x2000 || u == 0x4000
  }

  /** u, and the bit above it. */
  predicate Above(u: bv15, v: bv15) {
    v == u << 1 && u & 0x4000 == 0
  }

  predicate Has(c: bv15, u: bv15) {
    c & u != 0
  }

  predicate Tap(k: nat) {
    k == 0 || k == 3 || k == 4 || k == 7 || k == 8 || k == 10 || k == 14
  }

  lemma {:induction false} UnitIs(k: nat)
    requires k < 15
    ensures Single(Unit(k)) && (k > 0 ==> Above(Unit(k - 1), Unit(k))) && Unit(0) == 1 && Unit(14) == 0x4000
  {
    assert Unit(2) == 4 && Unit(4) == 0x10 && Unit(6) == 0x40 && Unit(8) == 0x100 && Unit(10) == 0x400 && Unit(12) == 0x1000;
    assert Unit(14) == 0x4000;
  }

  lemma PolyHas(k: nat)
    requires k < 15
    ensures Has(POLY, Unit(k)) <==> Tap(k)
  {
    assert Unit(2) == 4 && Unit(4) == 0x10 && Unit(6) == 0x40 && Unit(8) == 0x100 && Unit(10) == 0x400 && Unit(12) == 0x1000;
    assert Unit(14) == 0x4000;
  }

  lemma PlusHas(c: bv15, d: bv15, u: bv15)
    requires Single(u)
    ensures Has(Plus(c, d), u) <==> Has(c, u) != Has(d, u)
  {
    hide Single, Plus;
    OneBit(c, u);
    OneBit(d, u);
    PlusUnder(c, d, u);
    PlusEnds(u);
  }

  lemma PlusEnds(u: bv15)
    ensures Plus(0, 0) == 0 && Plus(u, 0) == u && Plus(0, u) == u && Plus(u, u) == 0
  {
  }

  lemma OneBit(c: bv15, u: bv15)
    requires Single(u)
    ensures u != 0 && (c & u == 0 || c & u == u)
  {
  }

  lemma PlusUnder(c: bv15, d: bv15, u: bv15)
    ensures Plus(c, d) & u == Plus(c & u, d & u)
  {
  }

  lemma DoubledHas(c: bv15, u: bv15, v: bv15)
    requires Above(u, v)
    ensures Has(Doubled(c), v) <==> Has(c, u)
    ensures Has(c, v) <==> Has(Down(c), u)
  {
  }

  lemma LowEnd(c: bv15)
    ensures !Has(Doubled(c), 1) && (Has(c, 1) <==> Odd(c))
  {
  }

  lemma HighEnd(c: bv15)
    ensures Top(c) <==> Has(c, 0x4000)
  {
  }

  /** Bit k of the register. */
  function RegBit(c: bv15, k: int): bit
    requires k < 15
  {
    if k >= 0 && Has(c, Unit(k)) then 1 else 0
  }

  /** A step moves the bits up, and adds the generator's when the bit fed back is one. */
  lemma StepMoves(c: bv15, b: bit, k: nat)
    requires k < 15
    ensures var next := if Top(c) != (b == 1) then 1 else 0;
            RegBit(Step(c, b), k) == (RegBit(c, k - 1) + (if Tap(k) then next else 0)) % 2
    ensures RegBit(c, 14) == 1 <==> Top(c)
  {
    hide Unit, Single, Above, Has, Plus, Doubled, Top;
    UnitIs(k);
    UnitIs(14);
    PolyHas(k);
    HighEnd(c);
    PlusHas(Doubled(c), POLY, Unit(k));
    if k == 0 {
      LowEnd(c);
    } else {
      DoubledHas(c, Unit(k - 1), Unit(k));
    }
  }

  /** The bits sent are the register's. */
  lemma {:induction false} SentBit(c: bv15, n: nat, k: nat)
    requires k < n && k < 15
    ensures Coef(ToBits(Num(c), n), k) == RegBit(c, k)
    decreases k
  {
    hide Unit, Single, Above, Has, Num, Odd, Down;
    Halved(c);
    UnitIs(k);
    if k == 0 {
      LowEnd(c);
    } else {
      DoubledHas(c, Unit(k - 1), Unit(k));
      SentBit(Down(c), n - 1, k - 1);
    }
  }

  // ---------------------------------------------------------------- the stream and its check

  /** The bits fed back while the stream is taken. */
  function Fed(x: seq<bit>): (q: seq<bit>)
    ensures |q| == |x|
  {
    if x == [] then []
    else
      var p := x[..|x| - 1];
      Fed(p) + [if Top(Crc(p)) != (x[|x| - 1] == 1) then 1 else 0]
  }

  /** Coefficient k of a stream with a register behind it. */
  function WithReg(x: seq<bit>, c: bv15, k: int): bit {
    if k < 15 then RegBit(c, k) else Coef(x, k - 15)
  }

  lemma CoefNext(s: seq<bit>, b: bit, k: int)
    ensures Coef(s + [b], k) == if k == 0 then b else Coef(s, k - 1)
  {
  }

  lemma CoefBelow(s: seq<bit>)
    ensures Coef(s, -1) == 0
  {
  }

  /** A product with one more bit behind q: moved up, and the generator added for a one. */
  lemma ProductNext(q: seq<bit>, b: bit, k: int)
    ensures Product(q + [b], k) == (Product(q, k - 1) + (if (0 <= k < 15 && Tap(k)) || k == 15 then b else 0)) % 2
  {
    hide Terms;
    TermsNext(q, b, k);
  }

  lemma TermsNext(q: seq<bit>, b: bit, k: int)
    ensures Terms(q + [b], k) == Terms(q, k - 1) + if (0 <= k < 15 && Tap(k)) || k == 15 then b else 0
  {
    hide Coef;
    CoefBelow(q);
    CoefNext(q, b, k);
    CoefNext(q, b, k - 3);
    CoefNext(q, b, k - 4);
    CoefNext(q, b, k - 7);
    CoefNext(q, b, k - 8);
    CoefNext(q, b, k - 10);
    CoefNext(q, b, k - 14);
    CoefNext(q, b, k - 15);
  }

  lemma ProductBelow(q: seq<bit>, k: int)
    requires k < 0
    ensures Product(q, k) == 0
  {
  }

  /** The stream moved up by 15, and its check, are the bits fed back times the generator. */
  lemma {:induction false} FedIsQuotient(x: seq<bit>, k: int)
    requires k >= 0
    ensures WithReg(x, Crc(x), k) == Product(Fed(x), k)
  {
    hide Unit, Has, Coef, Product, RegBit, Step, Top;
    if x == [] {
      EmptyProduct(k);
    } else {
      var p, b := x[..|x| - 1], x[|x| - 1];
      var next := if Top(Crc(p)) != (b == 1) then 1 else 0;
      assert x == p + [b];
      ProductNext(Fed(p), next, k);
      CoefNext(p, b, k - 15);
      if k > 0 {
        FedIsQuotient(p, k - 1);
      } else {
        ProductBelow(Fed(p), k - 1);
        BelowReg(Crc(p));
      }
      StepMoves(Crc(p), b, if k < 15 then k else 14);
    }
  }

  lemma BelowReg(c: bv15)
    ensures RegBit(c, -1) == 0
  {
  }

  lemma EmptyProduct(k: int)
    ensures Product([], k) == 0 && WithReg([], 0, k) == 0
  {
    if 0 <= k < 15 {
      NothingIn(Unit(k));
    }
  }

  lemma NothingIn(u: bv15)
    ensures !Has(0, u)
  {
  }

  lemma WithCheckAt(x: seq<bit>, k: nat)
    requires k < |x| + 15
    ensures Coef(WithCheck(x), k) == WithReg(x, Crc(x), k)
  {
    hide ToBits, Num, RegBit, Crc, Coef;
    CoefBehind(x, ToBits(Num(Crc(x)), 15), k);
    if k < 15 {
      SentBit(Crc(x), 15, k);
    }
  }

  lemma CoefBehind(x: seq<bit>, b: seq<bit>, k: nat)
    requires |b| == 15
    ensures Coef(x + b, k) == if k < 15 then Coef(b, k) else Coef(x, k - 15)
  {
  }

  /** A stream with its check behind it is a multiple of the generator. */
  lemma CodedIsMultiple(x: seq<bit>)
    ensures Multiple(WithCheck(x))
  {
    hide Product, Coef, WithReg, Crc;
    forall k | 0 <= k < |x| + 15 ensures Coef(WithCheck(x), k) == Product(Fed(x), k) {
      WithCheckAt(x, k);
      FedIsQuotient(x, k);
    }
    assert Quotient(WithCheck(x), Fed(x));
  }

  /** Quotients of streams that differ in their last 15 bits at most are one: each coefficient settles the next lower. */
  lemma {:induction false} QuotientsAgree(s: seq<bit>, t: seq<bit>, q: seq<bit>, r: seq<bit>, k: int)
    requires Quotient(s, q) && Quotient(t, r) && |s| == |t| && s[..|q|] == t[..|q|]
    ensures k >= 0 ==> Coef(q, k) == Coef(r, k)
    decreases |q| - k
  {
    if 0 <= k < |q| {
      QuotientsAgree(s, t, q, r, k + 1);
      QuotientsAgree(s, t, q, r, k + 5);
      QuotientsAgree(s, t, q, r, k + 7);
      QuotientsAgree(s, t, q, r, k + 8);
      QuotientsAgree(s, t, q, r, k + 11);
      QuotientsAgree(s, t, q, r, k + 12);
      QuotientsAgree(s, t, q, r, k + 15);
      var at := |q| - 1 - k;
      assert s[at] == s[..|q|][at] == t[..|q|][at] == t[at];
      assert Coef(s, k + 15) == Coef(t, k + 15);
      OneUnknown(q, r, k);
    }
  }

  lemma OneUnknown(q: seq<bit>, r: seq<bit>, k: int)
    requires Product(q, k + 15) == Product(r, k + 15)
    requires Coef(q, k + 15) == Coef(r, k + 15) && Coef(q, k + 12) == Coef(r, k + 12) && Coef(q, k + 11) == Coef(r, k + 11)
    requires Coef(q, k + 8) == Coef(r, k + 8) && Coef(q, k + 7) == Coef(r, k + 7) && Coef(q, k + 5) == Coef(r, k + 5)
    requires Coef(q, k + 1) == Coef(r, k + 1)
    ensures Coef(q, k) == Coef(r, k)
  {
    hide Coef;
  }

  /** The check is the only 15 bits that make it one. */
  lemma CheckIsTheOnlyOne(x: seq<bit>, check: seq<bit>)
    requires |check| == 15 && Multiple(x + check)
    ensures x + check == WithCheck(x)
  {
    hide Product, Coef, Crc, WithCheck;
    CodedIsMultiple(x);
    var s, t := x + check, WithCheck(x);
    var q :| Quotient(s, q);
    var r :| Quotient(t, r);
    WithCheckBegins(x);
    forall k: int | k >= 0 ensures Coef(q, k) == Coef(r, k) {
      QuotientsAgree(s, t, q, r, k);
    }
    SameStreams(s, t, q, r);
  }

  lemma WithCheckBegins(x: seq<bit>)
    ensures |WithCheck(x)| == |x| + 15 && WithCheck(x)[..|x|] == x
  {
  }

  lemma SameStreams(s: seq<bit>, t: seq<bit>, q: seq<bit>, r: seq<bit>)
    requires Quotient(s, q) && Quotient(t, r) && |s| == |t|
    requires forall k :: k >= 0 ==> Coef(q, k) == Coef(r, k)
    ensures s == t
  {
    forall i | 0 <= i < |s| ensures s[i] == t[i] {
      var k := |s| - 1 - i;
      SameProduct(q, r, k);
      assert s[i] == Coef(s, k) && t[i] == Coef(t, k);
    }
  }

  lemma SameProduct(q: seq<bit>, r: seq<bit>, k: int)
    requires forall j :: j >= 0 ==> Coef(q, j) == Coef(r, j)
    ensures Product(q, k) == Product(r, k)
  {
    forall j ensures Coef(q, j) == Coef(r, j) {
      if j < 0 {
        assert Coef(q, j) == 0 == Coef(r, j);
      }
    }
    hide Coef;
  }
}
