/**
 The CAN frame's check sequence: CRC-15 with the generator 0x4599, a register of
 15 bits started at zero, one step a bit.
 */
module CanCrc {
  import opened Basics

  const POLY: bv15 := 0x4599

  function BitOf(b: bit): bv15 {
    if b == 1 then 1 else 0
  }

  predicate Top(c: bv15) {
    (c >> 14) & 1 != 0
  }

  function Plus(c: bv15, d: bv15): bv15 {
    c ^ d
  }

  function Doubled(c: bv15): bv15 {
    c << 1
  }

  /** The register moved up a bit, the generator taken off if a one is fed back. */
  function Shifted(crc: bv15, next: bool): bv15 {
    if next then Plus(Doubled(crc), POLY) else Doubled(crc)
  }

  function Step(crc: bv15, b: bit): bv15 {
    Shifted(crc, Top(crc) != (b == 1))
  }

  function Crc(bits: seq<bit>): bv15 {
    if bits == [] then 0 else Step(Crc(bits[..|bits| - 1]), bits[|bits| - 1])
  }

  method CanCrc15(bits: seq<bit>) returns (crc: bv15)
    ensures crc == Crc(bits)
  {
    hide Step;
    crc := 0;
    for i := 0 to |bits|
      invariant crc == Crc(bits[..i])
    {
      assert bits[..i + 1][..i] == bits[..i];
      crc := Shift(crc, bits[i]);
    }
    assert bits[..|bits|] == bits;
  }

  method Shift(crc: bv15, b: bit) returns (r: bv15)
    ensures r == Step(crc, b)
  {
    var next := ((crc >> 14) & 1) ^ BitOf(b);
    r := crc << 1;
    if next != 0 {
      r := r ^ POLY;
    }
  }

  // ---------------------------------------------------------------- differences

  function Xor(x: seq<bit>, y: seq<bit>): (d: seq<bit>)
    requires |x| == |y|
    ensures |d| == |x|
  {
    seq(|x|, i requires 0 <= i < |x| => if x[i] == y[i] then 0 else 1)
  }

  lemma TopIsLinear(c: bv15, d: bv15)
    ensures Top(Plus(c, d)) == (Top(c) != Top(d))
  {
  }

  lemma DoubledIsLinear(c: bv15, d: bv15)
    ensures Plus(Doubled(c), Doubled(d)) == Doubled(Plus(c, d))
  {
  }

  lemma PlusTwice(x: bv15, p: bv15)
    ensures Plus(Plus(x, p), p) == x
  {
  }

  lemma PlusLeft(x: bv15, y: bv15, p: bv15)
    ensures Plus(Plus(x, p), y) == Plus(Plus(x, y), p)
  {
  }

  lemma PlusRight(x: bv15, y: bv15, p: bv15)
    ensures Plus(x, Plus(y, p)) == Plus(Plus(x, y), p)
  {
  }

  lemma ShiftedIsLinear(c: bv15, d: bv15, m: bool, n: bool)
    ensures Plus(Shifted(c, m), Shifted(d, n)) == Shifted(Plus(c, d), m != n)
  {
    hide Plus, Doubled;
    DoubledIsLinear(c, d);
    var x, y := Doubled(c), Doubled(d);
    PlusLeft(x, y, POLY);
    PlusRight(x, y, POLY);
    PlusRight(Plus(x, POLY), y, POLY);
    PlusTwice(Plus(x, y), POLY);
  }

  lemma StepIsLinear(c: bv15, d: bv15, a: bit, b: bit)
    ensures Plus(Step(c, a), Step(d, b)) == Step(Plus(c, d), if a == b then 0 else 1)
  {
    hide Plus, Top, Shifted;
    TopIsLinear(c, d);
    ShiftedIsLinear(c, d, Top(c) != (a == 1), Top(d) != (b == 1));
  }

  /** One bit never makes two registers one. */
  lemma StepIsInjective(c: bv15, d: bv15, b: bit)
    requires Step(c, b) == Step(d, b)
    ensures c == d
  {
    hide Plus, Step;
    StepIsLinear(c, d, b, b);
    PlusIsZero(Step(c, b), Step(d, b));
    StepOfZero(Plus(c, d));
    PlusIsZero(c, d);
  }

  lemma StepOfZero(c: bv15)
    ensures Step(c, 0) == 0 <==> c == 0
  {
  }

  lemma PlusIsZero(c: bv15, d: bv15)
    ensures Plus(c, d) == 0 <==> c == d
  {
  }

  /** The difference of two checks is the check of the difference. */
  lemma {:induction false} CrcIsLinear(x: seq<bit>, y: seq<bit>)
    requires |x| == |y|
    ensures Plus(Crc(x), Crc(y)) == Crc(Xor(x, y))
  {
    hide Step, Plus;
    PlusIsZero(0, 0);
    if |x| > 0 {
      var n := |x| - 1;
      CrcIsLinear(x[..n], y[..n]);
      assert Xor(x, y)[..n] == Xor(x[..n], y[..n]);
      StepIsLinear(Crc(x[..n]), Crc(y[..n]), x[n], y[n]);
    }
  }

  /** The k + 1 low bits. */
  function Mask(k: nat): bv15
    requires k < 15
  {
    if k == 0 then 1 else (Mask(k - 1) << 1) | 1
  }

  predicate Grown(m: bv15, m': bv15) {
    m' == (m << 1) | 1 && m & 0x4000 == 0
  }

  lemma MaskGrows(k: nat)
    requires k < 14
    ensures Grown(Mask(k), Mask(k + 1))
  {
    assert Mask(3) == 0xf && Mask(6) == 0x7f && Mask(9) == 0x3ff && Mask(12) == 0x1fff;
  }

  predicate Meets(c: bv15, m: bv15) {
    c & m != 0
  }

  lemma ShiftKeepsLow(c: bv15, b: bit, m: bv15, m': bv15)
    requires Meets(c, m) && Grown(m, m')
    ensures Meets(Step(c, b), m')
  {
  }

  /** One of the k + 1 low bits is set: the register ends in k zeros at most. */
  predicate Low(c: bv15, k: nat)
    requires k < 15
  {
    Meets(c, Mask(k))
  }

  /** A register's trailing zeros grow by at most one a bit. */
  lemma StepKeepsLow(c: bv15, b: bit, k: nat)
    requires k < 14 && Low(c, k)
    ensures Low(Step(c, b), k + 1)
  {
    hide Step, Mask, Meets, Grown;
    MaskGrows(k);
    ShiftKeepsLow(c, b, Mask(k), Mask(k + 1));
  }

  lemma LowIsNonzero(c: bv15, k: nat)
    requires k < 15 && Low(c, k)
    ensures c != 0
  {
    hide Mask;
  }

  lemma {:induction false} CrcOfZeros(d: seq<bit>)
    requires forall i :: 0 <= i < |d| ==> d[i] == 0
    ensures Crc(d) == 0
  {
    hide Step;
    if d != [] {
      CrcOfZeros(d[..|d| - 1]);
      StepOfZero(0);
    }
  }

  /** Inside the burst: k bits after its first, one of the k + 1 low bits is set. */
  lemma {:induction false} BurstShows(d: seq<bit>, p: nat, k: nat)
    requires p + k < |d| && k < 15 && d[p] == 1
    requires forall i :: 0 <= i < p ==> d[i] == 0
    ensures Low(Crc(d[..p + k + 1]), k)
  {
    hide Step, Low;
    assert d[..p + k + 1][..p + k] == d[..p + k];
    if k == 0 {
      CrcOfZeros(d[..p]);
      FirstBitShows();
    } else {
      BurstShows(d, p, k - 1);
      StepKeepsLow(Crc(d[..p + k]), d[p + k], k - 1);
    }
  }

  lemma FirstBitShows()
    ensures Low(Step(0, 1), 0)
  {
  }

  /** After the burst: with equal bits a difference stays. */
  lemma {:induction false} DifferenceStays(d: seq<bit>, q: nat)
    requires q <= |d| && Crc(d[..q]) != 0
    requires forall i :: q <= i < |d| ==> d[i] == 0
    ensures Crc(d) != 0
    decreases |d|
  {
    hide Step;
    if q == |d| {
      assert d[..q] == d;
    } else {
      var e := d[..|d| - 1];
      assert e[..q] == d[..q];
      DifferenceStays(e, q);
      StepOfZero(Crc(e));
    }
  }

  lemma {:induction false} FirstDifference(d: seq<bit>) returns (p: nat)
    requires exists i :: 0 <= i < |d| && d[i] == 1
    ensures p < |d| && d[p] == 1 && forall i :: 0 <= i < p ==> d[i] == 0
  {
    p := 0;
    while d[p] == 0
      invariant p < |d| && forall i :: 0 <= i < p ==> d[i] == 0
      decreases |d| - p
    {
      p := p + 1;
    }
  }

  /** Two streams of one length that differ, all within 15 consecutive bits, have different checks: every burst
      error of up to 15 bits is seen. */
  lemma BurstsAreDetected(x: seq<bit>, y: seq<bit>, at: nat)
    requires |x| == |y| && x != y
    requires forall i :: 0 <= i < |x| && !(at <= i < at + 15) ==> x[i] == y[i]
    ensures Crc(x) != Crc(y)
  {
    hide Step, Low, Crc, Plus;
    var d := Xor(x, y);
    var i :| 0 <= i < |x| && x[i] != y[i];
    assert d[i] == 1;
    var p := FirstDifference(d);
    assert at <= p < at + 15;
    var last := Min(at + 14, |d| - 1);
    var k := last - p;
    BurstShows(d, p, k);
    LowIsNonzero(Crc(d[..p + k + 1]), k);
    DifferenceStays(d, p + k + 1);
    CrcIsLinear(x, y);
    PlusIsZero(Crc(x), Crc(y));
  }

  // ---------------------------------------------------------------- bursts into the check itself

  /** A stream and its check behind it, most significant bit first. */
  function WithCheck(x: seq<bit>): (a: seq<bit>)
    ensures |a| == |x| + 15
  {
    x + ToBits(Num(Crc(x)), 15)
  }

  function Num(c: bv15): nat {
    c as nat
  }

  predicate Odd(c: bv15) {
    c & 1 == 1
  }

  function Down(c: bv15): bv15 {
    c >> 1
  }

  /** h moved up a bit, with another below it. */
  function Up(h: bv15, odd: bool): bv15 {
    if odd then (h << 1) | 1 else h << 1
  }

  predicate Fits(h: bv15) {
    h & 0x4000 == 0
  }

  lemma ShiftIsDouble(h: bv15)
    requires h & 0x4000 == 0
    ensures (h << 1) as nat == 2 * (h as nat)
  {
  }

  lemma ShiftIsDoubleAndOne(h: bv15)
    requires h & 0x4000 == 0
    ensures ((h << 1) | 1) as nat == 2 * (h as nat) + 1
  {
  }

  lemma UpIsDouble(h: bv15, odd: bool)
    requires Fits(h)
    ensures Num(Up(h, odd)) == 2 * Num(h) + if odd then 1 else 0
  {
    if odd {
      ShiftIsDoubleAndOne(h);
    } else {
      ShiftIsDouble(h);
    }
  }

  lemma DownIsUp(c: bv15)
    ensures Fits(Down(c)) && Up(Down(c), Odd(c)) == c
  {
  }

  /** A register's number halved is that of the register moved down a bit. */
  lemma Halved(c: bv15)
    ensures Num(Down(c)) == Num(c) / 2 && (Odd(c) <==> Num(c) % 2 == 1)
  {
    hide Num, Down, Odd, Up, Fits;
    DownIsUp(c);
    UpIsDouble(Down(c), Odd(c));
  }

  /** Two registers alike under a mask. */
  predicate Agree(c: bv15, d: bv15, m: bv15) {
    c & m == d & m
  }

  lemma LowAgain(c: bv15, d: bv15, m: bv15, m': bv15)
    requires Grown(m, m') && (Odd(c) <==> Odd(d)) && Agree(Down(c), Down(d), m)
    ensures Agree(c, d, m')
  {
  }

  lemma LastAgrees(c: bv15, d: bv15)
    requires Odd(c) <==> Odd(d)
    ensures Agree(c, d, Mask(0))
  {
  }

  /** Registers whose last k + 1 bits are sent alike have the same k + 1 low bits. */
  lemma {:induction false} LowBitsAgree(c: bv15, d: bv15, n: nat, k: nat)
    requires k < 15 && k < n && ToBits(Num(c), n)[n - k - 1..] == ToBits(Num(d), n)[n - k - 1..]
    ensures Agree(c, d, Mask(k))
    decreases k
  {
    hide Num, Odd, Down, Agree, Mask, Grown;
    var a, b := ToBits(Num(c), n), ToBits(Num(d), n);
    assert a[n - k - 1..][k] == a[n - 1] == Num(c) % 2 && b[n - k - 1..][k] == b[n - 1] == Num(d) % 2;
    Halved(c);
    Halved(d);
    if k > 0 {
      assert a[..n - 1] == ToBits(Num(Down(c)), n - 1) && b[..n - 1] == ToBits(Num(Down(d)), n - 1);
      assert a[n - k - 1..][..k] == a[..n - 1][n - k - 1..] && b[n - k - 1..][..k] == b[..n - 1][n - k - 1..];
      LowBitsAgree(Down(c), Down(d), n - 1, k - 1);
      MaskGrows(k - 1);
      LowAgain(c, d, Mask(k - 1), Mask(k));
    } else {
      LastAgrees(c, d);
    }
  }

  lemma AgreedIsNotLow(c: bv15, d: bv15, k: nat)
    requires k < 15 && Agree(c, d, Mask(k))
    ensures !Low(Plus(c, d), k)
  {
    hide Mask;
  }

  /** The last k + 1 bits sent are the checks'. */
  lemma LastBitsAgree(x: seq<bit>, y: seq<bit>, k: nat)
    requires |x| == |y| && k < 15
    requires forall i :: |x| + 14 - k <= i < |x| + 15 ==> WithCheck(x)[i] == WithCheck(y)[i]
    ensures Agree(Crc(x), Crc(y), Mask(k))
  {
    hide Crc, Mask, ToBits, Num, Agree;
    var u, v := ToBits(Num(Crc(x)), 15), ToBits(Num(Crc(y)), 15);
    forall j | 14 - k <= j < 15 ensures u[j] == v[j] {
      assert WithCheck(x)[|x| + j] == u[j] && WithCheck(y)[|x| + j] == v[j];
    }
    assert u[14 - k..] == v[14 - k..];
    LowBitsAgree(Crc(x), Crc(y), 15, k);
  }

  /** A burst that reaches the stream's end shows in as many bits of the check as it has had bits. */
  lemma BurstAtTheEnd(x: seq<bit>, y: seq<bit>, p: nat)
    requires |x| == |y| && p < |x| < p + 16 && x[p] != y[p] && x[..p] == y[..p]
    ensures !Agree(Crc(x), Crc(y), Mask(|x| - 1 - p))
  {
    hide Low, Crc, Plus, Mask, Agree;
    var d := Xor(x, y);
    forall i | 0 <= i < p ensures d[i] == 0 {
      assert x[..p][i] == y[..p][i];
    }
    assert d[..|d|] == d;
    BurstShows(d, p, |d| - 1 - p);
    CrcIsLinear(x, y);
    if Agree(Crc(x), Crc(y), Mask(|x| - 1 - p)) {
      AgreedIsNotLow(Crc(x), Crc(y), |x| - 1 - p);
    }
  }

  /** Two different streams of one length with their checks, as a frame sends them, do not differ within 15 bits alone:
      a burst of up to 15 bits is seen wherever it lies, in the stream, in its check or across the two. */
  lemma CodedBurstsAreDetected(x: seq<bit>, y: seq<bit>, at: nat)
    requires |x| == |y| && x != y
    ensures exists i :: 0 <= i < |x| + 15 && !(at <= i < at + 15) && WithCheck(x)[i] != WithCheck(y)[i]
  {
    hide Crc, Mask, ToBits, Num, Agree;
    var n, a, b := |x|, WithCheck(x), WithCheck(y);
    if forall i :: 0 <= i < n + 15 && !(at <= i < at + 15) ==> a[i] == b[i] {
      forall i | 0 <= i < n && !(at <= i < at + 15) ensures x[i] == y[i] {
        assert a[i] == x[i] && b[i] == y[i];
      }
      var d := Xor(x, y);
      var i :| 0 <= i < n && x[i] != y[i];
      assert d[i] == 1;
      var p := FirstDifference(d);
      forall j | 0 <= j < p ensures x[j] == y[j] {
        assert d[j] == 0;
      }
      if n < p + 16 {
        LastBitsAgree(x, y, n - 1 - p);
        BurstAtTheEnd(x, y, p);
      } else {
        LastBitsAgree(x, y, 14);
        BurstsAreDetected(x, y, at);
        AllBits(Crc(x), Crc(y));
      }
    }
  }

  lemma AllBits(c: bv15, d: bv15)
    requires Agree(c, d, Mask(14))
    ensures c == d
  {
    assert Mask(3) == 0xf && Mask(6) == 0x7f && Mask(9) == 0x3ff && Mask(12) == 0x1fff;
  }
}
