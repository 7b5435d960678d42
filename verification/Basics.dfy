/** Small definitions the other modules share. */
module Basics {

  type byte = b: int | 0 <= b < 256

  type bit = b: int | 0 <= b < 2

  /** None stops an expression that binds it with :- */
  datatype Option<+T> = None | Some(value: T) {
    predicate IsFailure() {
      None?
    }

    function PropagateFailure<U>(): Option<U>
      requires None?
    {
      None
    }

    function Extract(): T
      requires Some?
    {
      value
    }
  }

  function Min(a: int, b: int): int {
    if a <= b then a else b
  }

  function Max(a: int, b: int): int {
    if a >= b then a else b
  }

  function Abs(a: int): int {
    if a < 0 then -a else a
  }

  function Clamp(v: int, lo: int, hi: int): int {
    if v < lo then lo else if v > hi then hi else v
  }

  const TWO31: int := 0x8000_0000
  const TWO32: nat := 0x1_0000_0000
  const TWO64: nat := 0x1_0000_0000_0000_0000

  /** A number in a signed 32-bit word, such as an int of the ARM build: it wraps around. */
  function Int32(v: int): (r: int)
    ensures -TWO31 <= r < TWO31
  {
    (v + TWO31) % TWO32 - TWO31
  }

  /** The remainder of a division toward zero: it has the dividend's sign. */
  function Rem(a: int, b: int): int
    requires b > 0
  {
    if a >= 0 then a % b else 0 - (0 - a) % b
  }

  function Pow256(n: nat): (p: nat)
    ensures p > 0
  {
    if n == 0 then 1 else 256 * Pow256(n - 1)
  }

  /** The n low bytes of v, least significant first. */
  function PutLE(v: nat, n: nat): (bs: seq<byte>)
    ensures |bs| == n
  {
    if n == 0 then [] else [v % 256] + PutLE(v / 256, n - 1)
  }

  function GetLE(bs: seq<byte>): nat {
    if bs == [] then 0 else bs[0] + 256 * GetLE(bs[1..])
  }

  lemma {:induction false} GetPutLE(v: nat, n: nat)
    requires v < Pow256(n)
    ensures GetLE(PutLE(v, n)) == v
  {
    if n > 0 {
      GetPutLE(v / 256, n - 1);
      assert PutLE(v, n)[1..] == PutLE(v / 256, n - 1);
    }
  }

  /** Two bytes and four, the low one first. */
  lemma TwoBytes(v: nat)
    requires v < 0x1_0000
    ensures var b := PutLE(v, 2); b == [b[0], b[1]] && v == b[0] as nat + 0x100 * b[1] as nat
  {
    assert PutLE(v, 2) == [v % 256] + ([v / 256 % 256] + PutLE(v / 256 / 256, 0));
  }

  lemma FourBytes(v: nat)
    requires v < TWO32
    ensures var b := PutLE(v, 4);
            && b == [b[0], b[1], b[2], b[3]]
            && v == b[0] as nat + 0x100 * b[1] as nat + 0x1_0000 * b[2] as nat + 0x100_0000 * b[3] as nat
  {
    var w := v / 256 / 256;
    assert PutLE(v, 4) == [v % 256] + ([v / 256 % 256] + PutLE(w, 2));
    TwoBytes(w);
  }

  lemma {:induction false} GetBound(b: seq<byte>)
    ensures GetLE(b) < Pow256(|b|)
  {
    if b != [] {
      GetBound(b[1..]);
    }
  }

  lemma Pow256OfTwo()
    ensures Pow256(2) == 0x1_0000
  {
  }

  lemma Pow256Values()
    ensures Pow256(4) == TWO32 && Pow256(8) == TWO64
  {
    assert Pow256(2) == 0x1_0000;
    assert Pow256(4) == 256 * (256 * Pow256(2));
    assert Pow256(6) == 256 * (256 * Pow256(4));
    assert Pow256(8) == 256 * (256 * Pow256(6));
  }

  /** A position run past the end of a ring of n comes round to its start. */
  function Wrap(p: nat, n: nat): (w: nat)
    requires p < 2 * n
    ensures w < n
  {
    if p < n then p else p - n
  }

  lemma WrapIsMod(p: nat, n: nat)
    requires p < 2 * n
    ensures p % n == Wrap(p, n)
  {
    DivModIs(p, n, if p < n then 0 else 1, Wrap(p, n));
  }

  lemma {:induction false} ProductIsNat(a: nat, b: nat)
    ensures a * b >= 0
  {
    if a > 0 {
      ProductIsNat(a - 1, b);
      assert a * b == (a - 1) * b + b;
    }
  }

  lemma MulMono(a: nat, c: nat, b: nat)
    requires a <= c
    ensures a * b <= c * b
  {
    ProductIsNat(c - a, b);
    assert c * b == (c - a) * b + a * b;
  }

  lemma MulNext(a: int, c: int, b: nat)
    requires a < c
    ensures a * b + b <= c * b
  {
    var k: nat := c - a - 1;
    ProductIsNat(k, b);
    assert c * b == k * b + a * b + b;
  }

  lemma DivIs(x: nat, b: nat, q: nat)
    requires 0 < b && q * b <= x < q * b + b
    ensures x / b == q
  {
    var p := x / b;
    assert x == p * b + x % b;
    if p > q {
      MulNext(q, p, b);
    } else if p < q {
      MulNext(p, q, b);
    }
  }

  lemma DivMono(x: nat, y: nat, b: nat)
    requires 0 < b && x <= y
    ensures x / b <= y / b
  {
    var p, q := x / b, y / b;
    assert x == p * b + x % b && y == q * b + y % b;
    if p > q {
      MulNext(q, p, b);
    }
  }

  lemma DivModIs(x: nat, b: nat, q: nat, r: nat)
    requires r < b && x == q * b + r
    ensures x / b == q && x % b == r
  {
    DivIs(x, b, q);
    assert x == x / b * b + x % b;
  }

  function Pow2(n: nat): (p: nat)
    ensures p > 0
  {
    if n == 0 then 1 else 2 * Pow2(n - 1)
  }

  /** The number whose bits these are, most significant first. */
  function Value(bits: seq<bit>): nat {
    if bits == [] then 0 else 2 * Value(bits[..|bits| - 1]) + bits[|bits| - 1]
  }

  /** The n low bits of v, most significant first. */
  function ToBits(v: nat, n: nat): (bits: seq<bit>)
    ensures |bits| == n
  {
    if n == 0 then [] else ToBits(v / 2, n - 1) + [v % 2]
  }

  lemma {:induction false} ValueOfBits(v: nat, n: nat)
    requires v < Pow2(n)
    ensures Value(ToBits(v, n)) == v
  {
    if n > 0 {
      ValueOfBits(v / 2, n - 1);
      assert ToBits(v, n)[..n - 1] == ToBits(v / 2, n - 1);
    }
  }

  /** Bit i of a number of n bits: the first is the most significant. */
  lemma {:induction false} BitAt(v: nat, n: nat, i: nat)
    requires i < n
    ensures ToBits(v, n)[i] == v / Pow2(n - 1 - i) % 2
  {
    if i < n - 1 {
      BitAt(v / 2, n - 1, i);
      DivByPow(v, n - 2 - i);
    }
  }

  lemma DivByPow(v: nat, k: nat)
    ensures v / 2 / Pow2(k) == v / Pow2(k + 1)
  {
    var p, q := Pow2(k), v / 2 / Pow2(k);
    assert v == v / 2 * 2 + v % 2 && v / 2 == q * p + v / 2 % p;
    assert q * p * 2 == q * (2 * p);
    DivIs(v, 2 * p, q);
  }

  function Triangle(n: nat): nat {
    if n == 0 then 0 else Triangle(n - 1) + n
  }

  lemma {:induction false} TriangleIs(n: nat)
    ensures 2 * Triangle(n) == n * (n + 1)
  {
    if n > 0 {
      TriangleIs(n - 1);
    }
  }

  lemma {:induction false} TriangleGrows(m: nat, n: nat)
    requires m < n
    ensures Triangle(m) + n <= Triangle(n)
  {
    if m < n - 1 {
      TriangleGrows(m, n - 1);
    }
  }

  lemma SliceOfSlice<T>(s: seq<T>, at: nat, n: nat, i: nat, j: nat)
    requires at + n <= |s| && i <= j <= n
    ensures s[at..at + n][i..j] == s[at + i..at + j]
  {
    var t := s[at..at + n];
    forall k | 0 <= k < j - i ensures t[i..j][k] == s[at + i..at + j][k] {
      assert t[i..j][k] == t[i + k];
    }
  }
}
