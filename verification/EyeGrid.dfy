/**
 The eye diagram's density grid: lines between successive samples, counted into
 single cells (tile) and runs along a row (diff, a difference array a row), summed
 into dense when it is stale, and halved before a count can overflow.

 Marks say what a line counts; Canvas is the density they should add up to. Eye is
 the object updated in place, its fast drawing loop among its methods.
 */
module EyeGrid {
  import opened Basics

  const ONE: int := 0x1_0000             // fixed point: 16 fraction bits
  const MAX_COUNT: nat := 0x4000_0000    // the count the grid is halved past
  const CHECK_EVERY: nat := 1024         // samples between looks at the bound

  type uint32 = x: int | 0 <= x < TWO32
  type int32 = x: int | -TWO31 <= x < TWO31

  // ---------------------------------------------------------------- what is drawn

  /** One count in a cell, or in each cell a..b of a row. Columns run on past the tile by up to one UI. */
  datatype Mark = Cell(row: int, col: int) | Run(row: int, a: int, b: int) {

    /** The mark lies in the grid and holds a cell. */
    predicate Counts(rows: nat) {
      && 0 <= row < rows
      && match this
         case Cell(_, col) => col >= 0
         case Run(_, a, b) => 0 <= a <= b
    }

    /** It reaches at most one UI past the tile, and no column twice. */
    predicate Fits(tw: nat) {
      match this
      case Cell(_, col) => col < 2 * tw
      case Run(_, a, b) => b < 2 * tw && b - a < tw
    }

    predicate HoldsColumn(c: int) {
      match this
      case Cell(_, col) => col == c
      case Run(_, a, b) => a <= c <= b
    }

    /** It counts in row r, tile column c: column c, or the one a UI on. */
    predicate Covers(r: nat, c: nat, tw: nat) {
      row == r && (HoldsColumn(c) || HoldsColumn(c + tw)) && (Run? ==> a >= 0)
    }
  }

  type Grid = seq<seq<nat>>

  predicate Shaped(g: Grid, rows: nat, tw: nat) {
    |g| == rows && forall r :: 0 <= r < rows ==> |g[r]| == tw
  }

  function MaxOf(s: seq<nat>): (m: nat)
    ensures forall i :: 0 <= i < |s| ==> s[i] <= m
    ensures m == 0 || m in s
  {
    if s == [] then 0
    else
      var t := MaxOf(s[..|s| - 1]);
      assert s == s[..|s| - 1] + [s[|s| - 1]];
      if s[|s| - 1] > t then s[|s| - 1] else t
  }

  function GridMax(g: Grid): (m: nat)
    ensures forall r :: 0 <= r < |g| ==> forall c :: 0 <= c < |g[r]| ==> g[r][c] <= m
    ensures m == 0 || exists r :: 0 <= r < |g| && m in g[r]
  {
    if g == [] then 0
    else
      var t := GridMax(g[..|g| - 1]);
      var u := MaxOf(g[|g| - 1]);
      if u > t then u else t
  }

  /** The density, and a number no cell exceeds. */
  datatype Canvas = Canvas(g: Grid, bound: nat, tw: nat) {

    predicate Valid(rows: nat) {
      Shaped(g, rows, tw) && forall r :: 0 <= r < rows ==> forall c :: 0 <= c < tw ==> g[r][c] <= bound
    }

    function Put(m: Mark): Canvas {
      if !m.Counts(|g|) then this
      else
        Canvas(seq(|g|, r requires 0 <= r < |g| =>
                     seq(|g[r]|, c requires 0 <= c < |g[r]| => g[r][c] + (if m.Covers(r, c, tw) then 1 else 0))),
               bound + 1, tw)
    }

    function PutAll(ms: seq<Mark>): Canvas {
      if ms == [] then this else PutAll(ms[..|ms| - 1]).Put(ms[|ms| - 1])
    }

    function Halved(): Canvas {
      if bound <= MAX_COUNT then this
      else
        var h := Halves(g);
        Canvas(h, GridMax(h), tw)
    }
  }

  function Halves(g: Grid): Grid {
    seq(|g|, r requires 0 <= r < |g| => seq(|g[r]|, c requires 0 <= c < |g[r]| => g[r][c] / 2))
  }

  /** How many of the marks count in a cell. */
  function Count(ms: seq<Mark>, rows: nat, r: nat, c: nat, tw: nat): nat {
    if ms == [] then 0
    else
      var m := ms[|ms| - 1];
      Count(ms[..|ms| - 1], rows, r, c, tw) + if m.Counts(rows) && m.Covers(r, c, tw) then 1 else 0
  }

  lemma PutKeepsValid(v: Canvas, m: Mark, rows: nat)
    requires v.Valid(rows)
    ensures v.Put(m).Valid(rows) && v.Put(m).tw == v.tw
    ensures v.Put(m).bound <= v.bound + 1
  {
  }

  /** A column and the one a UI on are the same cell. */
  lemma PutWraps(v: Canvas, row: int, c: nat, rows: nat)
    requires v.Valid(rows) && c < v.tw
    ensures v.Put(Cell(row, c)) == v.Put(Cell(row, c + v.tw))
  {
    var a, b := v.Put(Cell(row, c)).g, v.Put(Cell(row, c + v.tw)).g;
    forall r | 0 <= r < |a| ensures a[r] == b[r] {
      assert forall k :: 0 <= k < |v.g[r]| ==> Cell(row, c).Covers(r, k, v.tw) == Cell(row, c + v.tw).Covers(r, k, v.tw);
    }
  }

  /** What a mark counts: one in the cells of its row whose column is one of its columns, the tile's width off or not;
      nothing when it is outside the rows or left of the tile. */
  lemma MarkCounts(v: Canvas, m: Mark, rows: nat, r: nat, c: nat)
    requires v.Valid(rows) && m.Fits(v.tw) && r < rows && c < v.tw
    ensures var counts := m.row == r && (if m.Cell? then m.col >= 0 else m.a >= 0)
                       && exists k :: m.HoldsColumn(k) && (k == c || k == c + v.tw);
            v.Put(m).g[r][c] == v.g[r][c] + if counts then 1 else 0
    ensures forall k :: m.HoldsColumn(k) && k >= 0 ==> (k % v.tw == c <==> k == c || k == c + v.tw)
    ensures m.Cell? ==> (m.HoldsColumn(c) <==> m.col == c)
    ensures m.Run? ==> (m.HoldsColumn(c) <==> m.a <= c <= m.b)
  {
    forall k | m.HoldsColumn(k) && k >= 0 ensures k % v.tw == c <==> k == c || k == c + v.tw {
      WrapIsMod(k, v.tw);
    }
    assert m.HoldsColumn(c) || m.HoldsColumn(c + v.tw) <==> exists k :: m.HoldsColumn(k) && (k == c || k == c + v.tw);
  }

  /** A cell's density is the number of marks that cover it; no cell exceeds the bound. */
  lemma {:induction false} PutAllCounts(v: Canvas, ms: seq<Mark>, rows: nat)
    requires v.Valid(rows)
    ensures var w := v.PutAll(ms);
            && w.Valid(rows) && w.tw == v.tw && v.bound <= w.bound <= v.bound + |ms|
            && forall r :: 0 <= r < rows ==> forall c :: 0 <= c < v.tw ==>
                 w.g[r][c] == v.g[r][c] + Count(ms, rows, r, c, v.tw)
  {
    if ms != [] {
      PutAllCounts(v, ms[..|ms| - 1], rows);
      PutKeepsValid(v.PutAll(ms[..|ms| - 1]), ms[|ms| - 1], rows);
    }
  }

  lemma PutNext(v: Canvas, ms: seq<Mark>, k: nat)
    requires k < |ms|
    ensures v.PutAll(ms[..k + 1]) == v.PutAll(ms[..k]).Put(ms[k])
  {
    assert ms[..k + 1][..k] == ms[..k];
  }

  /** Marks one after the other. */
  lemma PutSome(v: Canvas, m: Mark, n: Mark)
    ensures v.PutAll([m]) == v.Put(m)
    ensures v.PutAll([m, n]) == v.Put(m).Put(n)
  {
    assert [m][..0] == [];
    assert [m, n][..1] == [m];
  }

  /** Halving keeps the bound a bound, and brings one under 2^31 back under 2^30. */
  lemma HalvedBounds(v: Canvas, rows: nat)
    requires v.Valid(rows) && v.bound < TWO31
    ensures v.Halved().Valid(rows) && v.Halved().tw == v.tw && v.Halved().bound <= MAX_COUNT
  {
    if v.bound > MAX_COUNT {
      var h := Halves(v.g);
      var m := GridMax(h);
      if m != 0 {
        var r :| 0 <= r < |h| && m in h[r];
        var c :| 0 <= c < |h[r]| && h[r][c] == m;
        assert h[r][c] == v.g[r][c] / 2;
      }
      assert forall r :: 0 <= r < rows ==> |h[r]| == v.tw;
    }
  }

  /** At a bound of 2^30 or less nothing is halved; over it every cell is, rounded down. */
  lemma HalvedCells(v: Canvas, rows: nat, r: nat, c: nat)
    requires v.Valid(rows) && r < rows && c < v.tw
    ensures |v.Halved().g| == rows && |v.Halved().g[r]| == v.tw
    ensures v.bound <= 0x4000_0000 ==> v.Halved() == v
    ensures v.bound > 0x4000_0000 ==> v.Halved().g[r][c] == v.g[r][c] / 2
  {
  }

  /** The bound after a halving is the largest count there then is. */
  lemma HalvedBoundIsLargest(v: Canvas, rows: nat)
    requires v.Valid(rows) && v.bound > 0x4000_0000
    ensures var w := v.Halved();
            && |w.g| == rows && (forall r :: 0 <= r < rows ==> forall c :: 0 <= c < |w.g[r]| ==> w.g[r][c] <= w.bound)
            && (w.bound == 0 || exists r, c :: 0 <= r < rows && 0 <= c < |w.g[r]| && w.g[r][c] == w.bound)
  {
    var h := Halves(v.g);
    var m := GridMax(h);
    if m != 0 {
      var r :| 0 <= r < |h| && m in h[r];
      var c :| 0 <= c < |h[r]| && h[r][c] == m;
      assert v.Halved().g[r][c] == m;
    }
  }

  // ---------------------------------------------------------------- a line

  /** How far right of its start a line that goes d right over n is after a, as the machine computes it: with a slope
      and a product that are rounded. */
  type Slope = (nat, nat, nat) -> nat

  /** The rounding is off by less than one, and never past the line's end. */
  ghost predicate Near(q: Slope) {
    forall a: nat, d: nat, n: nat :: 0 < n && a <= n ==> q(a, d, n) <= d && Abs(q(a, d, n) - a * d / n) <= 1
  }

  /** Column of the line from x0, a distance d right while the row goes r0 to r1, where it passes row position p. */
  function ColumnAt(q: Slope, x0: nat, d: nat, r0: int, r1: int, p: int): (c: nat)
    requires r0 != r1
  {
    (x0 + q(Abs(p - r0), d, Abs(r1 - r0))) / ONE
  }

  /** A shallow line's runs from a row on: each row to the boundary, the boundary column in both rows. */
  function ShallowMarks(q: Slope, x0: nat, d: nat, r0: int, r1: int, row: int, from: nat): (ms: seq<Mark>)
    requires r0 != r1
    ensures |ms| == Abs(r1 / ONE - row) + 1
    decreases Abs(r1 / ONE - row)
  {
    var row1 := r1 / ONE;
    if row == row1 then [Run(row1, from, (x0 + d) / ONE)]
    else
      var down := row < row1;
      var c := ColumnAt(q, x0, d, r0, r1, if down then (row + 1) * ONE else row * ONE);
      [Run(row, from, c)] + ShallowMarks(q, x0, d, r0, r1, if down then row + 1 else row - 1, Max(from, c))
  }

  /** The run a shallow line counts before its last row, and those after it. */
  lemma ShallowNext(q: Slope, x0: nat, d: nat, r0: int, r1: int, s: int, row: int, from: nat, ms: seq<Mark>, i: nat)
    requires r0 != r1 && i <= |ms| && ms[i..] == ShallowMarks(q, x0, d, r0, r1, row, from)
    requires row != r1 / ONE && s == (if row < r1 / ONE then 1 else -1)
    ensures i < |ms|
    ensures var c := ColumnAt(q, x0, d, r0, r1, if s > 0 then row * ONE + ONE else row * ONE);
            && ms[i] == Run(row, from, c)
            && ms[i + 1..] == ShallowMarks(q, x0, d, r0, r1, row + s, Max(from, c))
  {
    hide ColumnAt;
    assert ms[i] == ms[i..][0];
    assert ms[i..][1..] == ms[i + 1..];
    assert row * ONE + ONE == (row + 1) * ONE;
  }

  lemma ShallowEnd(q: Slope, x0: nat, d: nat, r0: int, r1: int, from: nat, ms: seq<Mark>, i: nat)
    requires r0 != r1 && i <= |ms| && ms[i..] == ShallowMarks(q, x0, d, r0, r1, r1 / ONE, from)
    ensures i + 1 == |ms| && ms[i] == Run(r1 / ONE, from, (x0 + d) / ONE)
  {
    assert ms[i] == ms[i..][0];
  }

  /** What the line from (x0, r0) to (x0 + d, r1) counts, its start point left out. */
  function SegmentMarks(q: Slope, x0: nat, d: nat, r0: int, r1: int): (ms: seq<Mark>) {
    var c0, c1 := x0 / ONE, (x0 + d) / ONE;
    var row0, row1 := r0 / ONE, r1 / ONE;
    var dr, dc := Abs(row1 - row0), c1 - c0;
    if dr == 0 then (if c1 == c0 then [Cell(row1, c1)] else [Run(row0, c0 + 1, c1)])
    else if dr >= dc then
      seq(dr, k requires 0 <= k < dr => Cell(if row1 > row0 then row0 + (k + 1) else row0 - (k + 1), c0 + (k + 1) * dc / dr))
    else if dr == 1 then
      [Run(row0, c0 + 1, (c0 + c1 + 1) / 2), Run(row1, (c0 + c1 + 1) / 2, c1)]
    else ShallowMarks(q, x0, d, r0, r1, row0, c0 + 1)
  }

  /** The fixed-point positions a line may have: x inside one UI, a step under one UI, rows from one above the
      window to one below. */
  ghost predicate LineOk(q: Slope, x0: int, d: int, r0: int, r1: int, rows: nat, tw: nat) {
    Near(q) && 0 <= x0 < tw * ONE && 0 <= d < tw * ONE && -ONE <= r0 <= rows * ONE && -ONE <= r1 <= rows * ONE
  }

  lemma FractionBounds(a: nat, d: nat, b: nat)
    requires 0 < b && a <= b
    ensures 0 <= a * d / b <= d
    ensures a == b ==> a * d / b == d
  {
    var p := a * d;
    MulMono(a, b, d);
    DivIs(d * b, b, d);
    assert d * b == b * d;
    DivMono(p, b * d, b);
  }

  lemma NearAt(q: Slope, a: nat, d: nat, n: nat)
    requires Near(q) && 0 < n && a <= n
    ensures q(a, d, n) <= d && Abs(q(a, d, n) - a * d / n) <= 1
  {
  }

  /** Where a shallow line passes a row's boundary it is in the exact line's column, or in one beside it. */
  lemma ColumnIsNear(q: Slope, x0: nat, d: nat, r0: int, r1: int, p: int)
    requires Near(q) && r0 != r1 && Abs(p - r0) <= Abs(r1 - r0)
    ensures Abs(ColumnAt(q, x0, d, r0, r1, p) - (x0 + Abs(p - r0) * d / Abs(r1 - r0)) / ONE) <= 1
    ensures x0 / ONE <= ColumnAt(q, x0, d, r0, r1, p) <= (x0 + d) / ONE
  {
    var a, n := Abs(p - r0), Abs(r1 - r0);
    var u, v := q(a, d, n), a * d / n;
    FractionBounds(a, d, n);
    NearAt(q, a, d, n);
    Beside(x0 + u, x0 + v);
    DivMono(x0, x0 + u, ONE);
    DivMono(x0 + u, x0 + d, ONE);
  }

  /** The exact quotient is near. */
  lemma ExactIsNear() returns (q: Slope)
    ensures Near(q) && forall a: nat, d: nat, n: nat :: 0 < n ==> q(a, d, n) == a * d / n
  {
    q := (a: nat, d: nat, n: nat) => if n == 0 then 0 else Share(a, d, n);
    forall a: nat, d: nat, n: nat | 0 < n && a <= n ensures q(a, d, n) <= d && Abs(q(a, d, n) - a * d / n) <= 1 {
      FractionBounds(a, d, n);
    }
  }

  function Share(a: nat, d: nat, n: nat): (v: nat)
    requires 0 < n
  {
    ProductIsNat(a, d);
    DivMono(0, a * d, n);
    a * d / n
  }

  /** A quotient computed in floating point and cut to an integer is near, off by less than one as it is. */
  lemma FloatIsNear(a: nat, d: nat, n: nat, x: real)
    requires 0 < n && a <= n && x >= 0.0
    requires (a * d) as real / n as real - 1.0 < x < (a * d) as real / n as real + 1.0
    ensures 0 <= x.Floor <= d && Abs(x.Floor - a * d / n) <= 1
  {
    var p, v := a * d, a * d / n;
    FractionBounds(a, d, n);
    assert v * n <= p < v * n + n by {
      assert p == v * n + p % n;
    }
    MulMono(a, n, d);
    Quotient(p, n, v);
    Quotient(n * d, n, d);
    RealMono(p, n * d, n);
  }

  lemma Quotient(p: nat, n: nat, v: nat)
    requires 0 < n && v * n <= p < v * n + n
    ensures v as real <= p as real / n as real < v as real + 1.0
    ensures p == v * n ==> p as real / n as real == v as real
  {
    var t := v * n;
    var r := p - t;
    var y, x, m := v as real, r as real, n as real;
    CastProduct(v, n);
    assert p as real == t as real + x == y * m + x;
    SumOver(y, x, m);
    UnitFraction(r, n);
  }

  lemma {:induction false} CastProduct(v: nat, n: nat)
    ensures (v * n) as real == v as real * n as real
  {
    if v > 0 {
      CastProduct(v - 1, n);
      assert v * n == (v - 1) * n + n;
      assert v as real * n as real == (v - 1) as real * n as real + n as real;
    }
  }

  lemma SumOver(v: real, r: real, m: real)
    requires m > 0.0
    ensures (v * m + r) / m == v + r / m
  {
    var t, s := (v * m + r) / m, r / m;
    assert t * m == v * m + s * m;
    assert (t - v - s) * m == 0.0;
  }

  lemma UnitFraction(r: nat, n: nat)
    requires r < n
    ensures 0.0 <= r as real / n as real < 1.0 && (r == 0 ==> r as real / n as real == 0.0)
  {
  }

  lemma RealMono(p: nat, q: nat, n: nat)
    requires 0 < n && p <= q
    ensures p as real / n as real <= q as real / n as real
  {
  }

  lemma Beside(u: nat, v: nat)
    requires Abs(u - v) <= 1
    ensures Abs(u / ONE - v / ONE) <= 1
  {
  }

  /** A line of up to rows + 2 counts, each a fit mark. */
  lemma SegmentMarksFit(q: Slope, x0: nat, d: nat, r0: int, r1: int, rows: nat, tw: nat)
    requires LineOk(q, x0, d, r0, r1, rows, tw)
    ensures |SegmentMarks(q, x0, d, r0, r1)| <= rows + 2
    ensures forall m :: m in SegmentMarks(q, x0, d, r0, r1) ==> m.Fits(tw)
  {
    var c0, c1 := x0 / ONE, (x0 + d) / ONE;
    var row0, row1 := r0 / ONE, r1 / ONE;
    var dr, dc := Abs(row1 - row0), c1 - c0;
    var ms := SegmentMarks(q, x0, d, r0, r1);
    if dr > 0 && dr >= dc {
      forall k | 0 <= k < dr ensures ms[k].Fits(tw) {
        FractionBounds(k + 1, dc, dr);
      }
    } else if dr > 1 {
      ShallowMarksFit(q, x0, d, r0, r1, row0, c0 + 1, rows, tw);
    }
  }

  lemma {:induction false} ShallowMarksFit(q: Slope, x0: nat, d: nat, r0: int, r1: int, row: int, from: nat, rows: nat, tw: nat)
    requires LineOk(q, x0, d, r0, r1, rows, tw) && r0 / ONE != r1 / ONE && from > x0 / ONE
    requires r0 / ONE <= row <= r1 / ONE || r1 / ONE <= row <= r0 / ONE
    ensures forall m :: m in ShallowMarks(q, x0, d, r0, r1, row, from) ==> m.Fits(tw) && m.Run? && m.a > x0 / ONE
    decreases Abs(r1 / ONE - row)
  {
    var row1 := r1 / ONE;
    if row != row1 {
      var down := row < row1;
      var p := if down then (row + 1) * ONE else row * ONE;
      var c := ColumnAt(q, x0, d, r0, r1, p);
      ColumnIsNear(q, x0, d, r0, r1, p);
      ShallowMarksFit(q, x0, d, r0, r1, if down then row + 1 else row - 1, Max(from, c), rows, tw);
    }
  }

  /** A steep line's cells, as the drawing steps through them: s is the row direction. */
  lemma SteepMarks(q: Slope, x0: nat, d: nat, r0: int, r1: int, s: int)
    requires var dr := Abs(r1 / ONE - r0 / ONE); 0 < dr && dr >= (x0 + d) / ONE - x0 / ONE
    requires s == if r1 / ONE > r0 / ONE then 1 else -1
    ensures var ms := SegmentMarks(q, x0, d, r0, r1);
            var dr, dc := Abs(r1 / ONE - r0 / ONE), (x0 + d) / ONE - x0 / ONE;
            |ms| == dr && forall k :: 0 <= k < dr ==> ms[k] == Cell(r0 / ONE + s * (k + 1), x0 / ONE + (k + 1) * dc / dr)
  {
  }

  /** A line that is not steep leaves no column out: each one after its start is in one of its runs. */
  lemma SegmentCoversColumns(q: Slope, x0: nat, d: nat, r0: int, r1: int, col: nat)
    requires x0 / ONE < col <= (x0 + d) / ONE
    requires Abs(r1 / ONE - r0 / ONE) < (x0 + d) / ONE - x0 / ONE
    ensures exists m :: m in SegmentMarks(q, x0, d, r0, r1) && m.HoldsColumn(col)
  {
    var c0, c1 := x0 / ONE, (x0 + d) / ONE;
    var row0, row1 := r0 / ONE, r1 / ONE;
    var ms := SegmentMarks(q, x0, d, r0, r1);
    if Abs(row1 - row0) == 1 {
      assert ms[0].HoldsColumn(col) || ms[1].HoldsColumn(col);
    } else if row0 != row1 {
      ShallowCoversColumns(q, x0, d, r0, r1, row0, c0 + 1, col);
    } else {
      assert ms[0].HoldsColumn(col);
    }
  }

  lemma {:induction false} ShallowCoversColumns(q: Slope, x0: nat, d: nat, r0: int, r1: int, row: int, from: nat, col: nat)
    requires r0 != r1 && from <= col <= (x0 + d) / ONE
    ensures exists m :: m in ShallowMarks(q, x0, d, r0, r1, row, from) && m.HoldsColumn(col)
    decreases Abs(r1 / ONE - row)
  {
    var ms := ShallowMarks(q, x0, d, r0, r1, row, from);
    if ms[0].HoldsColumn(col) {
    } else {
      var down := row < r1 / ONE;
      var c := ColumnAt(q, x0, d, r0, r1, if down then (row + 1) * ONE else row * ONE);
      var next := if down then row + 1 else row - 1;
      ShallowCoversColumns(q, x0, d, r0, r1, next, Max(from, c), col);
      var m :| m in ShallowMarks(q, x0, d, r0, r1, next, Max(from, c)) && m.HoldsColumn(col);
      assert m in ms;
    }
  }

  // ---------------------------------------------------------------- which cells a line is drawn in

  /** A line's marks are in a cell. */
  predicate Hit(ms: seq<Mark>, row: int, col: int) {
    exists i :: 0 <= i < |ms| && ms[i].row == row && ms[i].HoldsColumn(col)
  }

  /** A level line is in its own row, in each column after its start, or in its one column. */
  lemma LevelIsDrawn(q: Slope, x0: nat, d: nat, r0: int, r1: int, row: int, col: int)
    requires r0 / 0x1_0000 == r1 / 0x1_0000
    ensures var c0, c1 := x0 / 0x1_0000, (x0 + d) / 0x1_0000;
            Hit(SegmentMarks(q, x0, d, r0, r1), row, col)
            <==> row == r0 / 0x1_0000 && (c0 < col <= c1 || (c0 == c1 && col == c1))
  {
    DivMono(x0, x0 + d, ONE);
    var ms := SegmentMarks(q, x0, d, r0, r1);
    assert |ms| == 1;
    assert Hit(ms, row, col) <==> ms[0].row == row && ms[0].HoldsColumn(col);
  }

  /** A step of one row that is not steep is in the start's row up to the middle column and in the end's from it on. */
  lemma StepIsDrawn(q: Slope, x0: nat, d: nat, r0: int, r1: int, row: int, col: int)
    requires Abs(r1 / 0x1_0000 - r0 / 0x1_0000) == 1 && (x0 + d) / 0x1_0000 >= x0 / 0x1_0000 + 2
    ensures var c0, c1 := x0 / 0x1_0000, (x0 + d) / 0x1_0000;
            var mid := (c0 + c1 + 1) / 2;
            && c0 < mid <= c1
            && (Hit(SegmentMarks(q, x0, d, r0, r1), row, col)
                <==> (row == r0 / 0x1_0000 && c0 < col <= mid) || (row == r1 / 0x1_0000 && mid <= col <= c1))
  {
    var ms := SegmentMarks(q, x0, d, r0, r1);
    assert |ms| == 2;
    assert Hit(ms, row, col)
           <==> (ms[0].row == row && ms[0].HoldsColumn(col)) || (ms[1].row == row && ms[1].HoldsColumn(col));
  }

  /** A steep line is in one cell of each row after its start's, and in no other. */
  lemma SteepIsDrawn(q: Slope, x0: nat, d: nat, r0: int, r1: int, row: int, col: int)
    requires var dr := Abs(r1 / 0x1_0000 - r0 / 0x1_0000); 0 < dr && dr >= (x0 + d) / 0x1_0000 - x0 / 0x1_0000
    ensures var row0, row1, c0 := r0 / 0x1_0000, r1 / 0x1_0000, x0 / 0x1_0000;
            var dr, dc, k := Abs(row1 - row0), (x0 + d) / 0x1_0000 - c0, Abs(row - row0);
            Hit(SegmentMarks(q, x0, d, r0, r1), row, col)
            <==> (row0 < row <= row1 || row1 <= row < row0) && col == c0 + k * dc / dr
  {
    var row0, row1, c0 := r0 / 0x1_0000, r1 / 0x1_0000, x0 / 0x1_0000;
    var dr, dc, k := Abs(row1 - row0), (x0 + d) / 0x1_0000 - c0, Abs(row - row0);
    var ms := SegmentMarks(q, x0, d, r0, r1);
    SteepMarks(q, x0, d, r0, r1, if row1 > row0 then 1 else -1);
    if Hit(ms, row, col) {
      var i :| 0 <= i < |ms| && ms[i].row == row && ms[i].HoldsColumn(col);
      assert i + 1 == k;
    }
    if (row0 < row <= row1 || row1 <= row < row0) && col == c0 + k * dc / dr {
      assert ms[k - 1].row == row && ms[k - 1].HoldsColumn(col);
    }
  }

  /** Run i of a shallow line: in row i after the start's, toward the end's. It ends in the column where the line passes
      on into the next row, near the exact line's, or with the line; the next begins where it ended. */
  lemma {:induction false} ShallowRun(q: Slope, x0: nat, d: nat, r0: int, r1: int, row: int, from: nat, i: nat)
    requires Near(q) && r0 != r1 && x0 / ONE < from <= (x0 + d) / ONE && i <= Abs(r1 / ONE - row)
    requires r0 / ONE <= row <= r1 / ONE || r1 / ONE <= row <= r0 / ONE
    ensures var ms := ShallowMarks(q, x0, d, r0, r1, row, from);
            var at := if row < r1 / ONE then row + i else row - i;
            && ms[i].Run? && ms[i].row == at && ms[0].a == from && from <= ms[i].a <= (x0 + d) / ONE
            && (i == Abs(r1 / ONE - row) ==> ms[i].b == (x0 + d) / ONE)
            && (i < Abs(r1 / ONE - row) ==>
                  var p := Passed(at, row < r1 / ONE);
                  && ms[i + 1].Run? && ms[i + 1].a == Max(ms[i].a, ms[i].b)
                  && Abs(ms[i].b - (x0 + Abs(p - r0) * d / Abs(r1 - r0)) / ONE) <= 1
                  && x0 / ONE <= ms[i].b <= (x0 + d) / ONE)
    decreases Abs(r1 / ONE - row)
  {
    hide ColumnAt, Near;
    if row != r1 / ONE {
      var down := row < r1 / ONE;
      var c, next := ColumnAt(q, x0, d, r0, r1, Passed(row, down)), if down then row + 1 else row - 1;
      PassedIsNear(q, x0, d, r0, r1, row, down);
      hide Passed;
      ShallowRun(q, x0, d, r0, r1, next, Max(from, c), if i > 0 then i - 1 else 0);
      ShallowBegins(q, x0, d, r0, r1, row, from);
    }
  }

  /** The row position where a line going down, or up, leaves a row. */
  function Passed(row: int, down: bool): int {
    if down then (row + 1) * ONE else row * ONE
  }

  lemma PassedIsNear(q: Slope, x0: nat, d: nat, r0: int, r1: int, row: int, down: bool)
    requires Near(q) && r0 != r1 && down == (row < r1 / ONE) && row != r1 / ONE
    requires r0 / ONE <= row <= r1 / ONE || r1 / ONE <= row <= r0 / ONE
    ensures var p := Passed(row, down);
            && Abs(ColumnAt(q, x0, d, r0, r1, p) - (x0 + Abs(p - r0) * d / Abs(r1 - r0)) / ONE) <= 1
            && x0 / ONE <= ColumnAt(q, x0, d, r0, r1, p) <= (x0 + d) / ONE
  {
    hide ColumnAt, Near;
    ColumnIsNear(q, x0, d, r0, r1, Passed(row, down));
  }

  lemma ShallowBegins(q: Slope, x0: nat, d: nat, r0: int, r1: int, row: int, from: nat)
    requires r0 != r1 && row != r1 / ONE
    ensures var down := row < r1 / ONE;
            var c := ColumnAt(q, x0, d, r0, r1, Passed(row, down));
            ShallowMarks(q, x0, d, r0, r1, row, from)
            == [Run(row, from, c)] + ShallowMarks(q, x0, d, r0, r1, if down then row + 1 else row - 1, Max(from, c))
  {
    hide ColumnAt;
  }

  /** A shallow line over two rows or more. */
  lemma ShallowIsDrawn(q: Slope, x0: nat, d: nat, r0: int, r1: int, i: nat)
    requires var dr := Abs(r1 / 0x1_0000 - r0 / 0x1_0000); Near(q) && i <= dr && 2 <= dr < (x0 + d) / 0x1_0000 - x0 / 0x1_0000
    ensures var ms, dr, c0, c1 :=
              SegmentMarks(q, x0, d, r0, r1), Abs(r1 / 0x1_0000 - r0 / 0x1_0000), x0 / 0x1_0000, (x0 + d) / 0x1_0000;
            var at := if r0 < r1 then r0 / 0x1_0000 + i else r0 / 0x1_0000 - i;
            && |ms| == dr + 1 && ms[i].Run? && ms[i].row == at && ms[0].a == c0 + 1 <= ms[i].a <= c1
            && ms[dr].Run? && ms[dr].b == c1
            && (i < dr ==>
                  var p := if r0 < r1 then (at + 1) * 0x1_0000 else at * 0x1_0000;
                  && ms[i + 1].Run? && ms[i + 1].a == Max(ms[i].a, ms[i].b)
                  && Abs(ms[i].b - (x0 + Abs(p - r0) * d / Abs(r1 - r0)) / 0x1_0000) <= 1
                  && c0 <= ms[i].b <= c1)
  {
    hide ShallowMarks, Near;
    var dr := Abs(r1 / ONE - r0 / ONE);
    ShallowRun(q, x0, d, r0, r1, r0 / ONE, x0 / ONE + 1, i);
    ShallowRun(q, x0, d, r0, r1, r0 / ONE, x0 / ONE + 1, dr);
  }

  /** Any line's end is drawn, and nothing of it is in a row that is not between its ends' or a column that is not. */
  lemma EndIsDrawn(q: Slope, x0: nat, d: nat, r0: int, r1: int, i: nat)
    requires Near(q) && i < |SegmentMarks(q, x0, d, r0, r1)|
    ensures Hit(SegmentMarks(q, x0, d, r0, r1), r1 / 0x1_0000, (x0 + d) / 0x1_0000)
    ensures var m := SegmentMarks(q, x0, d, r0, r1)[i];
            && (r0 / 0x1_0000 <= m.row <= r1 / 0x1_0000 || r1 / 0x1_0000 <= m.row <= r0 / 0x1_0000)
            && forall c :: m.HoldsColumn(c) ==> x0 / 0x1_0000 <= c <= (x0 + d) / 0x1_0000
  {
    hide ShallowMarks, Near;
    var row0, row1, c0, c1 := r0 / ONE, r1 / ONE, x0 / ONE, (x0 + d) / ONE;
    var ms := SegmentMarks(q, x0, d, r0, r1);
    DivMono(x0, x0 + d, ONE);
    if Abs(row1 - row0) >= 2 && Abs(row1 - row0) < c1 - c0 {
      ShallowIsDrawn(q, x0, d, r0, r1, i);
      ShallowIsDrawn(q, x0, d, r0, r1, |ms| - 1);
      assert ms[|ms| - 1].HoldsColumn(c1);
    } else if row0 == row1 {
      LevelIsDrawn(q, x0, d, r0, r1, row1, c1);
    } else if Abs(row1 - row0) >= c1 - c0 {
      SteepColumns(q, x0, d, r0, r1, i + 1);
      SteepMarks(q, x0, d, r0, r1, if row1 > row0 then 1 else -1);
      FractionBounds(i + 1, c1 - c0, Abs(row1 - row0));
      assert ms[|ms| - 1].HoldsColumn(c1);
    } else {
      StepIsDrawn(q, x0, d, r0, r1, row1, c1);
    }
  }

  /** One more row of a steep line: the column's remainder takes dc more, and carries at dr. */
  lemma SteepStep(k: nat, dc: nat, dr: nat)
    requires 0 < dr && dc <= dr
    ensures var acc := k * dc % dr + dc;
            && (k + 1) * dc % dr == (if acc >= dr then acc - dr else acc)
            && (k + 1) * dc / dr == k * dc / dr + (if acc >= dr then 1 else 0)
  {
    var p := k * dc;
    var q, acc := p / dr, p % dr + dc;
    assert p == q * dr + p % dr;
    assert (k + 1) * dc == p + dc;
    if acc >= dr {
      assert (q + 1) * dr == q * dr + dr;
      DivModIs(p + dc, dr, q + 1, acc - dr);
    } else {
      DivModIs(p + dc, dr, q, acc);
    }
  }

  /** A steep line has one cell in each row after its start, its column stepping evenly to its end. */
  lemma SteepColumns(q: Slope, x0: nat, d: nat, r0: int, r1: int, k: nat)
    requires var dr := Abs(r1 / ONE - r0 / ONE); 0 < k <= dr && dr >= (x0 + d) / ONE - x0 / ONE
    ensures var ms := SegmentMarks(q, x0, d, r0, r1);
            var dr, dc := Abs(r1 / ONE - r0 / ONE), (x0 + d) / ONE - x0 / ONE;
            && |ms| == dr
            && ms[k - 1].Cell? && Abs(ms[k - 1].row - r0 / ONE) == k && ms[k - 1].col == x0 / ONE + k * dc / dr
            && ms[dr - 1] == Cell(r1 / ONE, (x0 + d) / ONE)
  {
    var dr, dc := Abs(r1 / ONE - r0 / ONE), (x0 + d) / ONE - x0 / ONE;
    FractionBounds(dr, dc, dr);
    FractionBounds(k, dc, dr);
  }

  // ---------------------------------------------------------------- a burst of samples

  /** A burst's samples as fixed-point positions: rows, columns (wrapped to one UI) where the drawing
      re-anchors, and the step of one sample. */
  datatype Burst = Burst(rowPos: seq<int>, anchor: seq<nat>, step: nat, slope: Slope) {
    ghost predicate Ok(rows: nat, tw: nat) {
      && Near(slope) && |rowPos| == |anchor|
      && (forall j :: 0 <= j < |rowPos| ==> -ONE <= rowPos[j] <= rows * ONE)
      && (forall j :: 0 <= j < |anchor| ==> anchor[j] < tw * ONE)
    }

    /** A burst with a line to draw; a step of a UI or more has none that fits the tile. */
    predicate Draws(tw: nat) {
      |rowPos| >= 2 && step < tw * ONE
    }

    /** The distance of the k-th line, from column position x. */
    ghost function Distance(tw: nat, x: nat, k: nat): int
      requires 0 < k < |anchor|
    {
      if k % CHECK_EVERY != 0 then step
      else if anchor[k] >= x then anchor[k] - x
      else anchor[k] - x + tw * ONE
    }

    /** The column position the k-th line ends at. */
    ghost function ColumnPos(rows: nat, tw: nat, k: nat): (x: nat)
      requires Ok(rows, tw) && Draws(tw) && k < |anchor|
      ensures x < tw * ONE
      ensures k % CHECK_EVERY == 0 ==> x == anchor[k]
    {
      if k == 0 then anchor[0]
      else
        var x := ColumnPos(rows, tw, k - 1);
        var y := x + Distance(tw, x, k);
        if y >= tw * ONE then y - tw * ONE else y
    }

    ghost function LineMarks(rows: nat, tw: nat, k: nat): seq<Mark>
      requires Ok(rows, tw) && Draws(tw) && 0 < k < |anchor|
    {
      var x := ColumnPos(rows, tw, k - 1);
      SegmentMarks(slope, x, Distance(tw, x, k), rowPos[k - 1], rowPos[k])
    }

    /** The canvas after the burst's start and its first k lines, each drawn as a segment, the bound looked at
        every CHECK_EVERY samples. */
    ghost function Drawn(v: Canvas, rows: nat, k: nat): Canvas
      requires Ok(rows, v.tw) && Draws(v.tw) && k < |anchor|
    {
      if k == 0 then v.Put(Cell(rowPos[0] / ONE, anchor[0] / ONE))
      else
        var w := Drawn(v, rows, k - 1);
        (if k % CHECK_EVERY == 0 then w.Halved() else w).PutAll(LineMarks(rows, v.tw, k))
    }

    ghost function Folded(v: Canvas, rows: nat): Canvas
      requires Ok(rows, v.tw)
    {
      if Draws(v.tw) then Drawn(v, rows, |rowPos| - 1).Halved() else v
    }
  }

  lemma LineIsOk(b: Burst, rows: nat, tw: nat, k: nat)
    requires b.Ok(rows, tw) && b.Draws(tw) && 0 < k < |b.anchor|
    ensures var x := b.ColumnPos(rows, tw, k - 1); LineOk(b.slope, x, b.Distance(tw, x, k), b.rowPos[k - 1], b.rowPos[k], rows, tw)
  {
  }

  /** Between two looks at the bound at most CHECK_EVERY lines of rows + 2 counts are drawn: no count passes 2^31. */
  lemma {:induction false} DrawnBounds(v: Canvas, b: Burst, rows: nat, k: nat)
    requires v.Valid(rows) && v.bound <= MAX_COUNT && rows <= 1024
    requires b.Ok(rows, v.tw) && b.Draws(v.tw) && k < |b.anchor|
    ensures var w := b.Drawn(v, rows, k);
            && w.Valid(rows) && w.tw == v.tw
            && w.bound <= MAX_COUNT + (k % CHECK_EVERY + 1) * (rows + 2) <= MAX_COUNT + CHECK_EVERY * 1026
  {
    hide SegmentMarks, Canvas.PutAll, Canvas.Halved;
    Budget(k % CHECK_EVERY, rows);
    if k == 0 {
      PutKeepsValid(v, Cell(b.rowPos[0] / ONE, b.anchor[0] / ONE), rows);
    } else {
      DrawnBounds(v, b, rows, k - 1);
      var w := b.Drawn(v, rows, k - 1);
      HalvedBounds(w, rows);
      LineAdds(if k % CHECK_EVERY == 0 then w.Halved() else w, b, rows, k);
      if k % CHECK_EVERY != 0 {
        Successor(k);
      }
    }
  }

  lemma Successor(k: nat)
    requires k % CHECK_EVERY != 0
    ensures k % CHECK_EVERY == (k - 1) % CHECK_EVERY + 1
  {
  }

  lemma Budget(n: nat, rows: nat)
    requires n < CHECK_EVERY && rows <= 1024
    ensures (n + 1) * (rows + 2) <= CHECK_EVERY * 1026
    ensures (n + 1) * (rows + 2) == n * (rows + 2) + (rows + 2)
    ensures (n + 1) * (rows + 2) >= rows + 2
  {
  }

  lemma LineAdds(u: Canvas, b: Burst, rows: nat, k: nat)
    requires u.Valid(rows) && b.Ok(rows, u.tw) && b.Draws(u.tw) && 0 < k < |b.anchor|
    ensures var w := u.PutAll(b.LineMarks(rows, u.tw, k));
            w.Valid(rows) && w.tw == u.tw && w.bound <= u.bound + rows + 2
    ensures forall m :: m in b.LineMarks(rows, u.tw, k) ==> m.Fits(u.tw)
  {
    var x := b.ColumnPos(rows, u.tw, k - 1);
    LineIsOk(b, rows, u.tw, k);
    SegmentMarksFit(b.slope, x, b.Distance(u.tw, x, k), b.rowPos[k - 1], b.rowPos[k], rows, u.tw);
    PutAllCounts(u, b.LineMarks(rows, u.tw, k), rows);
  }

  lemma DrawnStart(v: Canvas, b: Burst, rows: nat)
    requires b.Ok(rows, v.tw) && b.Draws(v.tw)
    ensures b.ColumnPos(rows, v.tw, 0) == b.anchor[0] && 0 <= b.anchor[0] / ONE < v.tw
    ensures b.Drawn(v, rows, 0) == v.Put(Cell(b.rowPos[0] / ONE, b.anchor[0] / ONE))
  {
  }

  /** The k-th line's place, and the canvas after it. */
  lemma DrawnStep(v: Canvas, b: Burst, rows: nat, k: nat, x: nat, d: int)
    requires b.Ok(rows, v.tw) && b.Draws(v.tw) && 0 < k < |b.anchor|
    requires x == b.ColumnPos(rows, v.tw, k - 1) && d == b.Distance(v.tw, x, k)
    ensures LineOk(b.slope, x, d, b.rowPos[k - 1], b.rowPos[k], rows, v.tw)
    ensures b.ColumnPos(rows, v.tw, k) == if x + d >= v.tw * ONE then x + d - v.tw * ONE else x + d
    ensures var w := b.Drawn(v, rows, k - 1);
            b.Drawn(v, rows, k)
            == (if k % CHECK_EVERY == 0 then w.Halved() else w).PutAll(SegmentMarks(b.slope, x, d, b.rowPos[k - 1], b.rowPos[k]))
  {
    hide SegmentMarks, Canvas.PutAll, Canvas.Halved;
  }

  /** Where a sample's column is: at its own anchor every 1024 samples, and between them a step on from the one before,
      round the tile. */
  lemma {:induction false} ColumnSteps(b: Burst, rows: nat, tw: nat, k0: nat, n: nat)
    requires b.Ok(rows, tw) && b.Draws(tw) && k0 % 1024 == 0 && n < 1024 && k0 + n < |b.anchor|
    ensures 0 < tw * 0x1_0000 && b.anchor[k0] + n * b.step >= 0
    ensures b.ColumnPos(rows, tw, k0 + n) == (b.anchor[k0] + n * b.step) % (tw * 0x1_0000)
  {
    hide Near, Burst.ColumnPos;
    var span := tw * ONE;
    if n == 0 {
      Anchored(b, rows, tw, k0);
      DivModIs(b.anchor[k0], span, 0, b.anchor[k0]);
    } else {
      ColumnSteps(b, rows, tw, k0, n - 1);
      NotAnchored(k0, n);
      ColumnNext(b, rows, tw, k0 + n);
      OneMoreStep(b.anchor[k0], n - 1, b.step);
      StepRound(b.ColumnPos(rows, tw, k0 + n - 1), b.anchor[k0] + (n - 1) * b.step, b.step, span);
    }
  }

  lemma Anchored(b: Burst, rows: nat, tw: nat, k: nat)
    requires b.Ok(rows, tw) && b.Draws(tw) && k % 1024 == 0 && k < |b.anchor|
    ensures b.ColumnPos(rows, tw, k) == b.anchor[k] < tw * ONE
  {
    hide Near;
  }

  lemma NotAnchored(k0: nat, n: nat)
    requires k0 % 1024 == 0 && 0 < n < 1024
    ensures (k0 + n) % 1024 != 0
  {
  }

  lemma ColumnNext(b: Burst, rows: nat, tw: nat, k: nat)
    requires b.Ok(rows, tw) && b.Draws(tw) && k < |b.anchor| && k % 1024 != 0
    ensures var x, span := b.ColumnPos(rows, tw, k - 1), tw * ONE;
            b.ColumnPos(rows, tw, k) == if x + b.step >= span then x + b.step - span else x + b.step
  {
    hide Near;
  }

  lemma OneMoreStep(a: nat, n: nat, step: nat)
    ensures a + n * step >= 0 && a + (n + 1) * step == a + n * step + step
  {
    ProductIsNat(n, step);
  }

  lemma StepRound(x: nat, y: nat, step: nat, span: nat)
    requires 0 < span && x == y % span && step < span
    ensures (y + step) % span == if x + step >= span then x + step - span else x + step
  {
    var c := if x + step >= span then 1 else 0;
    assert (y / span + c) * span == y / span * span + c * span;
    DivModIs(y + step, span, y / span + c, x + step - c * span);
  }

  /** What each line of a fold is: from the sample before's place to the sample's own, going right. */
  lemma LinesJoinSamples(b: Burst, rows: nat, tw: nat, k: nat)
    requires b.Ok(rows, tw) && b.Draws(tw) && 0 < k < |b.anchor|
    ensures var x, y := b.ColumnPos(rows, tw, k - 1), b.ColumnPos(rows, tw, k);
            b.LineMarks(rows, tw, k)
            == SegmentMarks(b.slope, x, if k % 1024 != 0 then b.step else if y >= x then y - x else y - x + tw * 0x1_0000,
                            b.rowPos[k - 1], b.rowPos[k])
  {
    hide SegmentMarks;
  }

  /** A fold draws the first sample's cell, then each line; it halves what is past the limit before every 1024th line and
      at the end. */
  lemma FoldSteps(v: Canvas, b: Burst, rows: nat, k: nat)
    requires b.Ok(rows, v.tw) && b.Draws(v.tw) && 0 < k < |b.anchor|
    ensures b.Drawn(v, rows, 0) == v.Put(Cell(b.rowPos[0] / 0x1_0000, b.anchor[0] / 0x1_0000))
    ensures var u := b.Drawn(v, rows, k - 1);
            b.Drawn(v, rows, k) == (if k % 1024 == 0 then u.Halved() else u).PutAll(b.LineMarks(rows, v.tw, k))
    ensures b.Folded(v, rows) == b.Drawn(v, rows, |b.rowPos| - 1).Halved()
  {
    hide SegmentMarks, Canvas.Put, Canvas.PutAll, Canvas.Halved, Burst.ColumnPos, Burst.LineMarks, Near;
  }

  /** Nothing is drawn of a burst of under two samples, or of one with a UI or more to a sample. */
  lemma ShortBurstIsLeft(v: Canvas, b: Burst, rows: nat)
    requires b.Ok(rows, v.tw)
    ensures |b.rowPos| < 2 || b.step >= v.tw * 0x1_0000 ==> b.Folded(v, rows) == v
    ensures |b.rowPos| >= 2 && b.step < v.tw * 0x1_0000 ==> b.Draws(v.tw)
  {
  }

  /** A fold keeps the bound under 2^30, ready for the next. */
  lemma FoldedBounds(v: Canvas, b: Burst, rows: nat)
    requires v.Valid(rows) && v.bound <= MAX_COUNT && rows <= 1024 && b.Ok(rows, v.tw)
    ensures b.Folded(v, rows).Valid(rows) && b.Folded(v, rows).bound <= MAX_COUNT && b.Folded(v, rows).tw == v.tw
  {
    hide SegmentMarks, Canvas.Put, Canvas.PutAll, Canvas.Halved, Burst.Drawn, Burst.ColumnPos;
    if b.Draws(v.tw) {
      DrawnBounds(v, b, rows, |b.rowPos| - 1);
      HalvedBounds(b.Drawn(v, rows, |b.rowPos| - 1), rows);
    }
  }

  // ---------------------------------------------------------------- difference arrays

  /** The sum of a difference array up to column c. */
  function Sum(d: seq<int>, c: int): int
    requires -1 <= c < |d|
  {
    if c < 0 then 0 else Sum(d, c - 1) + d[c]
  }

  function Bump(d: seq<int>, i: int, v: int): (r: seq<int>)
    requires 0 <= i < |d|
    ensures |r| == |d|
  {
    d[i := d[i] + v]
  }

  lemma {:induction false} SumBump(d: seq<int>, i: int, v: int, c: int)
    requires 0 <= i < |d| && -1 <= c < |d|
    ensures Sum(Bump(d, i, v), c) == Sum(d, c) + if i <= c then v else 0
  {
    if c >= 0 {
      SumBump(d, i, v, c - 1);
    }
  }

  /** A run's two writes to a row's difference array (tw + 1 long), four when it wraps. */
  function RunDiff(d: seq<int>, a: nat, b: nat): (r: seq<int>)
    requires a <= b && |d| >= 2 && b < 2 * (|d| - 1) && b - a < |d| - 1
    ensures |r| == |d|
  {
    var tw := |d| - 1;
    var a', b' := if a >= tw then a - tw else a, if a >= tw then b - tw else b;
    var d1 := Bump(d, a', 1);
    if b' < tw then Bump(d1, b' + 1, -1)
    else Bump(Bump(Bump(d1, tw, -1), 0, 1), b' - tw + 1, -1)
  }

  /** The summed row gains one in just the columns the run covers. */
  lemma SumRunDiff(d: seq<int>, row: nat, a: nat, b: nat, c: nat)
    requires a <= b && |d| >= 2 && b < 2 * (|d| - 1) && b - a < |d| - 1 && c < |d| - 1
    ensures Sum(RunDiff(d, a, b), c) == Sum(d, c) + if Run(row, a, b).Covers(row, c, |d| - 1) then 1 else 0
    ensures -1 <= RunDiff(d, a, b)[|d| - 1] - d[|d| - 1] <= 0
  {
    var tw := |d| - 1;
    var a', b' := if a >= tw then a - tw else a, if a >= tw then b - tw else b;
    var d1 := Bump(d, a', 1);
    SumBump(d, a', 1, c);
    if b' < tw {
      SumBump(d1, b' + 1, -1, c);
    } else {
      SumBump(d1, tw, -1, c);
      SumBump(Bump(d1, tw, -1), 0, 1, c);
      SumBump(Bump(Bump(d1, tw, -1), 0, 1), b' - tw + 1, -1, c);
    }
  }
}
