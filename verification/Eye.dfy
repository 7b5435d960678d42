/**
 The eye as the object its captures are folded into: each method leaves the canvas
 the marks say, in tile, diff and dense, no count overflowing its 32 bits.
 */
module Eye {
  import opened Basics
  import opened EyeGrid

  const MAX_COLS: nat := 2048
  const MAX_ROWS: nat := 1024

  /** A row's counts and its summed differences make the canvas's row, and its last difference is in bounds. */
  ghost predicate RowIs(t: seq<int>, d: seq<int>, g: seq<nat>, bound: nat)
    requires |t| == |g| && |d| == |g| + 1
  {
    && (forall c :: 0 <= c < |g| ==> Sum(d, c) >= 0 && t[c] + Sum(d, c) == g[c])
    && 0 - bound <= d[|g|] <= 0
  }

  /** A run that counts in a row adds one to its summed differences where it covers. */
  lemma RunRowIs(t: seq<int>, d: seq<int>, v: Canvas, row: nat, a: nat, b: nat)
    requires row < |v.g| && v.tw == |v.g[row]| == |t| && |d| == v.tw + 1 && 0 < v.tw
    requires a <= b < 2 * v.tw && b - a < v.tw && RowIs(t, d, v.g[row], v.bound)
    ensures RowIs(t, RunDiff(d, a, b), v.Put(Mark.Run(row, a, b)).g[row], v.bound + 1)
  {
    forall c | 0 <= c < v.tw
      ensures Sum(RunDiff(d, a, b), c) == Sum(d, c) + if Mark.Run(row, a, b).Covers(row, c, v.tw) then 1 else 0
    {
      SumRunDiff(d, row, a, b, c);
    }
    SumRunDiff(d, row, a, b, 0);
  }

  class Eye {
    const rows: nat
    const tw: nat
    const tile: array2<uint32>
    const diff: array2<int32>
    const dense: array2<uint32>
    var dirty: bool
    var bound: nat
    ghost var canvas: Canvas  // what tile and diff add up to

    ghost function DiffRow(r: nat): (d: seq<int>)
      requires r < diff.Length0
      reads diff
      ensures |d| == diff.Length1
    {
      seq(diff.Length1, k requires 0 <= k < diff.Length1 reads diff => diff[r, k] as int)
    }

    ghost function TileRow(r: nat): (t: seq<int>)
      requires r < tile.Length0
      reads tile
      ensures |t| == tile.Length1
    {
      seq(tile.Length1, k requires 0 <= k < tile.Length1 reads tile => tile[r, k] as int)
    }

    ghost predicate Shape()
      reads `canvas
    {
      && 2 <= rows <= MAX_ROWS && 1 <= tw <= MAX_COLS / 2
      && tile.Length0 == rows && tile.Length1 == tw
      && diff.Length0 == rows && diff.Length1 == tw + 1
      && dense.Length0 == rows && dense.Length1 == tw
      && tile != dense && (tile as object) != (diff as object) && (dense as object) != (diff as object)
      && canvas.Valid(rows) && canvas.tw == tw && canvas.bound < TWO31
    }

    ghost predicate RowHolds(r: nat)
      requires Shape() && r < rows
      reads `canvas, tile, diff
    {
      RowIs(TileRow(r), DiffRow(r), canvas.g[r], canvas.bound)
    }

    /** tile and diff hold the canvas, and fit their 32 bits. */
    ghost predicate Core()
      reads `canvas, tile, diff
    {
      Shape() && forall r :: 0 <= r < rows ==> RowHolds(r)
    }

    ghost predicate DenseHolds()
      requires Shape()
      reads `canvas, dense
    {
      forall r, c :: 0 <= r < rows && 0 <= c < tw ==> dense[r, c] == canvas.g[r][c]
    }

    /** Between folds: the bound is under the halving limit, and dense is right unless it is known stale. */
    ghost predicate Valid()
      reads this, tile, diff, dense
    {
      Core() && bound == canvas.bound <= MAX_COUNT && (dirty || DenseHolds())
    }

    /** An empty eye over cols x rows, cols rounded down to an even count, both held in range. */
    constructor (cols: int, rows: int)
      ensures Valid() && fresh(tile) && fresh(diff) && fresh(dense)
      ensures this.rows == Clamp(rows, 2, MAX_ROWS) && tw == Clamp(cols, 2, MAX_COLS) / 2
      ensures (2 <= rows <= 1024 ==> this.rows == rows) && (2 <= cols <= 2048 ==> tw == cols / 2)
      ensures (rows > 1024 ==> this.rows == 1024) && (cols > 2048 ==> tw == 1024)
      ensures canvas.bound == 0 && forall r, c :: 0 <= r < this.rows && 0 <= c < tw ==> canvas.g[r][c] == 0
    {
      var h := Clamp(rows, 2, MAX_ROWS);
      var w := Clamp(cols, 2, MAX_COLS) / 2;
      this.rows, tw := h, w;
      tile := new uint32[h, w]((_, _) => 0);
      diff := new int32[h, w + 1]((_, _) => 0);
      dense := new uint32[h, w]((_, _) => 0);
      dirty, bound := false, 0;
      canvas := Canvas(seq(h, _ => seq(w, _ => 0)), 0, w);
      new;
      forall r | 0 <= r < h ensures RowHolds(r) {
        ZeroRow(r);
      }
    }

    /** The writes of a run to its row's difference array: two, or four where it wraps. */
    method AddRun(row: nat, a: nat, b: nat)
      requires Shape() && row < rows && a <= b < 2 * tw && b - a < tw
      requires forall k :: 0 <= k <= tw ==> 1 - TWO31 <= diff[row, k] < TWO31 - 1
      modifies diff
      ensures DiffRow(row) == RunDiff(old(DiffRow(row)), a, b)
      ensures forall r, k :: 0 <= r < rows && 0 <= k <= tw && r != row ==> diff[r, k] == old(diff[r, k])
    {
      var a', b' := a, b;
      if a >= tw {
        a', b' := a - tw, b - tw;
      }
      diff[row, a'] := diff[row, a'] + 1;
      if b' < tw {
        diff[row, b' + 1] := diff[row, b' + 1] - 1;
        return;
      }
      diff[row, tw] := diff[row, tw] - 1;
      diff[row, 0] := diff[row, 0] + 1;
      diff[row, b' - tw + 1] := diff[row, b' - tw + 1] - 1;
    }

    /** One in each column a..b of a row. */
    method CountRun(row: nat, a: nat, b: nat)
      requires Core() && row < rows && a <= b < 2 * tw && b - a < tw && canvas.bound + 1 < TWO31
      modifies diff, this`canvas
      ensures Core() && canvas == old(canvas).Put(Mark.Run(row, a, b))
    {
      ghost var v := canvas;
      DiffBounds(row);
      AddRun(row, a, b);
      canvas := canvas.Put(Mark.Run(row, a, b));
      PutKeepsValid(v, Mark.Run(row, a, b), rows);
      forall r | 0 <= r < rows ensures RowHolds(r) {
        assert old(RowHolds(r)) && TileRow(r) == old(TileRow(r));
        if r == row {
          RunRowIs(TileRow(r), old(DiffRow(r)), v, row, a, b);
        } else {
          assert DiffRow(r) == old(DiffRow(r)) && canvas.g[r] == v.g[r];
        }
      }
    }

    /** One in a cell of the tile. */
    method CountCell(row: nat, c: nat)
      requires Core() && row < rows && c < tw && canvas.bound + 1 < TWO31
      modifies tile, this`canvas
      ensures Core() && canvas == old(canvas).Put(Mark.Cell(row, c)) == old(canvas).Put(Mark.Cell(row, c + tw))
    {
      ghost var v := canvas;
      assert RowHolds(row) && TileRow(row)[c] == tile[row, c];
      tile[row, c] := tile[row, c] + 1;
      canvas := canvas.Put(Mark.Cell(row, c));
      PutKeepsValid(v, Mark.Cell(row, c), rows);
      PutWraps(v, row, c, rows);
      hide Sum;
      forall r | 0 <= r < rows ensures RowHolds(r) {
        assert old(RowHolds(r)) && DiffRow(r) == old(DiffRow(r));
        if r == row {
          assert TileRow(r) == old(TileRow(r))[c := tile[row, c]];
        } else {
          assert TileRow(r) == old(TileRow(r)) && canvas.g[r] == v.g[r];
        }
      }
    }

    /** Counts one at a row and a column up to one UI past the tile, if the grid holds them. */
    method Cell(row: int, c: int)
      requires Core() && c < 2 * tw && canvas.bound + 1 < TWO31
      modifies tile, this`canvas, this`bound
      ensures Core() && canvas == old(canvas).Put(Mark.Cell(row, c))
      ensures bound - old(bound) == canvas.bound - old(canvas).bound
    {
      if !(0 <= row < rows) || c < 0 {
        return;
      }
      CountCell(row, if c >= tw then c - tw else c);
      bound := bound + 1;
    }

    /** Counts one in each column a..b of a row, if the grid holds it. */
    method Run(row: int, a: int, b: int)
      requires Core() && b < 2 * tw && b - a < tw && canvas.bound + 1 < TWO31
      modifies diff, this`canvas, this`bound
      ensures Core() && canvas == old(canvas).Put(Mark.Run(row, a, b))
      ensures bound - old(bound) == canvas.bound - old(canvas).bound
    {
      if !(0 <= row < rows) || b < a || a < 0 {
        return;
      }
      CountRun(row, a, b);
      bound := bound + 1;
    }

    /** Draws the line from column position x0 and row position r0, a distance d right, to row position r1. */
    method Segment(q: Slope, x0: nat, d: nat, r0: int, r1: int)
      requires Core() && LineOk(q, x0, d, r0, r1, rows, tw) && canvas.bound + rows + 2 < TWO31
      modifies tile, diff, this`canvas, this`bound
      ensures Core() && canvas == old(canvas).PutAll(SegmentMarks(q, x0, d, r0, r1))
      ensures bound - old(bound) == canvas.bound - old(canvas).bound
    {
      hide RowHolds, Canvas.Put, Canvas.PutAll;
      var c0, c1 := x0 / ONE, (x0 + d) / ONE;
      var row0, row1 := r0 / ONE, r1 / ONE;
      ghost var ms := SegmentMarks(q, x0, d, r0, r1);
      SegmentMarksFit(q, x0, d, r0, r1, rows, tw);
      if row0 == row1 {
        assert ms[0] in ms;
        Level(row1, c0, c1);
        return;
      }
      var dr, s, dc := row1 - row0, 1, c1 - c0;
      if dr < 0 {
        dr, s := -dr, -1;
      }
      if dr >= dc {
        SteepMarks(q, x0, d, r0, r1, s);
        assert forall k :: 0 <= k < dr ==> ms[k] in ms;
        Steep(row0, s, dr, c0, dc, ms);
        return;
      }
      if dr == 1 {
        assert ms[0] in ms && ms[1] in ms;
        OneRow(row0, row1, c0, c1);
        return;
      }
      Shallow(q, x0, d, r0, r1, s, ms);
    }

    method Level(row: int, c0: nat, c1: nat)
      requires Core() && c0 <= c1 < 2 * tw && c1 - (c0 + 1) < tw && canvas.bound + 1 < TWO31
      modifies tile, diff, this`canvas, this`bound
      ensures Core() && canvas == old(canvas).PutAll(if c1 == c0 then [Mark.Cell(row, c1)] else [Mark.Run(row, c0 + 1, c1)])
      ensures bound - old(bound) == canvas.bound - old(canvas).bound
    {
      PutSome(canvas, Mark.Cell(row, c1), Mark.Cell(row, c1));
      PutSome(canvas, Mark.Run(row, c0 + 1, c1), Mark.Cell(row, c1));
      if c1 == c0 {
        Cell(row, c1);
      } else {
        Run(row, c0 + 1, c1);
      }
    }

    method OneRow(row0: int, row1: int, c0: nat, c1: nat)
      requires Core() && c0 + 2 <= c1 < 2 * tw && c1 - (c0 + 1) < tw && canvas.bound + 2 < TWO31
      modifies diff, this`canvas, this`bound
      ensures Core()
      ensures canvas == old(canvas).PutAll([Mark.Run(row0, c0 + 1, (c0 + c1 + 1) / 2), Mark.Run(row1, (c0 + c1 + 1) / 2, c1)])
      ensures bound - old(bound) == canvas.bound - old(canvas).bound
    {
      var mid := (c0 + c1 + 1) / 2;
      PutSome(canvas, Mark.Run(row0, c0 + 1, mid), Mark.Run(row1, mid, c1));
      PutKeepsValid(canvas, Mark.Run(row0, c0 + 1, mid), rows);
      Run(row0, c0 + 1, mid);
      Run(row1, mid, c1);
    }

    method Steep(row0: int, s: int, dr: nat, c0: nat, dc: nat, ghost ms: seq<Mark>)
      requires Core() && 0 < dr && dc <= dr && |ms| == dr && canvas.bound + dr < TWO31
      requires s == 1 || s == -1
      requires forall k :: 0 <= k < dr ==> ms[k] == Mark.Cell(row0 + s * (k + 1), c0 + (k + 1) * dc / dr) && ms[k].Fits(tw)
      modifies tile, this`canvas, this`bound
      ensures Core() && canvas == old(canvas).PutAll(ms)
      ensures bound - old(bound) == canvas.bound - old(canvas).bound
    {
      hide RowHolds, Canvas.Put;
      var col, acc := c0, 0;
      var k := 0;
      ghost var v := canvas;
      FractionBounds(0, dc, dr);
      while k < dr
        invariant k <= dr && col == c0 + k * dc / dr && acc == k * dc % dr
        invariant Core() && canvas == v.PutAll(ms[..k]) && canvas.bound <= v.bound + k
        invariant bound - old(bound) == canvas.bound - v.bound
      {
        SteepStep(k, dc, dr);
        acc := acc + dc;
        if acc >= dr {
          acc := acc - dr;
          col := col + 1;
        }
        assert ms[k].Fits(tw);
        PutKeepsValid(canvas, ms[k], rows);
        PutNext(v, ms, k);
        Cell(row0 + s * (k + 1), col);
        k := k + 1;
      }
      assert ms[..dr] == ms;
    }

    method Shallow(q: Slope, x0: nat, d: nat, r0: int, r1: int, s: int, ghost ms: seq<Mark>)
      requires Core() && r0 / ONE != r1 / ONE && s == (if r0 / ONE < r1 / ONE then 1 else -1)
      requires ms == ShallowMarks(q, x0, d, r0, r1, r0 / ONE, x0 / ONE + 1) && canvas.bound + |ms| < TWO31
      requires forall i :: 0 <= i < |ms| ==> ms[i].Fits(tw)
      modifies diff, this`canvas, this`bound
      ensures Core() && canvas == old(canvas).PutAll(ms)
      ensures bound - old(bound) == canvas.bound - old(canvas).bound
    {
      hide RowHolds, Canvas.Put, ShallowMarks, ColumnAt;
      var row, row1 := r0 / ONE, r1 / ONE;
      var from := x0 / ONE + 1;
      ghost var v := canvas;
      ghost var i := 0;
      while row != row1
        invariant if s == 1 then row <= row1 else row1 <= row
        invariant i + Abs(row1 - row) + 1 == |ms| && from >= 0 && ms[i..] == ShallowMarks(q, x0, d, r0, r1, row, from)
        invariant Core() && canvas == v.PutAll(ms[..i]) && canvas.bound <= v.bound + i
        invariant bound - old(bound) == canvas.bound - v.bound
        decreases Abs(row1 - row)
      {
        var b := row * ONE;
        if s > 0 {
          b := b + ONE;
        }
        var c := ColumnAt(q, x0, d, r0, r1, b);
        ShallowNext(q, x0, d, r0, r1, s, row, from, ms, i);
        RunNext(v, ms, i, row, from, c);
        from := Max(from, c);
        row := row + s;
        i := i + 1;
      }
      ShallowEnd(q, x0, d, r0, r1, from, ms, i);
      RunNext(v, ms, i, row1, from, (x0 + d) / ONE);
      assert ms[..i + 1] == ms;
    }

    method RunNext(ghost v: Canvas, ghost ms: seq<Mark>, ghost i: nat, row: int, from: int, to: int)
      requires Core() && i < |ms| && ms[i] == Mark.Run(row, from, to) && ms[i].Fits(tw)
      requires canvas == v.PutAll(ms[..i]) && canvas.bound + 1 < TWO31
      modifies diff, this`canvas, this`bound
      ensures Core() && canvas == v.PutAll(ms[..i + 1]) && canvas.bound <= old(canvas).bound + 1
      ensures bound - old(bound) == canvas.bound - old(canvas).bound
    {
      PutKeepsValid(canvas, ms[i], rows);
      PutNext(v, ms, i);
      Run(row, from, to);
    }

    /** Rebuilds dense from the counts and the summed runs, when it is stale. */
    method Materialize()
      requires Core() && (dirty || DenseHolds())
      modifies dense, this`dirty
      ensures !dirty && DenseHolds()
    {
      if !dirty {
        return;
      }
      for r := 0 to rows
        invariant forall q, c :: 0 <= q < r && 0 <= c < tw ==> dense[q, c] == canvas.g[q][c]
      {
        var acc: int32 := 0;
        for c := 0 to tw
          invariant acc == Sum(DiffRow(r), c - 1)
          invariant forall q, k :: 0 <= q < r && 0 <= k < tw ==> dense[q, k] == canvas.g[q][k]
          invariant forall k :: 0 <= k < c ==> dense[r, k] == canvas.g[r][k]
        {
          assert RowHolds(r) && TileRow(r)[c] == tile[r, c] && DiffRow(r)[c] == diff[r, c];
          assert canvas.g[r][c] <= canvas.bound;
          acc := acc + diff[r, c];
          dense[r, c] := (tile[r, c] + acc % TWO32) % TWO32; // modular, as 32-bit words add
        }
      }
      dirty := false;
    }

    /** Halves every count, once the bound is past the limit. */
    method Halve()
      requires Core() && bound == canvas.bound
      modifies tile, diff, dense, this`canvas, this`bound, this`dirty
      ensures Core() && canvas == old(canvas).Halved() && bound == canvas.bound
      ensures dirty || (old(dirty) == dirty && old(bound) <= MAX_COUNT
                        && forall r, c :: 0 <= r < rows && 0 <= c < tw ==> dense[r, c] == old(dense[r, c]))
    {
      if bound <= MAX_COUNT {
        return;
      }
      dirty := true;
      Materialize();
      ghost var v, h := canvas, Halves(canvas.g);
      HalvedBounds(v, rows);
      var top := HalveTile(h);
      forall r, k | 0 <= r < rows && 0 <= k <= tw {
        diff[r, k] := 0;
      }
      canvas := v.Halved();
      bound, dirty := top, true;
      forall r | 0 <= r < rows ensures RowHolds(r) {
        ZeroRow(r);
      }
    }

    method HalveTile(ghost h: Grid) returns (top: nat)
      requires Shape() && DenseHolds() && h == Halves(canvas.g)
      modifies tile
      ensures forall r, c :: 0 <= r < rows && 0 <= c < tw ==> tile[r, c] == h[r][c]
      ensures top == GridMax(h)
    {
      top := 0;
      for r := 0 to rows
        invariant forall q, c :: 0 <= q < r && 0 <= c < tw ==> tile[q, c] == h[q][c]
        invariant top == GridMax(h[..r])
      {
        assert h[..r + 1][..r] == h[..r];
        top := HalveRow(r, h[r], top);
      }
      assert h[..rows] == h;
    }

    method HalveRow(r: nat, ghost row: seq<nat>, top0: nat) returns (top: nat)
      requires Shape() && r < rows && |row| == tw && forall c :: 0 <= c < tw ==> row[c] == dense[r, c] / 2
      modifies tile
      ensures forall c :: 0 <= c < tw ==> tile[r, c] == row[c]
      ensures forall q, c :: 0 <= q < rows && 0 <= c < tw && q != r ==> tile[q, c] == old(tile[q, c])
      ensures top == Max(top0, MaxOf(row))
    {
      top := top0;
      for c := 0 to tw
        invariant forall k :: 0 <= k < c ==> tile[r, k] == row[k]
        invariant forall q, k :: 0 <= q < rows && 0 <= k < tw && q != r ==> tile[q, k] == old(tile[q, k])
        invariant top == Max(top0, MaxOf(row[..c]))
      {
        assert row[..c + 1][..c] == row[..c];
        tile[r, c] := dense[r, c] / 2;
        top := Max(top, dense[r, c] / 2);
      }
      assert row[..tw] == row;
    }

    /** Draws a burst's samples as lines. Levels and one-row steps are counted here, without a call, their counts
        added to the bound at the next look at it; segment draws the rest. */
    method Fold(b: Burst)
      requires Valid() && b.Ok(rows, tw)
      modifies tile, diff, dense, this`canvas, this`bound, this`dirty
      ensures Valid() && canvas == b.Folded(old(canvas), rows)
    {
      hide SegmentMarks, Canvas.Put, Canvas.PutAll, Canvas.Halved, RowHolds, Burst.Drawn, Burst.ColumnPos, DenseHolds;
      if !b.Draws(tw) {
        return;
      }
      ghost var v := canvas;
      var x := b.anchor[0];
      DrawnStart(v, b, rows);
      Cell(b.rowPos[0] / ONE, x / ONE);
      var runs, k := 0, 1;
      while k < |b.rowPos|
        invariant 1 <= k <= |b.rowPos| && x == b.ColumnPos(rows, tw, k - 1)
        invariant Core() && canvas == b.Drawn(v, rows, k - 1) && canvas.bound == bound + runs
      {
        x, runs := Turn(b, v, k, x, runs);
        k := k + 1;
      }
      Finish(v, b, runs);
    }

    /** The drawing loop's body for sample k. */
    method Turn(b: Burst, ghost v: Canvas, k: nat, x: nat, runs: nat) returns (x': nat, runs': nat)
      requires b.Ok(rows, tw) && b.Draws(tw) && 0 < k < |b.rowPos| && v.Valid(rows) && v.bound <= MAX_COUNT && v.tw == tw
      requires Core() && canvas == b.Drawn(v, rows, k - 1) && canvas.bound == bound + runs && x == b.ColumnPos(rows, tw, k - 1)
      modifies tile, diff, dense, this`canvas, this`bound, this`dirty
      ensures Core() && canvas == b.Drawn(v, rows, k) && canvas.bound == bound + runs' && x' == b.ColumnPos(rows, tw, k)
    {
      hide SegmentMarks, Canvas.Put, Canvas.PutAll, Canvas.Halved, RowHolds, Burst.Drawn, Burst.ColumnPos;
      DrawnBounds(v, b, rows, k - 1);
      DrawnStep(v, b, rows, k, x, b.Distance(tw, x, k));
      var d;
      d, runs' := Sample(b.slope, k % CHECK_EVERY == 0, b.anchor[k], b.step, x, b.rowPos[k - 1], b.rowPos[k], runs);
      x' := x + d;
      if x' >= tw * ONE {
        x' := x' - tw * ONE;
      }
    }

    method Finish(ghost v: Canvas, b: Burst, runs: nat)
      requires b.Ok(rows, tw) && b.Draws(tw) && v.Valid(rows) && v.bound <= MAX_COUNT && v.tw == tw
      requires Core() && canvas == b.Drawn(v, rows, |b.rowPos| - 1) && canvas.bound == bound + runs
      modifies tile, diff, dense, this`canvas, this`bound, this`dirty
      ensures Valid() && canvas == b.Folded(v, rows)
    {
      hide SegmentMarks, Canvas.Put, Canvas.PutAll, Canvas.Halved, RowHolds, Burst.Drawn, Burst.ColumnPos;
      FoldedBounds(v, b, rows);
      bound, dirty := bound + runs, true;
      Halve();
    }

    /** The drawing loop's turn for a sample: a look at the bound where one is due, and the line to the sample,
        d long. */
    method Sample(q: Slope, due: bool, anchor: nat, step: nat, x: nat, r: int, nr: int, runs: nat) returns (d: int, runs': nat)
      requires Core() && canvas.bound == bound + runs && canvas.bound <= MAX_COUNT + CHECK_EVERY * 1026
      requires var d := if !due then step else if anchor >= x then anchor - x else anchor - x + tw * ONE;
               LineOk(q, x, d, r, nr, rows, tw)
      modifies tile, diff, dense, this`canvas, this`bound, this`dirty
      ensures d == if !due then step else if anchor >= x then anchor - x else anchor - x + tw * ONE
      ensures Core() && canvas.bound == bound + runs'
      ensures d >= 0
      ensures canvas == (if due then old(canvas).Halved() else old(canvas)).PutAll(SegmentMarks(q, x, d, r, nr))
    {
      d, runs' := step, runs;
      if due {
        d := anchor - x;
        if d < 0 {
          d := d + tw * ONE;
        }
        bound, runs' := bound + runs, 0;
        HalvedBounds(canvas, rows);
        Halve();
      }
      var more := Line(q, x, d, r, nr);
      runs' := runs' + more;
    }

    /** One line of the drawing loop; runs is what it counted without adding it to the bound. */
    method Line(q: Slope, x: nat, d: nat, r: int, nr: int) returns (runs: nat)
      requires Core() && LineOk(q, x, d, r, nr, rows, tw) && canvas.bound + rows + 2 < TWO31
      modifies tile, diff, this`canvas, this`bound
      ensures Core() && canvas == old(canvas).PutAll(SegmentMarks(q, x, d, r, nr))
      ensures bound + runs - old(bound) == canvas.bound - old(canvas).bound
    {
      hide RowHolds, Canvas.PutAll;
      var row0, row1 := r / ONE, nr / ONE;
      var c0, c1 := x / ONE, (x + d) / ONE;
      var dr := row1 - row0;
      ghost var v, ms := canvas, SegmentMarks(q, x, d, r, nr);
      if dr == 0 && 0 <= row1 < rows {
        PutSome(v, ms[0], ms[0]);
        if c1 == c0 {
          if c1 >= tw {
            c1 := c1 - tw;
          }
          CountCell(row1, c1);
        } else {
          CountRun(row1, c0 + 1, c1);
        }
        return 1;
      }
      if (dr == 1 || dr == -1) && c1 - c0 > 1 && 0 <= row0 < rows && 0 <= row1 < rows {
        var mid := (c0 + c1 + 1) / 2;
        PutSome(v, ms[0], ms[1]);
        CountTwo(row0, row1, c0 + 1, mid, c1);
        return 2;
      }
      Segment(q, x, d, r, nr);
      return 0;
    }

    method CountTwo(row0: nat, row1: nat, a: nat, mid: nat, b: nat)
      requires Core() && row0 < rows && row1 < rows && a <= mid <= b < 2 * tw && b - a < tw && canvas.bound + 2 < TWO31
      modifies diff, this`canvas
      ensures Core() && canvas == old(canvas).Put(Mark.Run(row0, a, mid)).Put(Mark.Run(row1, mid, b))
      ensures canvas.bound == old(canvas).bound + 2
    {
      hide RowHolds;
      PutKeepsValid(canvas, Mark.Run(row0, a, mid), rows);
      CountRun(row0, a, mid);
      CountRun(row1, mid, b);
    }

    /** The density over the 2-UI window, the tile shown twice side by side, and its largest cell. */
    method ResultGrid() returns (grid: array2<uint32>, gridMax: nat)
      requires Valid()
      modifies dense, this`dirty
      ensures Valid() && canvas == old(canvas)
      ensures fresh(grid) && grid.Length0 == rows && grid.Length1 == 2 * tw
      ensures forall r, c :: 0 <= r < rows && 0 <= c < 2 * tw ==> grid[r, c] == canvas.g[r][if c < tw then c else c - tw]
      ensures gridMax == GridMax(canvas.g)
    {
      Materialize();
      grid := new uint32[rows, 2 * tw]((_, _) => 0);
      for r := 0 to rows
        modifies grid
        invariant forall q, c :: 0 <= q < r && 0 <= c < 2 * tw ==> grid[q, c] == dense[q, if c < tw then c else c - tw]
      {
        forall c | 0 <= c < 2 * tw {
          grid[r, c] := dense[r, if c < tw then c else c - tw];
        }
      }
      gridMax := LargestCell();
    }

    method LargestCell() returns (m: nat)
      requires Shape() && DenseHolds()
      ensures m == GridMax(canvas.g)
    {
      hide MaxOf;
      m := 0;
      ghost var g := canvas.g;
      for r := 0 to rows
        invariant m == GridMax(g[..r])
      {
        assert g[..r + 1][..r] == g[..r];
        m := RowMax(r, m);
      }
      assert g[..rows] == g;
    }

    method RowMax(r: nat, max0: nat) returns (m: nat)
      requires Shape() && DenseHolds() && r < rows
      ensures m == Max(max0, MaxOf(canvas.g[r]))
    {
      m := max0;
      ghost var row := canvas.g[r];
      for c := 0 to tw
        invariant m == Max(max0, MaxOf(row[..c]))
      {
        assert row[..c + 1][..c] == row[..c];
        m := Max(m, dense[r, c]);
      }
      assert row[..tw] == row;
    }

    lemma ZeroRow(r: nat)
      requires Shape() && r < rows && forall c :: 0 <= c < tw ==> tile[r, c] == canvas.g[r][c]
      requires forall k :: 0 <= k <= tw ==> diff[r, k] == 0
      ensures RowHolds(r)
    {
      forall c | 0 <= c < tw ensures Sum(DiffRow(r), c) == 0 {
        SumZero(DiffRow(r), c);
      }
    }

    /** Every difference is a change between two counts of the canvas. */
    lemma DiffBounds(r: nat)
      requires Core() && r < rows
      ensures forall k :: 0 <= k <= tw ==> 0 - canvas.bound <= diff[r, k] <= canvas.bound
    {
      assert RowHolds(r);
      forall k | 0 <= k <= tw ensures 0 - canvas.bound <= diff[r, k] <= canvas.bound {
        if k < tw {
          var d := DiffRow(r);
          assert Sum(d, k) == Sum(d, k - 1) + d[k] && d[k] == diff[r, k];
          if k > 0 {
            assert canvas.g[r][k - 1] <= canvas.bound;
          }
          assert canvas.g[r][k] <= canvas.bound;
        }
      }
    }
  }

  lemma {:induction false} SumZero(d: seq<int>, c: int)
    requires -1 <= c < |d| && forall k :: 0 <= k < |d| ==> d[k] == 0
    ensures Sum(d, c) == 0
  {
    if c >= 0 {
      SumZero(d, c - 1);
    }
  }
}
