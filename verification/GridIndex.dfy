/**
 Line and column arithmetic of the terminal grid.

 A point is a line (negative in the scrollback history) and a column. The specification used
 throughout is the *linear cell index* `line * columns + column`: moving a point by n cells is adding
 or subtracting n on that index, followed by clamping to the boundary.
 */
module GridIndex {

  datatype Direction = Left | Right

  type Side = Direction

  /** `Unbounded` is the source's `Boundary::None`: lines wrap around the whole buffer. */
  datatype Boundary = Cursor | Grid | Unbounded

  datatype Dimensions = Dimensions(totalLines: nat, screenLines: nat, columns: nat) {
    function HistorySize(): nat {
      if totalLines > screenLines then totalLines - screenLines else 0
    }

    function TopmostLine(): int { 0 - HistorySize() }

    function BottommostLine(): int { screenLines - 1 }

    function LastColumn(): int { columns - 1 }

    /** What a real grid guarantees: at least one visible cell, and a buffer no shorter than the screen. */
    predicate Valid() {
      0 < columns && 0 < screenLines <= totalLines
    }

    /** What the arithmetic needs: `columns` is a divisor, and `Unbounded` also divides by `totalLines`. */
    predicate Supports(boundary: Boundary) {
      0 < columns && (boundary.Unbounded? ==> 0 < totalLines && screenLines <= totalLines)
    }
  }

  datatype Point = Point(line: int, column: nat)

  predicate InRow(d: Dimensions, p: Point) {
    p.column < d.columns
  }

  predicate InGrid(d: Dimensions, p: Point) {
    d.TopmostLine() <= p.line <= d.BottommostLine() && InRow(d, p)
  }

  /** Point ordering: by line, then by column. */
  predicate Before(p: Point, q: Point) {
    p.line < q.line || (p.line == q.line && p.column < q.column)
  }

  // ------------------------------------------------------------------ linear cell index

  function Index(d: Dimensions, p: Point): int {
    p.line * d.columns + p.column
  }

  function AtIndex(d: Dimensions, i: int): (p: Point)
    requires 0 < d.columns
    ensures InRow(d, p) && Index(d, p) == i
  {
    Point(i / d.columns, i % d.columns)
  }

  function FirstIndex(d: Dimensions, boundary: Boundary): int {
    if boundary.Cursor? then 0 else d.TopmostLine() * d.columns
  }

  function LastIndex(d: Dimensions): int {
    d.screenLines * d.columns - 1
  }

  function ClampIndex(d: Dimensions, boundary: Boundary, i: int): int
    requires d.Supports(boundary)
  {
    var first := FirstIndex(d, boundary);
    if boundary.Unbounded? then
      assert 0 < d.totalLines * d.columns;
      first + (i - first) % (d.totalLines * d.columns)
    else if i < first then first
    else if i > LastIndex(d) then LastIndex(d)
    else i
  }

  /** The specification of moving `p` by `n` cells (backwards when `n` is negative). */
  function Shifted(d: Dimensions, boundary: Boundary, p: Point, n: int): Point
    requires d.Supports(boundary)
  {
    AtIndex(d, ClampIndex(d, boundary, Index(d, p) + n))
  }

  function CutToRow(d: Dimensions, p: Point): (r: Point)
    requires 0 < d.columns
    ensures InRow(d, r)
  {
    if InRow(d, p) then p else Point(p.line, d.columns - 1)
  }

  // ------------------------------------------------------------------ division facts

  lemma MultiplyMonotone(a: int, b: int, c: int)
    requires a <= b && 0 <= c
    ensures a * c <= b * c
  {
    assert (b - a) * c >= 0;
  }

  lemma MultiplySuccessor(a: int, c: int)
    ensures (a + 1) * c == a * c + c
  {
  }

  lemma DivModUnique(n: int, c: int, q: int, r: int)
    requires 0 < c && n == q * c + r && 0 <= r < c
    ensures n / c == q && n % c == r
  {
    var k := n / c - q;
    assert k * c == r - n % c;
    MultiplyMonotone(1, if k >= 1 then k else 1, c);
    MultiplyMonotone(if k <= -1 then k else -1, -1, c);
  }

  lemma AddMultiple(i: int, m: int, k: int)
    requires 0 < m
    ensures (i + k * m) % m == i % m
  {
    assert i + k * m == (i / m + k) * m + i % m;
    DivModUnique(i + k * m, m, i / m + k, i % m);
  }

  lemma ModComposes(i: int, b: int, m: int)
    requires 0 < m
    ensures (i % m + b) % m == (i + b) % m
  {
    assert i % m + b == (i + b) + (-(i / m)) * m by {
      assert i == (i / m) * m + i % m;
    }
    AddMultiple(i + b, m, -(i / m));
  }

  lemma IndexUnique(d: Dimensions, p: Point)
    requires InRow(d, p)
    ensures AtIndex(d, Index(d, p)) == p
  {
    DivModUnique(Index(d, p), d.columns, p.line, p.column);
  }

  /** On points inside a row, point order is index order, so the index identifies the cell. */
  lemma {:induction false} OrderIsIndexOrder(d: Dimensions, p: Point, q: Point)
    requires InRow(d, p) && InRow(d, q)
    ensures Before(p, q) <==> Index(d, p) < Index(d, q)
    ensures p == q <==> Index(d, p) == Index(d, q)
  {
    if p.line < q.line {
      MultiplyMonotone(p.line + 1, q.line, d.columns);
      MultiplySuccessor(p.line, d.columns);
    } else if q.line < p.line {
      MultiplyMonotone(q.line + 1, p.line, d.columns);
      MultiplySuccessor(q.line, d.columns);
    }
  }

  /** The grid is one contiguous interval of indices. */
  lemma GridIsInterval(d: Dimensions, p: Point)
    requires 0 < d.columns && InRow(d, p)
    ensures InGrid(d, p) <==> FirstIndex(d, Grid) <= Index(d, p) <= LastIndex(d)
  {
    OrderIsIndexOrder(d, p, Point(d.TopmostLine(), 0));
    OrderIsIndexOrder(d, p, Point(d.screenLines, 0));
  }

  function NextCell(d: Dimensions, p: Point): Point {
    if p.column + 1 < d.columns then Point(p.line, p.column + 1) else Point(p.line + 1, 0)
  }

  function PreviousCell(d: Dimensions, p: Point): Point
    requires 0 < d.columns
  {
    if p.column == 0 then Point(p.line - 1, d.columns - 1) else Point(p.line, p.column - 1)
  }

  lemma Neighbours(d: Dimensions, p: Point)
    requires InRow(d, p)
    ensures InRow(d, NextCell(d, p)) && Index(d, NextCell(d, p)) == Index(d, p) + 1
    ensures InRow(d, PreviousCell(d, p)) && Index(d, PreviousCell(d, p)) == Index(d, p) - 1
    ensures AtIndex(d, Index(d, p) + 1) == NextCell(d, p) && AtIndex(d, Index(d, p) - 1) == PreviousCell(d, p)
  {
    MultiplySuccessor(p.line, d.columns);
    MultiplySuccessor(p.line - 1, d.columns);
    IndexUnique(d, NextCell(d, p));
    IndexUnique(d, PreviousCell(d, p));
  }

  // ------------------------------------------------------------------ clamping

  /** Rust's `%`: the remainder takes the sign of the dividend. */
  function TruncRem(a: int, b: int): int
    requires 0 < b
  {
    if a >= 0 then a % b else -((-a) % b)
  }

  /** `Line::grid_clamp`. */
  function ClampLine(d: Dimensions, boundary: Boundary, line: int): int
    requires boundary.Unbounded? ==> 0 < d.totalLines
  {
    match boundary
    case Cursor =>
      var upper := if d.BottommostLine() <= line then d.BottommostLine() else line;
      if 0 >= upper then 0 else upper
    case Grid =>
      var upper := if d.BottommostLine() <= line then d.BottommostLine() else line;
      if d.TopmostLine() >= upper then d.TopmostLine() else upper
    case Unbounded =>
      if line >= d.screenLines then
        d.TopmostLine() + TruncRem(line - d.screenLines, d.totalLines)
      else
        d.BottommostLine() + TruncRem(line - d.screenLines + 1, d.totalLines)
  }

  /**
   The two branches of the wrap-around (forward remainder from the top, truncated backward remainder
   from the bottom) are one Euclidean remainder counted from the topmost line.
   */
  lemma WrappedLine(d: Dimensions, line: int)
    requires d.Supports(Unbounded)
    ensures ClampLine(d, Unbounded, line) == d.TopmostLine() + (line - d.TopmostLine()) % d.totalLines
  {
    var t := d.totalLines;
    var top := d.TopmostLine();
    assert top == d.screenLines - t;
    if line >= d.screenLines {
      assert line - top == (line - d.screenLines) + 1 * t;
      AddMultiple(line - d.screenLines, t, 1);
    } else {
      var m := d.screenLines - 1 - line;
      ComplementRemainder(m, t);
      assert line - top == t - 1 - m;
    }
  }

  lemma ComplementRemainder(m: nat, t: nat)
    requires 0 < t
    ensures (t - 1 - m) % t == t - 1 - m % t
  {
    assert t - 1 - m == (-(m / t)) * t + (t - 1 - m % t) by {
      assert m == (m / t) * t + m % t;
    }
    DivModUnique(t - 1 - m, t, -(m / t), t - 1 - m % t);
  }

  lemma LineClampBounds(d: Dimensions, boundary: Boundary, line: int)
    requires d.Valid()
    ensures d.TopmostLine() <= ClampLine(d, boundary, line) <= d.BottommostLine()
    ensures boundary.Cursor? ==> 0 <= ClampLine(d, boundary, line)
    ensures (if boundary.Cursor? then 0 else d.TopmostLine()) <= line <= d.BottommostLine()
            ==> ClampLine(d, boundary, line) == line
  {
    if boundary.Unbounded? {
      WrappedLine(d, line);
      if d.TopmostLine() <= line <= d.BottommostLine() {
        DivModUnique(line - d.TopmostLine(), d.totalLines, 0, line - d.TopmostLine());
      }
    }
  }

  lemma WrapRows(rows: int, column: int, t: int, c: int)
    requires 0 < t && 0 <= column < c
    ensures 0 < t * c && (rows * c + column) % (t * c) == (rows % t) * c + column
  {
    var q, r := rows / t, rows % t;
    MultiplyMonotone(1, t, c);
    assert rows * c == q * (t * c) + r * c by {
      assert rows == q * t + r;
      assert (q * t + r) * c == (q * t) * c + r * c;
      assert (q * t) * c == q * (t * c);
    }
    MultiplyMonotone(r + 1, t, c);
    MultiplySuccessor(r, c);
    DivModUnique(rows * c + column, t * c, q, r * c + column);
  }

  lemma WrapFromTop(top: int, line: int, column: int, t: int, c: int)
    requires 0 < t && 0 <= column < c
    ensures 0 < t * c
    ensures top * c + (line * c + column - top * c) % (t * c) == (top + (line - top) % t) * c + column
  {
    WrapRows(line - top, column, t, c);
    assert (line - top) * c == line * c - top * c;
    assert (top + (line - top) % t) * c == top * c + ((line - top) % t) * c;
  }

  /** Wrapping the line of a point is taking its linear index modulo the size of the buffer. */
  lemma WrapIsIndexModulo(d: Dimensions, p: Point)
    requires d.Supports(Unbounded) && InRow(d, p)
    ensures Point(ClampLine(d, Unbounded, p.line), p.column) == Shifted(d, Unbounded, p, 0)
  {
    var q := Point(ClampLine(d, Unbounded, p.line), p.column);
    WrappedLine(d, p.line);
    WrapFromTop(d.TopmostLine(), p.line, p.column, d.totalLines, d.columns);
    IndexUnique(d, q);
  }

  lemma ClampedPoint(d: Dimensions, boundary: Boundary, p: Point)
    requires 0 < d.columns && !boundary.Unbounded? && InRow(d, p)
    ensures var top := if boundary.Cursor? then 0 else d.TopmostLine();
            Shifted(d, boundary, p, 0)
            == if p.line < top then Point(top, 0)
               else if p.line > d.BottommostLine() then Point(d.BottommostLine(), d.LastColumn())
               else p
  {
    var first := Point(if boundary.Cursor? then 0 else d.TopmostLine(), 0);
    var last := Point(d.BottommostLine(), d.LastColumn());
    OrderIsIndexOrder(d, p, first);
    OrderIsIndexOrder(d, last, p);
    MultiplySuccessor(d.BottommostLine(), d.columns);
    IndexUnique(d, p);
    IndexUnique(d, first);
    IndexUnique(d, last);
  }

  /** `Point::grid_clamp`: cut the column to the row, then clamp the linear index to the boundary. */
  method GridClamp(d: Dimensions, boundary: Boundary, point: Point) returns (r: Point)
    requires d.Supports(boundary)
    ensures r == Shifted(d, boundary, CutToRow(d, point), 0)
  {
    var self := point;
    var lastColumn := d.LastColumn();
    if lastColumn < self.column {
      self := self.(column := lastColumn);
    }
    if boundary == Unbounded {
      WrapIsIndexModulo(d, self);
    } else {
      ClampedPoint(d, boundary, self);
    }
    var topmost, bottommost := d.TopmostLine(), d.BottommostLine();
    if boundary == Cursor && self.line < 0 {
      r := Point(0, 0);
    } else if boundary == Grid && self.line < topmost {
      r := Point(topmost, 0);
    } else if boundary != Unbounded && self.line > bottommost {
      r := Point(bottommost, lastColumn);
    } else if boundary == Unbounded {
      self := self.(line := ClampLine(d, boundary, self.line));
      r := self;
    } else {
      r := self;
    }
  }

  // ------------------------------------------------------------------ moving points

  /** `Point::add`: exactly index addition, for every column, even one past the row. */
  method Add(d: Dimensions, boundary: Boundary, point: Point, rhs: nat) returns (r: Point)
    requires d.Supports(boundary)
    ensures r == Shifted(d, boundary, point, rhs)
  {
    var self := point;
    var cols := d.columns;
    self := self.(line := self.line + (rhs + self.column) / cols);
    self := self.(column := (self.column + rhs) % cols);
    assert Index(d, self) == Index(d, point) + rhs by {
      var s := rhs + point.column;
      assert s == (s / cols) * cols + s % cols;
      assert (point.line + s / cols) * cols == point.line * cols + (s / cols) * cols;
    }
    r := GridClamp(d, boundary, self);
  }

  /**
   `Point::sub`: index subtraction as long as the result does not stay in a row the start column is
   past the end of; there the saturating subtraction keeps the line and only reduces the column.
   */
  method Sub(d: Dimensions, boundary: Boundary, point: Point, rhs: nat) returns (r: Point)
    requires d.Supports(boundary)
    ensures point.column < rhs + d.columns ==> r == Shifted(d, boundary, point, 0 - rhs)
    ensures point.column >= rhs + d.columns ==>
              r == Shifted(d, boundary, Point(point.line, (point.column - rhs) % d.columns), 0)
  {
    var self := point;
    var cols := d.columns;
    var reach := rhs + cols - 1;
    var lineChanges := (if reach < self.column then 0 else reach - self.column) / cols;
    self := self.(line := self.line - lineChanges);
    self := self.(column := (cols + self.column - rhs % cols) % cols);
    SubColumn(cols, point.column, rhs);
    SubLine(cols, point.line, point.column, rhs, lineChanges);
    r := GridClamp(d, boundary, self);
  }

  lemma SubColumn(cols: int, column: int, rhs: int)
    requires 0 < cols && 0 <= column && 0 <= rhs
    ensures (cols + column - rhs % cols) % cols == (column - rhs) % cols
  {
    assert cols + column - rhs % cols == (column - rhs) + (1 + rhs / cols) * cols by {
      assert rhs == (rhs / cols) * cols + rhs % cols;
      assert (1 + rhs / cols) * cols == cols + (rhs / cols) * cols;
    }
    AddMultiple(column - rhs, cols, 1 + rhs / cols);
  }

  /** Rounding the distance up to whole lines is the negated floor division of its opposite. */
  lemma SubLine(cols: int, line: int, column: int, rhs: int, lineChanges: int)
    requires 0 < cols && 0 <= column && 0 <= rhs
    requires lineChanges == (if rhs + cols - 1 < column then 0 else rhs + cols - 1 - column) / cols
    ensures column < rhs + cols ==>
              (line - lineChanges) * cols + (column - rhs) % cols == line * cols + column - rhs
    ensures column >= rhs + cols ==> lineChanges == 0
  {
    if column < rhs + cols {
      var s := rhs + cols - 1 - column;
      var m := s % cols;
      assert s == lineChanges * cols + m;
      assert column - rhs == (-lineChanges) * cols + (cols - 1 - m);
      DivModUnique(column - rhs, cols, -lineChanges, cols - 1 - m);
      assert (line - lineChanges) * cols == line * cols - lineChanges * cols;
    } else {
      DivModUnique(0, cols, 0, 0);
    }
  }

  /**
   Past the row's end the two still agree exactly where the boundary hides the difference: beyond its last
   or first cell, or inside a single cell, or, with wrap-around, when the whole rows dropped are a multiple
   of the buffer's lines.
   */
  lemma SubPastRow(d: Dimensions, boundary: Boundary, p: Point, rhs: nat)
    requires d.Supports(boundary) && d.Valid() && p.column >= rhs + d.columns
    ensures var kept := Point(p.line, (p.column - rhs) % d.columns);
            Shifted(d, boundary, kept, 0) == Shifted(d, boundary, p, 0 - rhs)
            <==> if boundary.Unbounded? then (p.column - rhs) / d.columns % d.totalLines == 0
                 else LastIndex(d) <= Index(d, kept) || Index(d, p) - rhs <= FirstIndex(d, boundary)
                      || FirstIndex(d, boundary) == LastIndex(d)
  {
    var rows := (p.column - rhs) / d.columns;
    var kept := Point(p.line, (p.column - rhs) % d.columns);
    var i, j := Index(d, p) - rhs, Index(d, kept);
    assert i == j + rows * d.columns;
    DivModUnique(p.column - rhs, d.columns, rows, kept.column);
    MultiplyMonotone(1, rows, d.columns);
    SameIndex(d, ClampIndex(d, boundary, i), ClampIndex(d, boundary, j));
    GridNotEmpty(d);
    if boundary.Unbounded? {
      SameWrapped(d, j, rows);
    } else {
      SameClamped(d, boundary, j, i);
    }
  }

  /** Two cells past a two-column row, one cell back: the result stays a row above index subtraction. */
  lemma SubPastRowExample(d: Dimensions, p: Point)
    requires d == Dimensions(2, 2, 2) && p == Point(0, 3)
    ensures p.column >= 1 + d.columns && Shifted(d, Grid, Point(0, 0), 0) == Point(0, 0)
    ensures Shifted(d, Grid, p, -1) == Point(1, 0)
  {
    hide Shifted, Index, AtIndex, ClampIndex, FirstIndex, LastIndex;
    TwoByTwo(d, p);
    TwoByTwo(d, Point(0, 0));
    TwoByTwo(d, Point(1, 0));
    ShiftInside(d, Grid, Point(0, 0), 0, Point(0, 0));
    ShiftInside(d, Grid, p, -1, Point(1, 0));
  }

  /** A move that stays inside the boundary ends on the cell with the moved index. */
  lemma ShiftInside(d: Dimensions, boundary: Boundary, p: Point, n: int, q: Point)
    requires d.Supports(boundary) && !boundary.Unbounded? && InRow(d, q) && Index(d, q) == Index(d, p) + n
    requires FirstIndex(d, boundary) <= Index(d, q) <= LastIndex(d)
    ensures Shifted(d, boundary, p, n) == q
  {
    IndexUnique(d, q);
    hide Index, AtIndex, FirstIndex, LastIndex;
  }

  lemma TwoByTwo(d: Dimensions, p: Point)
    requires d == Dimensions(2, 2, 2)
    ensures Index(d, p) == 2 * p.line + p.column && FirstIndex(d, Grid) == 0 && LastIndex(d) == 3
  {
  }

  lemma SameIndex(d: Dimensions, i: int, j: int)
    requires 0 < d.columns
    ensures AtIndex(d, i) == AtIndex(d, j) <==> i == j
  {
  }

  lemma SameClamped(d: Dimensions, boundary: Boundary, j: int, i: int)
    requires d.Supports(boundary) && !boundary.Unbounded? && j < i && FirstIndex(d, boundary) <= LastIndex(d)
    ensures ClampIndex(d, boundary, i) == ClampIndex(d, boundary, j)
            <==> LastIndex(d) <= j || i <= FirstIndex(d, boundary) || FirstIndex(d, boundary) == LastIndex(d)
  {
  }

  lemma SameWrapped(d: Dimensions, j: int, rows: nat)
    requires d.Supports(Unbounded)
    ensures ClampIndex(d, Unbounded, j + rows * d.columns) == ClampIndex(d, Unbounded, j) <==> rows % d.totalLines == 0
  {
    var c, t, m := d.columns, d.totalLines, d.totalLines * d.columns;
    var q, r := rows / t, rows % t;
    var n := j - FirstIndex(d, Unbounded);
    MultiplyMonotone(1, t, c);
    assert rows * c == q * m + r * c by {
      assert (q * t + r) * c == (q * t) * c + r * c;
      assert (q * t) * c == q * m;
    }
    AddMultiple(n + r * c, m, q);
    assert n + r * c + q * m == n + rows * c;
    assert (n + rows * c) % m == (n + r * c) % m;
    MultiplyMonotone(r + 1, t, c);
    MultiplySuccessor(r, c);
    MultiplyMonotone(0, r, c);
    if r > 0 {
      MultiplyMonotone(1, r, c);
    }
    SameRemainder(n, r * c, m);
  }

  lemma SameRemainder(n: int, x: int, m: int)
    requires 0 <= x < m
    ensures (n + x) % m == n % m <==> x == 0
  {
    if (n + x) % m == n % m {
      var a, b := n / m, (n + x) / m;
      assert n == a * m + n % m && n + x == b * m + (n + x) % m;
      assert x == (b - a) * m + 0;
      DivModUnique(x, m, b - a, 0);
      DivModUnique(x, m, 0, x);
    }
  }

  // ------------------------------------------------------------------ laws of movement

  lemma GridNotEmpty(d: Dimensions)
    requires 0 < d.columns && 0 < d.screenLines
    ensures FirstIndex(d, Grid) <= 0 <= LastIndex(d)
  {
    MultiplyMonotone(1, d.screenLines, d.columns);
    MultiplyMonotone(d.TopmostLine(), 0, d.columns);
  }

  lemma ClampedInGrid(d: Dimensions, boundary: Boundary, p: Point, n: int)
    requires d.Valid()
    ensures InGrid(d, Shifted(d, boundary, p, n))
    ensures boundary.Cursor? ==> 0 <= Shifted(d, boundary, p, n).line
  {
    var i := ClampIndex(d, boundary, Index(d, p) + n);
    var q := AtIndex(d, i);
    GridNotEmpty(d);
    assert i <= LastIndex(d) by {
      if boundary.Unbounded? {
        assert d.totalLines == d.screenLines + d.HistorySize();
        assert d.totalLines * d.columns == d.screenLines * d.columns + d.HistorySize() * d.columns;
      }
    }
    GridIsInterval(d, q);
    OrderIsIndexOrder(d, q, Point(0, 0));
  }

  /** With wrap-around the grid is a cycle: moving forward by n and back by n returns every cell. */
  lemma {:induction false} WrapRoundTrip(d: Dimensions, p: Point, n: int)
    requires d.Valid() && InGrid(d, p)
    ensures Shifted(d, Unbounded, Shifted(d, Unbounded, p, n), -n) == p
  {
    WrapComposes(d, p, n, -n);
    ShiftByZero(d, Unbounded, p);
  }

  /** With wrap-around successive moves add up, forwards or backwards, from any start. */
  lemma WrapComposes(d: Dimensions, p: Point, a: int, b: int)
    requires d.Supports(Unbounded)
    ensures Shifted(d, Unbounded, Shifted(d, Unbounded, p, a), b) == Shifted(d, Unbounded, p, a + b)
  {
    hide ClampIndex, Index;
    WrapIndexComposes(d, Index(d, p) + a, b);
  }

  lemma WrapIndexComposes(d: Dimensions, i: int, b: int)
    requires d.Supports(Unbounded)
    ensures ClampIndex(d, Unbounded, ClampIndex(d, Unbounded, i) + b) == ClampIndex(d, Unbounded, i + b)
  {
    ModComposes(i - FirstIndex(d, Unbounded), b, d.totalLines * d.columns);
  }

  /** With a clamping boundary, moves in one direction add up from every point inside the boundary. */
  lemma {:induction false} ClampComposes(d: Dimensions, boundary: Boundary, p: Point, a: int, b: int)
    requires d.Valid() && !boundary.Unbounded? && InGrid(d, p)
    requires boundary.Cursor? ==> 0 <= p.line
    requires (0 <= a && 0 <= b) || (a <= 0 && b <= 0)
    ensures Shifted(d, boundary, Shifted(d, boundary, p, a), b) == Shifted(d, boundary, p, a + b)
  {
    GridIsInterval(d, p);
    OrderIsIndexOrder(d, p, Point(0, 0));
  }

  /** A move inside the boundary is undone exactly when it was not cut short. */
  lemma {:induction false} ClampRoundTrip(d: Dimensions, boundary: Boundary, p: Point, n: int)
    requires d.Valid() && !boundary.Unbounded? && InGrid(d, p)
    requires boundary.Cursor? ==> 0 <= p.line
    ensures Shifted(d, boundary, Shifted(d, boundary, p, n), -n) == p
            <==> FirstIndex(d, boundary) <= Index(d, p) + n <= LastIndex(d)
                 || Index(d, p) == (if n < 0 then LastIndex(d) else FirstIndex(d, boundary))
  {
    GridIsInterval(d, p);
    OrderIsIndexOrder(d, p, Point(0, 0));
    IndexUnique(d, p);
  }

  lemma ShiftByZero(d: Dimensions, boundary: Boundary, p: Point)
    requires d.Valid() && InGrid(d, p)
    requires boundary.Cursor? ==> 0 <= p.line
    ensures Shifted(d, boundary, p, 0) == p
  {
    GridIsInterval(d, p);
    OrderIsIndexOrder(d, p, Point(0, 0));
    IndexUnique(d, p);
    if boundary.Unbounded? {
      WrapIsIndexModulo(d, p);
      LineClampBounds(d, boundary, p.line);
    }
  }
}
