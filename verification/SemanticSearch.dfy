/**
 The searches behind semantic and line selections: the ends of a logical line and of a word between
 delimiters. A text is a line of cells by their linear index; it breaks after the last cell of a row that
 does not wrap.
 */
module SemanticSearch {
  import opened GridIndex
  import opened Wrappers

  /**
   What a selection asks of the terminal: the wrap flag of each line, whether a cell's character is a
   delimiter, whether the cell is the spacer of a wide character, and the bracket that matches the one in
   a cell.
   */
  datatype Screen = Screen(
    d: Dimensions, wraps: int -> bool, escape: Point -> bool, spacer: Point -> bool,
    bracket: Point -> Option<Point>)

  function Cell(t: Screen, i: int): Point
    requires 0 < t.d.columns
  {
    AtIndex(t.d, i)
  }

  function First(t: Screen): int { FirstIndex(t.d, Grid) }

  function Last(t: Screen): int { LastIndex(t.d) }

  /** The cell can end a word. */
  predicate Delimits(t: Screen, p: Point) { !t.spacer(p) && t.escape(p) }

  /** The text does not go on after this cell. */
  predicate Breaks(t: Screen, p: Point) { p.column == t.d.LastColumn() && !t.wraps(p.line) }

  predicate Spacer(t: Screen, p: Point) { t.spacer(p) }

  // ------------------------------------------------------------------ steps of the grid iterator

  /** `GridIterator::prev` and `next`: the neighbouring cells, as far as the grid goes. */
  lemma Steps(t: Screen, p: Point)
    requires t.d.Valid() && InGrid(t.d, p)
    ensures First(t) <= Index(t.d, p) <= Last(t) && Cell(t, Index(t.d, p)) == p
    ensures Index(t.d, p) > First(t) <==> Before(Point(t.d.TopmostLine(), 0), p)
    ensures Index(t.d, p) < Last(t) <==> Before(p, Point(t.d.BottommostLine(), t.d.LastColumn()))
    ensures Index(t.d, p) > First(t) ==>
              InGrid(t.d, PreviousCell(t.d, p)) && Index(t.d, PreviousCell(t.d, p)) == Index(t.d, p) - 1
    ensures Index(t.d, p) < Last(t) ==>
              InGrid(t.d, NextCell(t.d, p)) && Index(t.d, NextCell(t.d, p)) == Index(t.d, p) + 1
  {
    var first, last := Point(t.d.TopmostLine(), 0), Point(t.d.BottommostLine(), t.d.LastColumn());
    GridIsInterval(t.d, p);
    IndexUnique(t.d, p);
    Neighbours(t.d, p);
    OrderIsIndexOrder(t.d, first, p);
    OrderIsIndexOrder(t.d, p, last);
    MultiplySuccessor(t.d.BottommostLine(), t.d.columns);
    GridIsInterval(t.d, PreviousCell(t.d, p));
    GridIsInterval(t.d, NextCell(t.d, p));
  }

  // ------------------------------------------------------------------ to the left

  /**
   Searching to the left from cell `i`, `j` is where the search ends: on the nearest delimiter, or, if the
   text begins before one comes, on its first cell.
   */
  ghost predicate LeftEnd(t: Screen, i: int, j: int, found: bool)
    requires 0 < t.d.columns
  {
    && First(t) <= j <= i
    && (forall k | j < k < i :: !Delimits(t, Cell(t, k)) && !Breaks(t, Cell(t, k)))
    && (j < i ==> !Breaks(t, Cell(t, j)) && (Delimits(t, Cell(t, j)) <==> found))
    && (found ==> j < i)
    && (!found ==> j == First(t) || Breaks(t, Cell(t, j - 1)))
  }

  /** `inline_search_left` */
  method InlineSearchLeft(t: Screen, start: Point) returns (found: bool, point: Point)
    requires t.d.Valid() && InGrid(t.d, start)
    ensures InGrid(t.d, point) && LeftEnd(t, Index(t.d, start), Index(t.d, point), found)
  {
    point := start;
    var first := Point(t.d.TopmostLine(), 0);
    ghost var i := Index(t.d, start);
    Steps(t, start);
    hide Index, AtIndex, FirstIndex, LastIndex, InGrid, PreviousCell, Before;
    while Before(first, point)
      invariant InGrid(t.d, point) && First(t) <= Index(t.d, point) <= i
      invariant Cell(t, Index(t.d, point)) == point
      invariant forall k | Index(t.d, point) <= k < i :: !Delimits(t, Cell(t, k)) && !Breaks(t, Cell(t, k))
      decreases Index(t.d, point) - First(t)
    {
      Steps(t, point);
      var cell := PreviousCell(t.d, point);
      Steps(t, cell);
      if Breaks(t, cell) {
        return false, point;
      }
      point := cell;
      if Delimits(t, point) {
        return true, point;
      }
    }
    Steps(t, point);
    found := false;
  }

  /** The first cell after `j` that is not a spacer, or `j` itself if there is none. */
  ghost predicate AfterSpacers(t: Screen, j: int, m: int)
    requires 0 < t.d.columns
  {
    if m == j then forall k | j < k <= Last(t) :: Spacer(t, Cell(t, k))
    else j < m <= Last(t) && !Spacer(t, Cell(t, m)) && forall k | j < k < m :: Spacer(t, Cell(t, k))
  }

  /** `semantic_search_left`: the word begins at cell `m`. */
  ghost predicate WordStart(t: Screen, i: int, m: int)
    requires 0 < t.d.columns
  {
    exists j, found :: LeftEnd(t, i, j, found) && if found then AfterSpacers(t, j, m) else m == j
  }

  method SemanticSearchLeft(t: Screen, start: Point) returns (point: Point)
    requires t.d.Valid() && InGrid(t.d, start)
    ensures InGrid(t.d, point) && WordStart(t, Index(t.d, start), Index(t.d, point))
  {
    var found, hit := InlineSearchLeft(t, start);
    ghost var i, j := Index(t.d, start), Index(t.d, hit);
    point := hit;
    if !found {
      return;
    }
    point := SkipSpacers(t, hit);
  }

  method SkipSpacers(t: Screen, start: Point) returns (point: Point)
    requires t.d.Valid() && InGrid(t.d, start)
    ensures InGrid(t.d, point) && AfterSpacers(t, Index(t.d, start), Index(t.d, point))
  {
    point := start;
    var last := Point(t.d.BottommostLine(), t.d.LastColumn());
    Steps(t, start);
    hide Index, AtIndex, FirstIndex, LastIndex, InGrid, NextCell, Before;
    while Before(point, last)
      invariant InGrid(t.d, point) && Index(t.d, start) <= Index(t.d, point) <= Last(t)
      invariant Cell(t, Index(t.d, point)) == point
      invariant forall k | Index(t.d, start) < k <= Index(t.d, point) :: Spacer(t, Cell(t, k))
      decreases Last(t) - Index(t.d, point)
    {
      Steps(t, point);
      point := NextCell(t.d, point);
      Steps(t, point);
      if !Spacer(t, point) {
        return;
      }
    }
    Steps(t, point);
    point := start;
  }

  // ------------------------------------------------------------------ to the right

  /**
   Searching to the right from cell `i`, `j` is where the search ends: on the nearest delimiter, or, if the
   text ends before one comes, on its last cell.
   */
  ghost predicate RightEnd(t: Screen, i: int, j: int, found: bool)
    requires 0 < t.d.columns
  {
    && i <= j <= Last(t)
    && (forall k | i < k < j :: !Delimits(t, Cell(t, k)))
    && (forall k | i <= k < j :: !Breaks(t, Cell(t, k)))
    && (i < j ==> (Delimits(t, Cell(t, j)) <==> found))
    && (found ==> i < j)
    && (!found ==> j == Last(t) || Breaks(t, Cell(t, j)))
  }

  /** `inline_search_right` */
  method InlineSearchRight(t: Screen, start: Point) returns (found: bool, point: Point)
    requires t.d.Valid() && InGrid(t.d, start)
    ensures InGrid(t.d, point) && RightEnd(t, Index(t.d, start), Index(t.d, point), found)
  {
    point := start;
    Steps(t, start);
    if Breaks(t, point) {
      return false, point;
    }
    var last := Point(t.d.BottommostLine(), t.d.LastColumn());
    hide Index, AtIndex, FirstIndex, LastIndex, InGrid, NextCell, Before;
    while Before(point, last)
      invariant InGrid(t.d, point) && Index(t.d, start) <= Index(t.d, point) <= Last(t)
      invariant Cell(t, Index(t.d, point)) == point
      invariant forall k | Index(t.d, start) < k <= Index(t.d, point) :: !Delimits(t, Cell(t, k))
      invariant forall k | Index(t.d, start) <= k <= Index(t.d, point) :: !Breaks(t, Cell(t, k))
      decreases Last(t) - Index(t.d, point)
    {
      Steps(t, point);
      point := NextCell(t.d, point);
      Steps(t, point);
      if Delimits(t, point) {
        return true, point;
      }
      if Breaks(t, point) {
        return false, point;
      }
    }
    Steps(t, point);
    found := false;
  }

  /** Searching from cell `i`, the word ends at cell `m`: before a delimiter, or with the text. */
  ghost predicate WordEnd(t: Screen, i: int, m: int)
    requires 0 < t.d.columns
  {
    exists j, found :: RightEnd(t, i, j, found) && m == if found then j - 1 else j
  }

  /** `semantic_search_right` */
  method SemanticSearchRight(t: Screen, start: Point) returns (point: Point)
    requires t.d.Valid() && InGrid(t.d, start)
    ensures InGrid(t.d, point) && WordEnd(t, Index(t.d, start), Index(t.d, point))
  {
    var found, hit := InlineSearchRight(t, start);
    point := hit;
    Steps(t, hit);
    Steps(t, start);
    if found {
      point := PreviousCell(t.d, hit);
    }
    ghost var j := Index(t.d, hit);
    assert RightEnd(t, Index(t.d, start), j, found);
  }

  // ------------------------------------------------------------------ what the word is

  /** Both searches determine their results. */
  lemma {:induction false} WordUnique(t: Screen, i: int, m: int, n: int)
    requires 0 < t.d.columns
    ensures WordStart(t, i, m) && WordStart(t, i, n) ==> m == n
    ensures WordEnd(t, i, m) && WordEnd(t, i, n) ==> m == n
  {
    hide Cell, First, Last;
  }

  lemma {:induction false} EndUnique(t: Screen, i: int, j: int, found: bool, j': int, found': bool)
    requires 0 < t.d.columns && LeftEnd(t, i, j, found) && LeftEnd(t, i, j', found')
    ensures j == j' && found == found'
  {
    hide Cell, First, Last;
  }

  lemma WordEndsAfter(t: Screen, i: int, m: int)
    requires 0 < t.d.columns && WordEnd(t, i, m)
    ensures i <= m <= Last(t)
  {
  }

  /**
   A word reaches to the left of the cell it is searched from, or starts there, except from a spacer that only
   spacers separate from the delimiter before it: from there the search skips forward past the cell.
   */
  lemma WordStartsBefore(t: Screen, i: int, m: int, j: int, found: bool)
    requires 0 < t.d.columns && LeftEnd(t, i, j, found)
    requires if found then AfterSpacers(t, j, m) else m == j
    ensures m <= i <==> !(found && m != j && forall k | j < k <= i :: Spacer(t, Cell(t, k)))
  {
  }

  /**
   What a word is, to the left: from where it starts to the cell it is searched from no cell holds a delimiter
   and no row ends the text. Before it there is a delimiter, and no cell between but spacers; or the text
   begins with it.
   */
  lemma WordHasNoDelimiter(t: Screen, i: int, m: int, j: int, found: bool)
    requires 0 < t.d.columns && LeftEnd(t, i, j, found)
    requires if found then AfterSpacers(t, j, m) else m == j
    ensures forall k | m <= k < i && (found ==> m != j) ::
              var c := Cell(t, k);
              (t.spacer(c) || !t.escape(c)) && (c.column != t.d.LastColumn() || t.wraps(c.line))
    ensures found ==> t.escape(Cell(t, j)) && !t.spacer(Cell(t, j)) && forall k | j < k < m :: t.spacer(Cell(t, k))
    ensures !found ==>
              j == First(t) || (Cell(t, j - 1).column == t.d.LastColumn() && !t.wraps(Cell(t, j - 1).line))
  {
    hide Cell, First;
  }

  /**
   And to the right: no cell after the one searched from holds a delimiter up to its end, and no row before its
   last cell ends the text. Behind it there is a delimiter, or the text ends with it.
   */
  lemma WordEndsBeforeDelimiter(t: Screen, i: int, m: int)
    requires 0 < t.d.columns && WordEnd(t, i, m)
    ensures forall k | i < k <= m :: t.spacer(Cell(t, k)) || !t.escape(Cell(t, k))
    ensures forall k | i <= k < m :: Cell(t, k).column != t.d.LastColumn() || t.wraps(Cell(t, k).line)
    ensures (t.escape(Cell(t, m + 1)) && !t.spacer(Cell(t, m + 1)))
            || m == Last(t) || (Cell(t, m).column == t.d.LastColumn() && !t.wraps(Cell(t, m).line))
  {
    hide Cell, Last;
  }

  // ------------------------------------------------------------------ logical lines

  /** `p` is the first cell of the logical line that `line` belongs to. */
  ghost predicate StartsLogicalLine(t: Screen, line: int, p: Point) {
    && p.column == 0 && t.d.TopmostLine() <= p.line <= line
    && (forall l | p.line <= l < line :: t.wraps(l))
    && (p.line == t.d.TopmostLine() || !t.wraps(p.line - 1))
  }

  ghost predicate EndsLogicalLine(t: Screen, line: int, p: Point) {
    && p.column == t.d.LastColumn() && line <= p.line <= t.d.BottommostLine()
    && (forall l | line <= l < p.line :: t.wraps(l))
    && (p.line == t.d.BottommostLine() || !t.wraps(p.line))
  }

  method LineSearchLeft(t: Screen, point0: Point) returns (point: Point)
    requires t.d.TopmostLine() <= point0.line
    ensures StartsLogicalLine(t, point0.line, point)
  {
    point := point0;
    while point.line > t.d.TopmostLine() && t.wraps(point.line - 1)
      invariant t.d.TopmostLine() <= point.line <= point0.line
      invariant forall l | point.line <= l < point0.line :: t.wraps(l)
    {
      point := point.(line := point.line - 1);
    }
    point := point.(column := 0);
  }

  method LineSearchRight(t: Screen, point0: Point) returns (point: Point)
    requires 0 < t.d.columns && point0.line <= t.d.BottommostLine()
    ensures EndsLogicalLine(t, point0.line, point)
  {
    point := point0;
    while point.line + 1 < t.d.screenLines && t.wraps(point.line)
      invariant point0.line <= point.line <= t.d.BottommostLine()
      invariant forall l | point0.line <= l < point.line :: t.wraps(l)
      decreases t.d.screenLines - point.line
    {
      point := point.(line := point.line + 1);
    }
    point := point.(column := t.d.LastColumn());
  }
}
