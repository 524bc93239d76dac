/**
 Text selections: which cells a pair of half-cell anchors selects, and how a selection follows the
 text when a region of lines scrolls.

 The reference is half-cell coordinates: the cell with linear index i owns the halves 2i and 2i + 1,
 an anchor sits in one half, and a cell is selected when both its halves lie between the anchors.
 */
module Selection {
  import opened GridIndex
  import opened SemanticSearch
  import opened Wrappers

  datatype Anchor = Anchor(point: Point, side: Side)

  datatype SelectionType = Simple | Block | Semantic | Lines

  datatype SelectionRange = SelectionRange(start: Point, end: Point, isBlock: bool) {
    predicate Contains(p: Point) {
      && start.line <= p.line
      && end.line >= p.line
      && (start.column <= p.column || (start.line != p.line && !isBlock))
      && (end.column >= p.column || (end.line != p.line && !isBlock))
    }
  }

  /** `start` is where the drag began, so it may lie after `end`. */
  datatype Selection = Selection(ty: SelectionType, start: Anchor, end: Anchor) {
    function Upper(): Anchor { if Before(end.point, start.point) then end else start }

    function Lower(): Anchor { if Before(end.point, start.point) then start else end }

    function Reversed(): Selection { Selection(ty, end, start) }

    /** `Selection::is_empty`. */
    predicate IsEmpty() {
      match ty
      case Simple =>
        var s, e := Upper(), Lower();
        s == e || (s.side == Right && e.side == Left && s.point.line == e.point.line
                   && s.point.column + 1 == e.point.column)
      case Block =>
        || (start.point.column == end.point.column && start.side == end.side)
        || (start.point.column + 1 == end.point.column && start.side == Right && end.side == Left)
        || (end.point.column + 1 == start.point.column && start.side == Left && end.side == Right)
      case Semantic => false
      case Lines => false
    }
  }

  predicate AnchorsInGrid(d: Dimensions, sel: Selection) {
    InGrid(d, sel.start.point) && InGrid(d, sel.end.point)
  }

  // ------------------------------------------------------------------ half-cell coordinates

  function SideOffset(side: Side): int { if side == Left then 0 else 1 }

  function Half(d: Dimensions, a: Anchor): int { 2 * Index(d, a.point) + SideOffset(a.side) }

  function ColumnHalf(a: Anchor): int { 2 * a.point.column + SideOffset(a.side) }

  /** Both halves of unit `i` lie between the halves `a` and `b`, whichever comes first. */
  predicate Covered(a: int, b: int, i: int) {
    (a <= 2 * i && 2 * i + 1 <= b) || (b <= 2 * i && 2 * i + 1 <= a)
  }

  function FirstCovered(a: int, b: int): int { ((if a <= b then a else b) + 1) / 2 }

  function LastCovered(a: int, b: int): int { ((if a <= b then b else a) - 1) / 2 }

  lemma CoveredInterval(a: int, b: int, i: int)
    ensures Covered(a, b, i) <==> FirstCovered(a, b) <= i <= LastCovered(a, b)
  {
  }

  predicate Selects(r: Option<SelectionRange>, p: Point) {
    r.Some? && r.value.Contains(p)
  }

  /** The result selects exactly the cells of the grid that are fully covered, and is `None` without any. */
  ghost predicate SelectsCoveredCells(d: Dimensions, a: Anchor, b: Anchor, r: Option<SelectionRange>) {
    && (forall p | InGrid(d, p) :: Selects(r, p) <==> Covered(Half(d, a), Half(d, b), Index(d, p)))
    && (r.None? <==> forall p | InGrid(d, p) :: !Covered(Half(d, a), Half(d, b), Index(d, p)))
  }

  /** The result selects exactly the fully covered columns of the lines spanned by the anchors. */
  ghost predicate SelectsCoveredBlock(d: Dimensions, sel: Selection, r: Option<SelectionRange>) {
    var a, b := ColumnHalf(sel.start), ColumnHalf(sel.end);
    && (forall p | InGrid(d, p) ::
          Selects(r, p) <==> sel.Upper().point.line <= p.line <= sel.Lower().point.line && Covered(a, b, p.column))
    && (r.None? <==> forall c: int | 0 <= c < d.columns :: !Covered(a, b, c))
  }

  // ------------------------------------------------------------------ converting to a range

  function ClampAnchor(d: Dimensions, a: Anchor): Anchor
    requires 0 < d.columns
  {
    Anchor(Shifted(d, Grid, CutToRow(d, a.point), 0), a.side)
  }

  /** The right half of one cell and the left half of the cell after it: nothing lies between. */
  predicate Adjoining(d: Dimensions, s: Anchor, e: Anchor) {
    s.side == Right && e.side == Left && Index(d, e.point) == Index(d, s.point) + 1
  }

  /** The cells between two anchors, `s` being the upper one. */
  function SimpleRange(d: Dimensions, s: Anchor, e: Anchor): SelectionRange
    requires 0 < d.columns
  {
    if s.point == e.point || Adjoining(d, s, e) then SelectionRange(s.point, s.point, false)
    else
      var a, b := Half(d, s), Half(d, e);
      SelectionRange(AtIndex(d, FirstCovered(a, b)), AtIndex(d, LastCovered(a, b)), false)
  }

  function SimpleResult(d: Dimensions, sel: Selection): Option<SelectionRange>
    requires 0 < d.columns
  {
    if sel.Lower().point.line < d.TopmostLine() || sel.IsEmpty() then None
    else Some(SimpleRange(d, ClampAnchor(d, sel.Upper()), ClampAnchor(d, sel.Lower())))
  }

  /** The rectangle between two anchors, `s` being the upper one. */
  function BlockRange(s: Anchor, e: Anchor): SelectionRange {
    var (left, right) := if s.point.column > e.point.column then (e, s) else (s, e);
    var sameLine := s.point.line == e.point.line;
    var c := left.point.column;
    if sameLine && (right.point.column == c
                    || (right.point.column == c + 1 && left.side == Right && right.side == Left)) then
      SelectionRange(Point(s.point.line, c), Point(e.point.line, c), true)
    else if right.point.column == c then
      SelectionRange(Point(s.point.line, c + SideOffset(left.side)),
                     Point(e.point.line, if right.side == Left && c > 0 then c - 1 else c), true)
    else
      SelectionRange(Point(s.point.line, FirstCovered(ColumnHalf(left), ColumnHalf(right))),
                     Point(e.point.line, LastCovered(ColumnHalf(left), ColumnHalf(right))), true)
  }

  function BlockResult(d: Dimensions, sel: Selection): Option<SelectionRange>
    requires 0 < d.columns
  {
    if sel.Lower().point.line < d.TopmostLine() || sel.IsEmpty() then None
    else Some(BlockRange(ClampAnchor(d, sel.Upper()), ClampAnchor(d, sel.Lower())))
  }

  /** The whole logical lines of the two anchors and everything between them. */
  ghost predicate IsLinesRange(t: Screen, s: Anchor, e: Anchor, range: SelectionRange) {
    && !range.isBlock
    && StartsLogicalLine(t, s.point.line, range.start) && EndsLogicalLine(t, e.point.line, range.end)
  }

  /** A line selection is closed under wrapping: it never takes a part of a logical line. */
  lemma {:induction false} LinesRangeTakesWholeLines(
      t: Screen, s: Anchor, e: Anchor, range: SelectionRange, p: Point, q: Point)
    requires t.d.Valid() && IsLinesRange(t, s, e, range) && InGrid(t.d, p) && InGrid(t.d, q)
    requires s.point.line <= e.point.line && InGrid(t.d, s.point) && InGrid(t.d, e.point)
    requires p.line == q.line || (p.line + 1 == q.line && t.wraps(p.line))
    ensures range.Contains(p) <==> range.Contains(q)
  {
  }

  /** From bracket to bracket when one cell with a matching bracket is selected, and whole words otherwise. */
  ghost predicate IsSemanticRange(t: Screen, s: Point, e: Point, range: SelectionRange)
    requires 0 < t.d.columns
  {
    if s == e && t.bracket(s).Some? then
      var matching := t.bracket(s).value;
      range == if Before(matching, s) then SelectionRange(matching, e, false) else SelectionRange(s, matching, false)
    else
      && !range.isBlock && InGrid(t.d, range.start) && InGrid(t.d, range.end)
      && WordStart(t, Index(t.d, s), Index(t.d, range.start)) && WordEnd(t, Index(t.d, e), Index(t.d, range.end))
  }

  /** `Selection::range_semantic` */
  method RangeSemantic(t: Screen, start0: Point, end0: Point) returns (r: SelectionRange)
    requires t.d.Valid() && InGrid(t.d, start0) && InGrid(t.d, end0)
    ensures IsSemanticRange(t, start0, end0, r)
  {
    var start, end := start0, end0;
    if start == end {
      var found := t.bracket(start);
      if found.Some? {
        var matching := found.value;
        if (matching.line == start.line && matching.column < start.column) || matching.line < start.line {
          start := matching;
        } else {
          end := matching;
        }
        return SelectionRange(start, end, false);
      }
    }
    start := SemanticSearchLeft(t, start);
    end := SemanticSearchRight(t, end);
    r := SelectionRange(start, end, false);
  }

  /** Only spacers separate the cell from the delimiter before it, and some cell after it is not a spacer. */
  ghost predicate OnLeadingSpacer(t: Screen, p: Point)
    requires 0 < t.d.columns
  {
    var i := Index(t.d, p);
    && (exists k :: i < k <= Last(t) && !Spacer(t, Cell(t, k)))
    && exists j :: LeftEnd(t, i, j, true) && forall k | j < k <= i :: Spacer(t, Cell(t, k))
  }

  /**
   A semantic selection contains its upper anchor, and with it both, exactly unless that is on a spacer right
   behind a delimiter: the search for the start of the word then skips forward past the anchor.
   */
  lemma SemanticCoversAnchors(t: Screen, s: Point, e: Point, range: SelectionRange)
    requires t.d.Valid() && InGrid(t.d, s) && InGrid(t.d, e) && !Before(e, s) && IsSemanticRange(t, s, e, range)
    ensures range.Contains(s) <==> (s == e && t.bracket(s).Some?) || !OnLeadingSpacer(t, s)
    ensures range.Contains(s) ==> range.Contains(e)
  {
    if s != e || t.bracket(s).None? {
      var i, m := Index(t.d, s), Index(t.d, range.start);
      var j, found :| LeftEnd(t, i, j, found) && if found then AfterSpacers(t, j, m) else m == j;
      WordStartsBefore(t, i, m, j, found);
      SpacerExactly(t, s, m, j, found);
      WordEndsAfter(t, Index(t.d, e), Index(t.d, range.end));
      OrderIsIndexOrder(t.d, s, range.start);
      OrderIsIndexOrder(t.d, range.end, s);
      OrderIsIndexOrder(t.d, e, range.start);
      OrderIsIndexOrder(t.d, range.end, e);
      OrderIsIndexOrder(t.d, e, s);
    }
  }

  /**
   How that happens: a wide character did not fit behind a delimiter, and its leading spacer fills the row.
   */
  lemma LeadingSpacerSkips(t: Screen, p: Point)
    requires t.d.Valid() && InGrid(t.d, p) && t.spacer(p)
    requires Index(t.d, p) > First(t) && Delimits(t, PreviousCell(t.d, p)) && !Breaks(t, PreviousCell(t.d, p))
    requires Index(t.d, p) < Last(t) && !t.spacer(NextCell(t.d, p))
    ensures OnLeadingSpacer(t, p)
  {
    var i := Index(t.d, p);
    Steps(t, p);
    Steps(t, PreviousCell(t.d, p));
    Steps(t, NextCell(t.d, p));
    hide Index, AtIndex, First, Last, Cell;
    assert LeftEnd(t, i, i - 1, true);
    assert !Spacer(t, Cell(t, i + 1)) && Spacer(t, Cell(t, i));
  }

  lemma SpacerExactly(t: Screen, s: Point, m: int, j: int, found: bool)
    requires t.d.Valid() && InGrid(t.d, s) && LeftEnd(t, Index(t.d, s), j, found)
    requires if found then AfterSpacers(t, j, m) else m == j
    ensures OnLeadingSpacer(t, s) <==> found && m != j && forall k | j < k <= Index(t.d, s) :: Spacer(t, Cell(t, k))
  {
    var i := Index(t.d, s);
    hide Index, AtIndex, First, Last, Cell;
    if OnLeadingSpacer(t, s) {
      var j' :| LeftEnd(t, i, j', true) && forall k | j' < k <= i :: Spacer(t, Cell(t, k));
      EndUnique(t, i, j, found, j', true);
    }
  }

  /** `Selection::to_range` */
  method ToRange(sel: Selection, t: Screen) returns (r: Option<SelectionRange>)
    requires t.d.Valid()
    ensures sel.ty.Simple? ==> r == SimpleResult(t.d, sel)
    ensures sel.ty.Block? ==> r == BlockResult(t.d, sel)
    ensures sel.ty.Semantic? || sel.ty.Lines? ==> (r.None? <==> sel.Lower().point.line < t.d.TopmostLine())
    ensures r.Some? && sel.ty.Lines? ==>
              IsLinesRange(t, ClampAnchor(t.d, sel.Upper()), ClampAnchor(t.d, sel.Lower()), r.value)
    ensures r.Some? && sel.ty.Semantic? ==>
              IsSemanticRange(t, ClampAnchor(t.d, sel.Upper()).point, ClampAnchor(t.d, sel.Lower()).point, r.value)
  {
    var start, end := sel.start, sel.end;
    if Before(end.point, start.point) {
      start, end := end, start;
    }
    if end.point.line < t.d.TopmostLine() {
      return None;
    }
    ClampInGrid(t.d, start);
    ClampInGrid(t.d, end);
    ClampKeepsOrder(t.d, sel);
    var startPoint := GridClamp(t.d, Grid, start.point);
    var endPoint := GridClamp(t.d, Grid, end.point);
    start, end := start.(point := startPoint), end.(point := endPoint);
    hide Index, AtIndex, Shifted, BlockRange, Adjoining, StartsLogicalLine, EndsLogicalLine, IsSemanticRange;
    match sel.ty {
      case Simple => r := RangeSimple(sel, start, end, t.d);
      case Block => r := RangeBlock(sel, start, end);
      case Semantic =>
        var range := RangeSemantic(t, start.point, end.point);
        r := Some(range);
      case Lines =>
        var first := LineSearchLeft(t, start.point);
        var last := LineSearchRight(t, end.point);
        r := Some(SelectionRange(first, last, false));
    }
  }

  /** `Selection::range_simple`, on anchors already ordered and clamped. */
  method RangeSimple(sel: Selection, start0: Anchor, end0: Anchor, d: Dimensions) returns (r: Option<SelectionRange>)
    requires InRow(d, start0.point) && InRow(d, end0.point) && !Before(end0.point, start0.point)
    ensures r == if sel.IsEmpty() then None else Some(SimpleRange(d, start0, end0))
  {
    var start, end := start0, end0;
    if sel.IsEmpty() {
      return None;
    }
    hide Index, AtIndex, Before;
    if end.side == Left && start.point != end.point {
      if end.point.column == 0 {
        end := end.(point := end.point.(column := d.columns - 1));
        end := end.(point := end.point.(line := end.point.line - 1));
      } else {
        end := end.(point := end.point.(column := end.point.column - 1));
      }
    }
    if start.side == Right && start.point != end.point {
      start := start.(point := start.point.(column := start.point.column + 1));
      if start.point.column == d.columns {
        start := start.(point := start.point.(column := 0));
        start := start.(point := start.point.(line := start.point.line + 1));
      }
    }
    assert end.point == LastPoint(d, start0, end0) && start.point == FirstPoint(d, start0, end0);
    SimplePoints(d, start0, end0);
    r := Some(SelectionRange(start.point, end.point, false));
  }

  /** The adjusted lower end: a left half is not covered, so the cell before it is the last one. */
  function LastPoint(d: Dimensions, s: Anchor, e: Anchor): Point
    requires 0 < d.columns
  {
    if e.side == Left && s.point != e.point then PreviousCell(d, e.point) else e.point
  }

  /** The adjusted upper end, after the lower one. */
  function FirstPoint(d: Dimensions, s: Anchor, e: Anchor): Point
    requires 0 < d.columns
  {
    if s.side == Right && s.point != LastPoint(d, s, e) then NextCell(d, s.point) else s.point
  }

  lemma SimplePoints(d: Dimensions, s: Anchor, e: Anchor)
    requires InRow(d, s.point) && InRow(d, e.point) && !Before(e.point, s.point)
    ensures s.point == e.point || Adjoining(d, s, e) ==> FirstPoint(d, s, e) == LastPoint(d, s, e) == s.point
    ensures s.point != e.point && !Adjoining(d, s, e) ==>
              && FirstPoint(d, s, e) == AtIndex(d, FirstCovered(Half(d, s), Half(d, e)))
              && LastPoint(d, s, e) == AtIndex(d, LastCovered(Half(d, s), Half(d, e)))
  {
    PointIndices(d, s, e);
    OrderIsIndexOrder(d, s.point, e.point);
    IndexUnique(d, FirstPoint(d, s, e));
    IndexUnique(d, LastPoint(d, s, e));
    hide Index, AtIndex, Before, FirstPoint, LastPoint, InRow;
    var i, j := Index(d, s.point), Index(d, e.point);
    assert s.point != e.point ==> i < j;
  }

  lemma PointIndices(d: Dimensions, s: Anchor, e: Anchor)
    requires InRow(d, s.point) && InRow(d, e.point) && !Before(e.point, s.point)
    ensures InRow(d, FirstPoint(d, s, e)) && InRow(d, LastPoint(d, s, e))
    ensures var j := Index(d, e.point) - if e.side == Left && s.point != e.point then 1 else 0;
            && Index(d, LastPoint(d, s, e)) == j
            && Index(d, FirstPoint(d, s, e))
               == Index(d, s.point) + if s.side == Right && Index(d, s.point) != j then 1 else 0
    ensures Adjoining(d, s, e) || s.point == e.point ==> FirstPoint(d, s, e) == LastPoint(d, s, e) == s.point
  {
    OrderIsIndexOrder(d, s.point, e.point);
    Neighbours(d, s.point);
    Neighbours(d, e.point);
    OrderIsIndexOrder(d, s.point, LastPoint(d, s, e));
    hide Index, AtIndex, Before, NextCell, PreviousCell;
    assert s.point == LastPoint(d, s, e) <==> Index(d, s.point) == Index(d, LastPoint(d, s, e));
  }

  /** `Selection::range_block`, on anchors already ordered by point and clamped. */
  method RangeBlock(sel: Selection, start0: Anchor, end0: Anchor) returns (r: Option<SelectionRange>)
    ensures r == if sel.IsEmpty() then None else Some(BlockRange(start0, end0))
  {
    var start, end := start0, end0;
    if sel.IsEmpty() {
      return None;
    }
    if start.point.column > end.point.column {
      var side, column := start.side, start.point.column;
      start := Anchor(start.point.(column := end.point.column), end.side);
      end := Anchor(end.point.(column := column), side);
    }
    if end.side == Left && start.point != end.point && end.point.column > 0 {
      end := end.(point := end.point.(column := end.point.column - 1));
    }
    if start.side == Right && start.point != end.point {
      start := start.(point := start.point.(column := start.point.column + 1));
    }
    r := Some(SelectionRange(start.point, end.point, true));
  }

  lemma ClampKeepsOrder(d: Dimensions, sel: Selection)
    requires d.Valid()
    ensures var s, e := ClampAnchor(d, sel.Upper()).point, ClampAnchor(d, sel.Lower()).point;
            !Before(e, s)
  {
    var s, e := CutToRow(d, sel.Upper().point), CutToRow(d, sel.Lower().point);
    assert !Before(e, s);
    OrderIsIndexOrder(d, e, s);
    ClampMonotone(d, s, e);
  }

  lemma ClampMonotone(d: Dimensions, s: Point, e: Point)
    requires d.Valid() && Index(d, s) <= Index(d, e)
    ensures !Before(Shifted(d, Grid, e, 0), Shifted(d, Grid, s, 0))
  {
    GridNotEmpty(d);
    assert ClampIndex(d, Grid, Index(d, s)) <= ClampIndex(d, Grid, Index(d, e));
    OrderIsIndexOrder(d, Shifted(d, Grid, e, 0), Shifted(d, Grid, s, 0));
  }

  lemma ClampInGrid(d: Dimensions, a: Anchor)
    requires d.Valid()
    ensures InGrid(d, ClampAnchor(d, a).point)
    ensures InGrid(d, a.point) ==> ClampAnchor(d, a) == a
  {
    ClampedInGrid(d, Grid, CutToRow(d, a.point), 0);
    if InGrid(d, a.point) {
      ShiftByZero(d, Grid, a.point);
    }
  }

  // ------------------------------------------------------------------ simple selections

  lemma ContainsIsInterval(d: Dimensions, range: SelectionRange, p: Point)
    requires !range.isBlock && InRow(d, range.start) && InRow(d, range.end) && InRow(d, p)
    ensures range.Contains(p) <==> Index(d, range.start) <= Index(d, p) <= Index(d, range.end)
  {
    OrderIsIndexOrder(d, p, range.start);
    OrderIsIndexOrder(d, range.end, p);
  }

  /** The covered cells of two grid anchors form the interval named by `SimpleResult`. */
  lemma CoveredRangeSelects(d: Dimensions, a: Anchor, b: Anchor, range: SelectionRange)
    requires d.Valid() && InGrid(d, a.point) && InGrid(d, b.point) && !range.isBlock
    requires FirstCovered(Half(d, a), Half(d, b)) <= LastCovered(Half(d, a), Half(d, b))
    requires range.start == AtIndex(d, FirstCovered(Half(d, a), Half(d, b)))
    requires range.end == AtIndex(d, LastCovered(Half(d, a), Half(d, b)))
    ensures SelectsCoveredCells(d, a, b, Some(range))
  {
    var lo, hi := FirstCovered(Half(d, a), Half(d, b)), LastCovered(Half(d, a), Half(d, b));
    forall p | InGrid(d, p)
      ensures Selects(Some(range), p) <==> Covered(Half(d, a), Half(d, b), Index(d, p))
    {
      ContainsIsInterval(d, range, p);
      CoveredInterval(Half(d, a), Half(d, b), Index(d, p));
    }
    GridIsInterval(d, a.point);
    GridIsInterval(d, b.point);
    GridIsInterval(d, range.start);
    CoveredInterval(Half(d, a), Half(d, b), lo);
    assert Covered(Half(d, a), Half(d, b), Index(d, range.start));
  }

  lemma NothingCovered(d: Dimensions, a: Anchor, b: Anchor)
    requires FirstCovered(Half(d, a), Half(d, b)) > LastCovered(Half(d, a), Half(d, b))
    ensures SelectsCoveredCells(d, a, b, None)
  {
    forall p | InGrid(d, p)
      ensures !Covered(Half(d, a), Half(d, b), Index(d, p))
    {
      CoveredInterval(Half(d, a), Half(d, b), Index(d, p));
    }
  }

  /** The upper anchor ends one row on its right half and the lower one starts the next on its left half. */
  predicate StraddlesRowEnd(d: Dimensions, sel: Selection) {
    var s, e := sel.Upper(), sel.Lower();
    s.side == Right && e.side == Left && s.point.line + 1 == e.point.line
    && s.point.column == d.LastColumn() && e.point.column == 0
  }

  lemma AdjoiningAnchors(d: Dimensions, sel: Selection)
    requires d.Valid() && AnchorsInGrid(d, sel) && sel.ty.Simple?
    ensures var s, e := sel.Upper(), sel.Lower();
            Adjoining(d, s, e) <==> StraddlesRowEnd(d, sel) || (sel.IsEmpty() && s != e)
  {
    var s, e := sel.Upper(), sel.Lower();
    var next := if s.point.column == d.LastColumn() then Point(s.point.line + 1, 0)
                else Point(s.point.line, s.point.column + 1);
    MultiplySuccessor(s.point.line, d.columns);
    OrderIsIndexOrder(d, next, e.point);
  }

  /**
   A simple selection with both anchors in the grid selects exactly the fully covered cells, except
   for the one configuration in which two adjoining halves lie on different rows: the emptiness test
   compares columns within one line only, and the upper cell is selected although half of it is outside.
   */
  lemma SimpleSelectionExact(d: Dimensions, sel: Selection)
    requires d.Valid() && AnchorsInGrid(d, sel) && sel.ty.Simple?
    ensures SelectsCoveredCells(d, sel.start, sel.end, SimpleResult(d, sel)) <==> !StraddlesRowEnd(d, sel)
  {
    var s, e := sel.Upper(), sel.Lower();
    var r := SimpleResult(d, sel);
    CoverageIgnoresOrder(d, s, e, r);
    hide Index, AtIndex, Half, Covered, FirstCovered, LastCovered, ClampAnchor, Adjoining;
    if StraddlesRowEnd(d, sel) {
      StraddlingSelectsHalfCell(d, sel);
    } else if sel.IsEmpty() {
      EmptyCoversNothing(d, sel);
    } else {
      SimpleResultOnGrid(d, sel);
      CoveredRangeSelects(d, s, e, r.value);
    }
  }

  lemma EmptyCoversNothing(d: Dimensions, sel: Selection)
    requires d.Valid() && AnchorsInGrid(d, sel) && sel.ty.Simple? && sel.IsEmpty()
    ensures SelectsCoveredCells(d, sel.Upper(), sel.Lower(), None)
  {
    AdjoiningAnchors(d, sel);
    NothingCovered(d, sel.Upper(), sel.Lower());
  }

  lemma SimpleResultOnGrid(d: Dimensions, sel: Selection)
    requires d.Valid() && AnchorsInGrid(d, sel) && sel.ty.Simple?
    requires !sel.IsEmpty() && !StraddlesRowEnd(d, sel)
    ensures var a, b := Half(d, sel.Upper()), Half(d, sel.Lower());
            && FirstCovered(a, b) <= LastCovered(a, b)
            && SimpleResult(d, sel)
               == Some(SelectionRange(AtIndex(d, FirstCovered(a, b)), AtIndex(d, LastCovered(a, b)), false))
  {
    var s, e := sel.Upper(), sel.Lower();
    ClampInGrid(d, s);
    ClampInGrid(d, e);
    AdjoiningAnchors(d, sel);
    CoversSomething(d, s, e);
    IndexUnique(d, s.point);
  }

  lemma CoversSomething(d: Dimensions, s: Anchor, e: Anchor)
    requires InRow(d, s.point) && InRow(d, e.point) && !Before(e.point, s.point) && !Adjoining(d, s, e)
    requires s.point == e.point ==> s.side != e.side
    ensures FirstCovered(Half(d, s), Half(d, e)) <= LastCovered(Half(d, s), Half(d, e))
    ensures s.point == e.point ==>
              FirstCovered(Half(d, s), Half(d, e)) == LastCovered(Half(d, s), Half(d, e)) == Index(d, s.point)
  {
    OrderIsIndexOrder(d, s.point, e.point);
  }

  lemma CoverageIgnoresOrder(d: Dimensions, a: Anchor, b: Anchor, r: Option<SelectionRange>)
    ensures SelectsCoveredCells(d, a, b, r) <==> SelectsCoveredCells(d, b, a, r)
  {
    assert forall i :: Covered(Half(d, a), Half(d, b), i) <==> Covered(Half(d, b), Half(d, a), i);
  }

  /** In the straddling case the last cell of the upper row is selected although no cell is covered. */
  lemma StraddlingSelectsHalfCell(d: Dimensions, sel: Selection)
    requires d.Valid() && AnchorsInGrid(d, sel) && sel.ty.Simple? && StraddlesRowEnd(d, sel)
    ensures SimpleResult(d, sel) == Some(SelectionRange(sel.Upper().point, sel.Upper().point, false))
    ensures SelectsCoveredCells(d, sel.start, sel.end, None)
  {
    ClampInGrid(d, sel.Upper());
    ClampInGrid(d, sel.Lower());
    AdjoiningAnchors(d, sel);
    NothingCovered(d, sel.start, sel.end);
  }

  /** The straddling case on a 2x2 screen: from the end of row 0 to the start of row 1. */
  lemma StraddlingExample()
    ensures var d := Dimensions(2, 2, 2);
            var sel := Selection(Simple, Anchor(Point(0, 1), Right), Anchor(Point(1, 0), Left));
            && AnchorsInGrid(d, sel)
            && SimpleResult(d, sel) == Some(SelectionRange(Point(0, 1), Point(0, 1), false))
            && SelectsCoveredCells(d, sel.start, sel.end, None)
  {
    var sel := Selection(Simple, Anchor(Point(0, 1), Right), Anchor(Point(1, 0), Left));
    StraddlingSelectsHalfCell(Dimensions(2, 2, 2), sel);
  }

  /** Neither result depends on which anchor the drag started from. */
  lemma {:induction false} DragDirectionIrrelevant(d: Dimensions, sel: Selection)
    requires d.Valid()
    ensures sel.ty.Simple? ==> SimpleResult(d, sel) == SimpleResult(d, sel.Reversed())
    ensures sel.ty.Block? ==> BlockResult(d, sel) == BlockResult(d, sel.Reversed())
  {
    if sel.start.point == sel.end.point {
      assert ClampAnchor(d, sel.start).point == ClampAnchor(d, sel.end).point;
    } else {
      assert sel.Upper() == sel.Reversed().Upper() && sel.Lower() == sel.Reversed().Lower();
    }
  }

  /**
   A selection whose upper anchor has scrolled out of the history keeps that anchor's side after being
   clamped to the first cell. Every cell up to the lower anchor should then be selected; it is, exactly
   when the kept side is the left one, with two exceptions on the first two cells.
   */
  lemma ScrolledOffSelectionExact(d: Dimensions, sel: Selection)
    requires d.Valid() && sel.ty.Simple? && InRow(d, sel.Upper().point) && InGrid(d, sel.Lower().point)
    requires sel.Upper().point.line < d.TopmostLine()
    ensures var e := sel.Lower();
            var first := Point(d.TopmostLine(), 0);
            (forall p | InGrid(d, p) ::
               Selects(SimpleResult(d, sel), p) <==> 2 * Index(d, p) + 1 <= Half(d, e))
            <==> if e.point == first then e.side == Right
                 else sel.Upper().side == Left || Adjoining(d, Anchor(first, Right), e)
  {
    var e, first := sel.Lower(), Point(d.TopmostLine(), 0);
    var s := ClampAnchor(d, sel.Upper());
    var r := SimpleResult(d, sel);
    ClampedPoint(d, Grid, sel.Upper().point);
    assert s.point == first;
    ClampInGrid(d, e);
    GridIsInterval(d, e.point);
    OrderIsIndexOrder(d, first, e.point);
    IndexUnique(d, first);
    if sel.IsEmpty() {
      assert false;
    }
    forall p | InGrid(d, p)
      ensures Index(d, first) <= Index(d, p)
      ensures r.value.Contains(p) <==> Index(d, r.value.start) <= Index(d, p) <= Index(d, r.value.end)
    {
      GridIsInterval(d, p);
      ContainsIsInterval(d, r.value, p);
    }
    assert InGrid(d, first);
  }

  /** On a 2x2 screen, from the right half of a cell that has scrolled off to the second cell. */
  lemma ScrolledOffExample(d: Dimensions, sel: Selection)
    requires d == Dimensions(2, 2, 2)
    requires sel == Selection(Simple, Anchor(Point(-1, 0), Right), Anchor(Point(0, 1), Right))
    ensures !forall p | InGrid(d, p) ::
               Selects(SimpleResult(d, sel), p) <==> 2 * Index(d, p) + 1 <= Half(d, sel.Lower())
  {
    ScrolledOffSelectionExact(d, sel);
  }

  // ------------------------------------------------------------------ block selections

  /**
   A block selection with both anchors in the grid selects exactly the fully covered columns of the
   spanned lines, and nothing exists only when no column is covered. The exception is the same column
   on different lines with the upper anchor on the right half and the lower one on the left half.
   */
  lemma BlockSelectionExact(d: Dimensions, sel: Selection)
    requires d.Valid() && AnchorsInGrid(d, sel) && sel.ty.Block?
    ensures SelectsCoveredBlock(d, sel, BlockResult(d, sel))
            <==> !(&& sel.Upper().point.column == sel.Lower().point.column
                   && sel.Upper().point.line != sel.Lower().point.line
                   && sel.Upper().side == Right && sel.Lower().side == Left)
  {
    var s, e := sel.Upper(), sel.Lower();
    ClampInGrid(d, s);
    ClampInGrid(d, e);
    if sel.IsEmpty() {
      assert forall c: int :: !Covered(ColumnHalf(sel.start), ColumnHalf(sel.end), c);
    } else {
      assert BlockResult(d, sel) == Some(BlockRange(s, e));
      BlockRangeExact(d, sel);
    }
  }

  lemma BlockRangeExact(d: Dimensions, sel: Selection)
    requires AnchorsInGrid(d, sel) && sel.ty.Block? && !sel.IsEmpty()
    ensures SelectsCoveredBlock(d, sel, Some(BlockRange(sel.Upper(), sel.Lower())))
            <==> !(&& sel.Upper().point.column == sel.Lower().point.column
                   && sel.Upper().point.line != sel.Lower().point.line
                   && sel.Upper().side == Right && sel.Lower().side == Left)
  {
    var s, e := sel.Upper(), sel.Lower();
    var a, b := ColumnHalf(sel.start), ColumnHalf(sel.end);
    var range := BlockRange(s, e);
    if s.point.column == e.point.column && s.point.line != e.point.line && s.side == Right && e.side == Left {
      assert InGrid(d, s.point) && !Selects(Some(range), s.point) && Covered(a, b, s.point.column);
    } else {
      BlockColumns(d, sel);
      hide BlockRange;
      assert Covered(a, b, FirstCovered(a, b));
      forall p | InGrid(d, p)
        ensures Selects(Some(range), p) <==> s.point.line <= p.line <= e.point.line && Covered(a, b, p.column)
      {
        CoveredInterval(a, b, p.column);
      }
    }
  }

  /** Down one column of a 2x2 screen, from the right half to the left half: nothing of it is selected. */
  lemma BlockExample(d: Dimensions, sel: Selection)
    requires d == Dimensions(2, 2, 2)
    requires sel == Selection(Block, Anchor(Point(0, 0), Right), Anchor(Point(1, 0), Left))
    ensures AnchorsInGrid(d, sel)
    ensures BlockResult(d, sel) == Some(SelectionRange(Point(0, 1), Point(1, 0), true))
    ensures Covered(ColumnHalf(sel.start), ColumnHalf(sel.end), 0)
    ensures !Selects(BlockResult(d, sel), Point(0, 0)) && !Selects(BlockResult(d, sel), Point(1, 0))
  {
    BlockResultOnGrid(d, sel);
    ExampleRange(sel.start, sel.end);
    hide BlockResult, BlockRange;
    assert sel.Upper() == sel.start && sel.Lower() == sel.end;
  }

  lemma ExampleRange(s: Anchor, e: Anchor)
    requires s == Anchor(Point(0, 0), Right) && e == Anchor(Point(1, 0), Left)
    ensures BlockRange(s, e) == SelectionRange(Point(0, 1), Point(1, 0), true)
  {
  }

  lemma BlockResultOnGrid(d: Dimensions, sel: Selection)
    requires d.Valid() && AnchorsInGrid(d, sel) && sel.ty.Block? && !sel.IsEmpty()
    ensures BlockResult(d, sel) == Some(BlockRange(sel.Upper(), sel.Lower()))
  {
    ClampInGrid(d, sel.Upper());
    ClampInGrid(d, sel.Lower());
  }

  lemma BlockColumns(d: Dimensions, sel: Selection)
    requires AnchorsInGrid(d, sel) && sel.ty.Block? && !sel.IsEmpty()
    requires sel.Upper().point.column == sel.Lower().point.column && sel.Upper().point.line != sel.Lower().point.line
             ==> sel.Upper().side == Left || sel.Lower().side == Right
    ensures var a, b := ColumnHalf(sel.start), ColumnHalf(sel.end);
            && 0 <= FirstCovered(a, b) <= LastCovered(a, b) && FirstCovered(a, b) < d.columns
            && BlockRange(sel.Upper(), sel.Lower())
               == SelectionRange(Point(sel.Upper().point.line, FirstCovered(a, b)),
                                 Point(sel.Lower().point.line, LastCovered(a, b)), true)
  {
  }

  // ------------------------------------------------------------------ scrolling

  predicate InRegion(top: int, bottom: int, line: int) {
    (line >= top || top == 0) && line < bottom
  }

  function ScrolledLine(d: Dimensions, line: int, delta: int): int {
    if line - delta <= d.BottommostLine() then line - delta else d.BottommostLine()
  }

  function RotatedUpper(d: Dimensions, ty: SelectionType, top: int, bottom: int, delta: int, s: Anchor): Anchor {
    if !InRegion(top, bottom, s.point.line) then s
    else
      var line := ScrolledLine(d, s.point.line, delta);
      if line >= top || top == 0 then s.(point := s.point.(line := line))
      else if ty == Block then s.(point := s.point.(line := top))
      else Anchor(Point(top, 0), Left)
  }

  function RotatedLower(d: Dimensions, ty: SelectionType, top: int, bottom: int, delta: int, e: Anchor): Anchor
    requires 0 < d.columns
  {
    if !InRegion(top, bottom, e.point.line) then e
    else
      var line := ScrolledLine(d, e.point.line, delta);
      if line < bottom then e.(point := e.point.(line := line))
      else if ty == Block then e.(point := e.point.(line := bottom - 1))
      else Anchor(Point(bottom - 1, d.LastColumn()), Right)
  }

  /** The selection is deleted when its upper end leaves below, or its lower end passes its upper end. */
  predicate RotatedAway(d: Dimensions, sel: Selection, top: int, bottom: int, delta: int) {
    var s, e := sel.Upper(), sel.Lower();
    || (InRegion(top, bottom, s.point.line) && e.point.line < bottom
        && ScrolledLine(d, s.point.line, delta) >= bottom)
    || (InRegion(top, bottom, e.point.line)
        && ScrolledLine(d, e.point.line, delta) < RotatedUpper(d, sel.ty, top, bottom, delta, s).point.line)
  }

  function Rotated(d: Dimensions, sel: Selection, top: int, bottom: int, delta: int): Option<Selection>
    requires 0 < d.columns
  {
    var s := RotatedUpper(d, sel.ty, top, bottom, delta, sel.Upper());
    var e := RotatedLower(d, sel.ty, top, bottom, delta, sel.Lower());
    if RotatedAway(d, sel, top, bottom, delta) then None
    else if Before(sel.end.point, sel.start.point) then Some(Selection(sel.ty, e, s))
    else Some(Selection(sel.ty, s, e))
  }

  /** `Selection::rotate`: scroll the lines `top..bottom` up by `delta` (down when negative). */
  method Rotate(sel: Selection, d: Dimensions, top: int, bottom: int, delta: int) returns (r: Option<Selection>)
    requires 0 < d.columns
    ensures r == Rotated(d, sel, top, bottom, delta)
  {
    var swapped := Before(sel.end.point, sel.start.point);
    var start, end := sel.start, sel.end;
    if swapped {
      start, end := end, start;
    }
    if (start.point.line >= top || top == 0) && start.point.line < bottom {
      var line := start.point.line - delta;
      start := start.(point := start.point.(line := if line <= d.BottommostLine() then line else d.BottommostLine()));
      if start.point.line >= bottom && end.point.line < bottom {
        return None;
      }
      if start.point.line < top && top != 0 {
        if sel.ty != Block {
          start := Anchor(start.point.(column := 0), Left);
        }
        start := start.(point := start.point.(line := top));
      }
    }
    if (end.point.line >= top || top == 0) && end.point.line < bottom {
      var line := end.point.line - delta;
      end := end.(point := end.point.(line := if line <= d.BottommostLine() then line else d.BottommostLine()));
      if end.point.line < start.point.line {
        return None;
      }
      if end.point.line >= bottom {
        if sel.ty != Block {
          end := Anchor(end.point.(column := d.LastColumn()), Right);
        }
        end := end.(point := end.point.(line := bottom - 1));
      }
    }
    r := Some(if swapped then Selection(sel.ty, end, start) else Selection(sel.ty, start, end));
  }

  function Between(lo: int, x: int, hi: int): int {
    if x < lo then lo else if x > hi then hi else x
  }

  /**
   Scrolling a region that starts below the first line, with both anchors inside: the selection survives
   exactly while some part of it is still in the region (a region ending at the bottom of the screen
   never loses it downwards), and then both lines are the shifted lines clamped to the region, in order.
   An anchor that was not cut off keeps its column and side.
   */
  lemma RotateInsideRegion(d: Dimensions, sel: Selection, top: int, bottom: int, delta: int)
    requires d.Valid() && 0 < top < bottom <= d.screenLines
    requires top <= sel.Upper().point.line && sel.Lower().point.line < bottom
    ensures var r := Rotated(d, sel, top, bottom, delta);
            var s, e := sel.Upper(), sel.Lower();
            && (r.None? <==> e.point.line - delta < top
                             || (s.point.line - delta >= bottom && bottom < d.screenLines))
            && (r.Some? ==>
                  var (s', e') := if s == sel.start then (r.value.start, r.value.end) else (r.value.end, r.value.start);
                  && s'.point.line == Between(top, s.point.line - delta, bottom - 1)
                  && e'.point.line == Between(top, e.point.line - delta, bottom - 1)
                  && top <= s'.point.line <= e'.point.line < bottom
                  && (s.point.line - delta >= top || sel.ty == Block ==>
                        s'.side == s.side && s'.point.column == s.point.column)
                  && (e.point.line - delta < bottom || sel.ty == Block ==>
                        e'.side == e.side && e'.point.column == e.point.column))
  {
  }

  /** Scrolling the whole screen up moves both anchors exactly, into the history, and never deletes. */
  lemma RotateScreenUp(d: Dimensions, sel: Selection, delta: nat)
    requires d.Valid() && sel.Lower().point.line < d.screenLines
    ensures Rotated(d, sel, 0, d.screenLines, delta)
            == Some(Selection(sel.ty,
                              sel.start.(point := sel.start.point.(line := sel.start.point.line - delta)),
                              sel.end.(point := sel.end.point.(line := sel.end.point.line - delta))))
  {
    assert sel.Upper().point.line <= sel.Lower().point.line;
  }

  /** Scrolling the screen up by a and then by b is scrolling it up by a + b. */
  lemma {:induction false} RotateScreenComposes(d: Dimensions, sel: Selection, a: nat, b: nat)
    requires d.Valid() && sel.Lower().point.line < d.screenLines
    ensures Rotated(d, sel, 0, d.screenLines, a).Some?
    ensures Rotated(d, Rotated(d, sel, 0, d.screenLines, a).value, 0, d.screenLines, b)
            == Rotated(d, sel, 0, d.screenLines, a + b)
  {
    RotateScreenUp(d, sel, a);
    RotateScreenUp(d, sel, a + b);
    RotateScreenUp(d, Rotated(d, sel, 0, d.screenLines, a).value, b);
  }

  /** Rotation treats the two drag directions alike and leaves lines outside the region alone. */
  lemma RotateIgnoresDragDirection(d: Dimensions, sel: Selection, top: int, bottom: int, delta: int)
    requires d.Valid() && top < bottom
    ensures var r, r' := Rotated(d, sel, top, bottom, delta), Rotated(d, sel.Reversed(), top, bottom, delta);
            if r.None? then r'.None? else r' == Some(r.value.Reversed())
    ensures !InRegion(top, bottom, sel.start.point.line) && !InRegion(top, bottom, sel.end.point.line) ==>
              Rotated(d, sel, top, bottom, delta) == Some(sel)
  {
  }

  // ------------------------------------------------------------------ what rotation does to the covered cells

  /** The cell lies behind the half that the anchor sits in. */
  predicate Behind(a: Anchor, p: Point) {
    a.point.line < p.line || (a.point.line == p.line && ColumnHalf(a) <= 2 * p.column)
  }

  predicate InFront(p: Point, a: Anchor) {
    p.line < a.point.line || (p.line == a.point.line && 2 * p.column + 1 <= ColumnHalf(a))
  }

  /** Both halves of the cell lie between the anchors. */
  predicate CoversCell(sel: Selection, p: Point) {
    (Behind(sel.start, p) && InFront(p, sel.end)) || (Behind(sel.end, p) && InFront(p, sel.start))
  }

  lemma HalfOrder(d: Dimensions, a: Anchor, p: Point)
    requires InRow(d, a.point) && InRow(d, p)
    ensures Half(d, a) <= 2 * Index(d, p) <==> Behind(a, p)
    ensures 2 * Index(d, p) + 1 <= Half(d, a) <==> InFront(p, a)
  {
    OrderIsIndexOrder(d, a.point, p);
    OrderIsIndexOrder(d, p, a.point);
  }

  /** That is coverage in half-cell coordinates. */
  lemma CoversCellIsCovered(d: Dimensions, sel: Selection, p: Point)
    requires InRow(d, sel.start.point) && InRow(d, sel.end.point) && InRow(d, p)
    ensures CoversCell(sel, p) <==> Covered(Half(d, sel.start), Half(d, sel.end), Index(d, p))
  {
    HalfOrder(d, sel.start, p);
    HalfOrder(d, sel.end, p);
    hide Half, Index;
  }

  /** The line lies between the lines of the anchors. */
  predicate SpansLine(sel: Selection, line: int) {
    sel.Upper().point.line <= line <= sel.Lower().point.line
  }

  /** The cell lies in the rectangle between the anchors. */
  predicate CoversBlockCell(sel: Selection, p: Point) {
    SpansLine(sel, p.line) && Covered(ColumnHalf(sel.start), ColumnHalf(sel.end), p.column)
  }

  predicate StillCovers(r: Option<Selection>, p: Point) {
    r.Some? && if r.value.ty == Block then CoversBlockCell(r.value, p) else CoversCell(r.value, p)
  }

  /**
   What scrolling the lines `top..bottom` up by `delta` should select on a line of the region, if `before`
   says what was selected where its text comes from. A line that text from outside the region would have to
   fill is new, and belongs to the selection exactly if that reaches across this end of the region.
   */
  predicate Expected(sel: Selection, top: int, bottom: int, delta: int, line: int, before: bool) {
    if InRegion(top, bottom, line + delta) then before
    else if line + delta >= bottom then sel.Upper().point.line < bottom <= sel.Lower().point.line
    else sel.Upper().point.line < top <= sel.Lower().point.line
  }

  /** The anchor is scrolled down off the screen; it is then kept on the last line, with its column and side. */
  predicate FallsOff(d: Dimensions, top: int, bottom: int, delta: int, a: Anchor) {
    bottom == d.screenLines && InRegion(top, bottom, a.point.line) && a.point.line - delta >= bottom
  }

  predicate AtRowEnd(d: Dimensions, a: Anchor) { a.point.column == d.LastColumn() && a.side == Right }

  /** Some cell of a line has both halves between the columns of the anchors. */
  predicate CoversColumns(sel: Selection) {
    FirstCovered(ColumnHalf(sel.start), ColumnHalf(sel.end)) <= LastCovered(ColumnHalf(sel.start), ColumnHalf(sel.end))
  }

  /**
   The anchors that fall off the screen show: both do, and cover cells of the last line that scrolled away;
   or only the lower one does, and the last line ends at its column.
   */
  predicate FallShows(d: Dimensions, sel: Selection, top: int, bottom: int, delta: int) {
    && FallsOff(d, top, bottom, delta, sel.Lower())
    && if FallsOff(d, top, bottom, delta, sel.Upper()) then CoversColumns(sel)
       else sel.ty != Block && !AtRowEnd(d, sel.Lower())
  }

  ghost predicate Scrolls(d: Dimensions, sel: Selection, top: int, bottom: int) {
    && d.Valid() && 0 <= top < bottom <= d.screenLines && sel.Lower().point.line < d.screenLines
    && InRow(d, sel.start.point) && InRow(d, sel.end.point)
  }

  /** Rotation treats this cell of the region as it should. */
  ghost predicate RotatesRight(d: Dimensions, sel: Selection, top: int, bottom: int, delta: int, p: Point)
    requires 0 < d.columns
  {
    StillCovers(Rotated(d, sel, top, bottom, delta), p)
    <==> if sel.ty == Block then
           Expected(sel, top, bottom, delta, p.line, SpansLine(sel, p.line + delta))
           && Covered(ColumnHalf(sel.start), ColumnHalf(sel.end), p.column)
         else Expected(sel, top, bottom, delta, p.line, CoversCell(sel, Up(p, -delta)))
  }

  /**
   The cells of a region covered after it scrolled are exactly the ones that were covered before and are still
   in the region, moved by as many lines, and those of new lines that the selection reaches across: for
   selections inside the region or across its ends, for anchors cut off at an end, for removed selections,
   and for block selections. The exception are anchors that fall off the bottom of the screen.
   */
  lemma RotationMovesCells(d: Dimensions, sel: Selection, top: int, bottom: int, delta: int)
    requires Scrolls(d, sel, top, bottom)
    ensures (forall p | InRow(d, p) && InRegion(top, bottom, p.line) :: RotatesRight(d, sel, top, bottom, delta, p))
            <==> !FallShows(d, sel, top, bottom, delta)
  {
    if FallShows(d, sel, top, bottom, delta) {
      var p := ShowingCell(d, sel, top, bottom, delta);
    } else {
      forall p | InRow(d, p) && InRegion(top, bottom, p.line)
        ensures RotatesRight(d, sel, top, bottom, delta, p)
      {
        if sel.ty == Block {
          BlockCellMoves(d, sel, top, bottom, delta, p);
        } else {
          CellMoves(d, sel, top, bottom, delta, p);
        }
      }
    }
  }

  /** Where the upper anchor goes, seen from a cell of the region. */
  lemma UpperMoves(d: Dimensions, ty: SelectionType, top: int, bottom: int, delta: int, s: Anchor, p: Point)
    requires d.Valid() && 0 <= top < bottom <= d.screenLines && InRow(d, s.point) && InRow(d, p)
    requires InRegion(top, bottom, p.line) && !FallsOff(d, top, bottom, delta, s)
    ensures var s', l := RotatedUpper(d, ty, top, bottom, delta, s), p.line + delta;
            && (s'.point.line <= p.line <==> if InRegion(top, bottom, l) then s.point.line <= l
                                             else s.point.line < if l >= bottom then bottom else top)
            && (ty != Block ==>
                  (Behind(s', p) <==> if InRegion(top, bottom, l) then Behind(s, Up(p, -delta))
                                      else s.point.line < if l >= bottom then bottom else top))
  {
  }

  /** Where the lower anchor goes. */
  lemma LowerMoves(d: Dimensions, ty: SelectionType, top: int, bottom: int, delta: int, e: Anchor, p: Point)
    requires d.Valid() && 0 <= top < bottom <= d.screenLines && InRow(d, e.point) && InRow(d, p)
    requires InRegion(top, bottom, p.line)
    ensures var e', l := RotatedLower(d, ty, top, bottom, delta, e), p.line + delta;
            && (p.line <= e'.point.line <==> if InRegion(top, bottom, l) then l <= e.point.line
                                             else e.point.line >= if l >= bottom then bottom else top)
            && (ty != Block && (FallsOff(d, top, bottom, delta, e) ==> AtRowEnd(d, e)) ==>
                  (InFront(p, e') <==> if InRegion(top, bottom, l) then InFront(Up(p, -delta), e)
                                       else e.point.line >= if l >= bottom then bottom else top))
  {
  }

  /** The anchors change places only below the region. */
  lemma OrderKept(d: Dimensions, sel: Selection, top: int, bottom: int, delta: int, p: Point)
    requires Scrolls(d, sel, top, bottom) && InRow(d, p) && InRegion(top, bottom, p.line)
    requires !RotatedAway(d, sel, top, bottom, delta) && !FallsOff(d, top, bottom, delta, sel.Upper())
    requires !FallShows(d, sel, top, bottom, delta)
    ensures var s' := RotatedUpper(d, sel.ty, top, bottom, delta, sel.Upper());
            var e' := RotatedLower(d, sel.ty, top, bottom, delta, sel.Lower());
            && (e'.point.line <= p.line <= s'.point.line ==> s'.point.line <= p.line <= e'.point.line)
            && (sel.ty != Block && sel.start.point != sel.end.point && Behind(e', p) && InFront(p, s') ==>
                  Behind(s', p) && InFront(p, e'))
  {
    assert !Before(sel.Lower().point, sel.Upper().point);
  }

  /** A removed selection has no cell left in the region. */
  lemma RemovedIsGone(d: Dimensions, sel: Selection, top: int, bottom: int, delta: int, line: int)
    requires Scrolls(d, sel, top, bottom) && InRegion(top, bottom, line) && RotatedAway(d, sel, top, bottom, delta)
    ensures !Expected(sel, top, bottom, delta, line, SpansLine(sel, line + delta))
  {
  }

  /** With both anchors fallen off, nothing of the region was selected. */
  lemma FallenIsGone(d: Dimensions, sel: Selection, top: int, bottom: int, delta: int, line: int)
    requires Scrolls(d, sel, top, bottom) && InRegion(top, bottom, line)
    requires FallsOff(d, top, bottom, delta, sel.Upper())
    ensures !Expected(sel, top, bottom, delta, line, SpansLine(sel, line + delta))
    ensures FallsOff(d, top, bottom, delta, sel.Lower())
    ensures var s' := RotatedUpper(d, sel.ty, top, bottom, delta, sel.Upper());
            var e' := RotatedLower(d, sel.ty, top, bottom, delta, sel.Lower());
            && s' == sel.Upper().(point := sel.Upper().point.(line := bottom - 1))
            && e' == sel.Lower().(point := sel.Lower().point.(line := bottom - 1))
  {
  }

  /** A covered cell lies on a line between the anchors. */
  lemma CoveredOnLine(sel: Selection, p: Point)
    requires sel.start.point != sel.end.point
    ensures CoversCell(sel, p) <==> Behind(sel.Upper(), p) && InFront(p, sel.Lower())
    ensures CoversCell(sel, p) ==> SpansLine(sel, p.line)
  {
  }

  /** Two anchors in one cell move together. */
  lemma OnePointMoves(d: Dimensions, sel: Selection, top: int, bottom: int, delta: int, p: Point)
    requires Scrolls(d, sel, top, bottom) && sel.ty != Block && !FallShows(d, sel, top, bottom, delta)
    requires InRow(d, p) && InRegion(top, bottom, p.line) && sel.start.point == sel.end.point
    ensures RotatesRight(d, sel, top, bottom, delta, p)
  {
  }

  lemma CellMoves(d: Dimensions, sel: Selection, top: int, bottom: int, delta: int, p: Point)
    requires Scrolls(d, sel, top, bottom) && sel.ty != Block && !FallShows(d, sel, top, bottom, delta)
    requires InRow(d, p) && InRegion(top, bottom, p.line)
    ensures RotatesRight(d, sel, top, bottom, delta, p)
  {
    if sel.start.point == sel.end.point {
      OnePointMoves(d, sel, top, bottom, delta, p);
      return;
    }
    CoveredOnLine(sel, Up(p, -delta));
    if FallsOff(d, top, bottom, delta, sel.Upper()) {
      FallenIsGone(d, sel, top, bottom, delta, p.line);
    } else if RotatedAway(d, sel, top, bottom, delta) {
      RemovedIsGone(d, sel, top, bottom, delta, p.line);
    } else {
      UpperMoves(d, sel.ty, top, bottom, delta, sel.Upper(), p);
      LowerMoves(d, sel.ty, top, bottom, delta, sel.Lower(), p);
      OrderKept(d, sel, top, bottom, delta, p);
      hide RotatedUpper, RotatedLower, RotatedAway, Behind, InFront, Scrolls, InRegion;
      assert RotatesRight(d, sel, top, bottom, delta, p);
    }
  }

  lemma BlockCellMoves(d: Dimensions, sel: Selection, top: int, bottom: int, delta: int, p: Point)
    requires Scrolls(d, sel, top, bottom) && sel.ty == Block && !FallShows(d, sel, top, bottom, delta)
    requires InRow(d, p) && InRegion(top, bottom, p.line)
    ensures RotatesRight(d, sel, top, bottom, delta, p)
  {
    CoveredInterval(ColumnHalf(sel.start), ColumnHalf(sel.end), p.column);
    if FallsOff(d, top, bottom, delta, sel.Upper()) {
      FallenIsGone(d, sel, top, bottom, delta, p.line);
    } else if RotatedAway(d, sel, top, bottom, delta) {
      RemovedIsGone(d, sel, top, bottom, delta, p.line);
    } else {
      UpperMoves(d, sel.ty, top, bottom, delta, sel.Upper(), p);
      LowerMoves(d, sel.ty, top, bottom, delta, sel.Lower(), p);
      OrderKept(d, sel, top, bottom, delta, p);
      BlockColumnsKept(d, sel, top, bottom, delta, p.column);
      hide RotatedUpper, RotatedLower, RotatedAway, Covered, Scrolls, InRegion;
      assert RotatesRight(d, sel, top, bottom, delta, p);
    }
  }

  /** The anchors of a block selection keep their columns and sides. */
  lemma BlockColumnsKept(d: Dimensions, sel: Selection, top: int, bottom: int, delta: int, column: int)
    requires 0 < d.columns && sel.ty == Block && Rotated(d, sel, top, bottom, delta).Some?
    ensures var r := Rotated(d, sel, top, bottom, delta).value;
            r.ty == Block && (Covered(ColumnHalf(r.start), ColumnHalf(r.end), column)
                              <==> Covered(ColumnHalf(sel.start), ColumnHalf(sel.end), column))
  {
  }

  /** A cell of the last line that gives the fall away. */
  lemma ShowingCell(d: Dimensions, sel: Selection, top: int, bottom: int, delta: int) returns (p: Point)
    requires Scrolls(d, sel, top, bottom) && FallShows(d, sel, top, bottom, delta)
    ensures InRow(d, p) && InRegion(top, bottom, p.line) && !RotatesRight(d, sel, top, bottom, delta, p)
  {
    if FallsOff(d, top, bottom, delta, sel.Upper()) {
      p := Point(bottom - 1, FirstCovered(ColumnHalf(sel.start), ColumnHalf(sel.end)));
    } else {
      p := Point(bottom - 1, d.LastColumn());
    }
  }


  /** The lower anchor scrolls up out of the region, into lines above it that stay, and takes cells of them along. */
  predicate LeaksAbove(d: Dimensions, sel: Selection, top: int, bottom: int, delta: int) {
    var s, e := sel.Upper(), sel.Lower();
    var line := e.point.line - delta;
    && s.point.line < top && top != 0 && InRegion(top, bottom, e.point.line) && line < top
    && if sel.ty == Block then CoversColumns(sel) && line < top - 1
       else if line < s.point.line then !(s.point.line == top - 1 && AtRowEnd(d, s))
       else !(line == top - 1 && AtRowEnd(d, e))
  }

  /** The upper anchor scrolls down out of the region, into lines below it that stay. */
  predicate LeaksBelow(d: Dimensions, sel: Selection, top: int, bottom: int, delta: int) {
    var s, e := sel.Upper(), sel.Lower();
    var line := ScrolledLine(d, s.point.line, delta);
    && InRegion(top, bottom, s.point.line) && bottom <= e.point.line && bottom <= line
    && if sel.ty == Block then CoversColumns(sel) && line != bottom
       else !(line == bottom && s.point.column == 0 && s.side == Left)
  }

  /** Rotation leaves this cell outside the region as it was. */
  ghost predicate StaysAsItWas(d: Dimensions, sel: Selection, top: int, bottom: int, delta: int, p: Point)
    requires 0 < d.columns
  {
    StillCovers(Rotated(d, sel, top, bottom, delta), p)
    <==> if sel.ty == Block then CoversBlockCell(sel, p) else CoversCell(sel, p)
  }

  /**
   Outside the region the same cells are covered as before, exactly unless an anchor scrolls out of the region
   towards the other one, which has not moved.
   */
  lemma RotationKeepsOtherCells(d: Dimensions, sel: Selection, top: int, bottom: int, delta: int)
    requires Scrolls(d, sel, top, bottom)
    ensures (forall p | InRow(d, p) && !InRegion(top, bottom, p.line) :: StaysAsItWas(d, sel, top, bottom, delta, p))
            <==> !LeaksAbove(d, sel, top, bottom, delta) && !LeaksBelow(d, sel, top, bottom, delta)
  {
    if LeaksAbove(d, sel, top, bottom, delta) {
      var p := LeftAbove(d, sel, top, bottom, delta);
    } else if LeaksBelow(d, sel, top, bottom, delta) {
      var p := LeftBelow(d, sel, top, bottom, delta);
    } else {
      forall p | InRow(d, p) && !InRegion(top, bottom, p.line)
        ensures StaysAsItWas(d, sel, top, bottom, delta, p)
      {
        OtherCell(d, sel, top, bottom, delta, p);
      }
    }
  }

  /**
   On a 4x2 screen whose lines 1 and 2 scroll up by one, from the start of line 0 to the first cell of line 1:
   the second cell of line 0 has not moved and is no longer covered.
   */
  lemma LeakExample(d: Dimensions, sel: Selection)
    requires d == Dimensions(4, 4, 2)
    requires sel == Selection(Simple, Anchor(Point(0, 0), Left), Anchor(Point(1, 0), Right))
    ensures CoversCell(sel, Point(0, 1)) && Rotated(d, sel, 1, 3, 1).Some?
    ensures !StillCovers(Rotated(d, sel, 1, 3, 1), Point(0, 1))
  {
  }

  lemma LeftAbove(d: Dimensions, sel: Selection, top: int, bottom: int, delta: int) returns (p: Point)
    requires Scrolls(d, sel, top, bottom) && LeaksAbove(d, sel, top, bottom, delta)
    ensures InRow(d, p) && !InRegion(top, bottom, p.line) && !StaysAsItWas(d, sel, top, bottom, delta, p)
  {
    var column := FirstCovered(ColumnHalf(sel.start), ColumnHalf(sel.end));
    p := Point(top - 1, if sel.ty == Block then column else d.LastColumn());
  }

  lemma LeftBelow(d: Dimensions, sel: Selection, top: int, bottom: int, delta: int) returns (p: Point)
    requires Scrolls(d, sel, top, bottom) && LeaksBelow(d, sel, top, bottom, delta)
    ensures InRow(d, p) && !InRegion(top, bottom, p.line) && !StaysAsItWas(d, sel, top, bottom, delta, p)
  {
    if sel.ty == Block {
      var line := if sel.Lower().point.line == bottom then ScrolledLine(d, sel.Upper().point.line, delta) else bottom;
      p := Point(line, FirstCovered(ColumnHalf(sel.start), ColumnHalf(sel.end)));
    } else {
      p := Point(bottom, 0);
    }
  }

  lemma OtherCell(d: Dimensions, sel: Selection, top: int, bottom: int, delta: int, p: Point)
    requires Scrolls(d, sel, top, bottom) && InRow(d, p) && !InRegion(top, bottom, p.line)
    requires !LeaksAbove(d, sel, top, bottom, delta) && !LeaksBelow(d, sel, top, bottom, delta)
    ensures StaysAsItWas(d, sel, top, bottom, delta, p)
  {
    if sel.ty == Block {
      OtherBlockCell(d, sel, top, bottom, delta, p);
    } else if p.line < top {
      CellAbove(d, sel, top, bottom, delta, p);
    } else {
      CellBelow(d, sel, top, bottom, delta, p);
    }
  }

  lemma CellAbove(d: Dimensions, sel: Selection, top: int, bottom: int, delta: int, p: Point)
    requires Scrolls(d, sel, top, bottom) && InRow(d, p) && p.line < top && !InRegion(top, bottom, p.line)
    requires sel.ty != Block && !LeaksAbove(d, sel, top, bottom, delta)
    ensures StaysAsItWas(d, sel, top, bottom, delta, p)
  {
  }

  lemma CellBelow(d: Dimensions, sel: Selection, top: int, bottom: int, delta: int, p: Point)
    requires Scrolls(d, sel, top, bottom) && InRow(d, p) && bottom <= p.line
    requires sel.ty != Block && !LeaksBelow(d, sel, top, bottom, delta)
    ensures StaysAsItWas(d, sel, top, bottom, delta, p)
  {
  }

  lemma OtherBlockCell(d: Dimensions, sel: Selection, top: int, bottom: int, delta: int, p: Point)
    requires Scrolls(d, sel, top, bottom) && InRow(d, p) && !InRegion(top, bottom, p.line) && sel.ty == Block
    requires !LeaksAbove(d, sel, top, bottom, delta) && !LeaksBelow(d, sel, top, bottom, delta)
    ensures StaysAsItWas(d, sel, top, bottom, delta, p)
  {
    var a, b := ColumnHalf(sel.start), ColumnHalf(sel.end);
    CoveredInterval(a, b, p.column);
    var r := Rotated(d, sel, top, bottom, delta);
    if r.Some? {
      BlockColumnsKept(d, sel, top, bottom, delta, p.column);
      hide Covered, FirstCovered, LastCovered;
      assert CoversColumns(sel) ==> (SpansLine(r.value, p.line) <==> SpansLine(sel, p.line));
    }
  }

  // ------------------------------------------------------------------ scrolling and selecting

  function Up(p: Point, delta: int): Point { Point(p.line - delta, p.column) }

  function RangeUp(r: Option<SelectionRange>, delta: int): Option<SelectionRange> {
    if r.None? then None else Some(SelectionRange(Up(r.value.start, delta), Up(r.value.end, delta), r.value.isBlock))
  }

  lemma IndexUp(d: Dimensions, d': Dimensions, p: Point, delta: int)
    requires d.columns == d'.columns
    ensures Index(d', Up(p, delta)) == Index(d, p) - delta * d.columns
  {
  }

  lemma AtIndexUp(d: Dimensions, d': Dimensions, i: int, delta: int)
    requires d.columns == d'.columns && 0 < d.columns
    ensures AtIndex(d', i - delta * d.columns) == Up(AtIndex(d, i), delta)
  {
    IndexUp(d, d', AtIndex(d, i), delta);
    IndexUnique(d', Up(AtIndex(d, i), delta));
  }

  lemma CoveredUp(a: int, b: int, k: int)
    ensures FirstCovered(a - 2 * k, b - 2 * k) == FirstCovered(a, b) - k
    ensures LastCovered(a - 2 * k, b - 2 * k) == LastCovered(a, b) - k
  {
  }

  ghost predicate ScrolledUp(d: Dimensions, sel: Selection, d': Dimensions, sel': Selection, delta: nat) {
    && d.Valid() && d'.Valid() && d'.columns == d.columns && d'.screenLines == d.screenLines
    && AnchorsInGrid(d, sel) && d'.TopmostLine() <= sel.Upper().point.line - delta
    && Rotated(d, sel, 0, d.screenLines, delta) == Some(sel')
  }

  lemma ScrolledAnchors(d: Dimensions, sel: Selection, d': Dimensions, sel': Selection, delta: nat)
    requires ScrolledUp(d, sel, d', sel', delta)
    ensures AnchorsInGrid(d', sel') && sel'.ty == sel.ty && (sel'.IsEmpty() <==> sel.IsEmpty())
    ensures sel'.Upper() == sel.Upper().(point := Up(sel.Upper().point, delta))
    ensures sel'.Lower() == sel.Lower().(point := Up(sel.Lower().point, delta))
  {
    RotateScreenUp(d, sel, delta);
  }

  /**
   Scrolling the screen up, within what the history keeps, carries a selection along: what is selected
   afterwards are the cells that were selected before, `delta` lines further up.
   */
  lemma ScrollKeepsSelectedCells(
      d: Dimensions, sel: Selection, d': Dimensions, sel': Selection, delta: nat, p: Point)
    requires ScrolledUp(d, sel, d', sel', delta)
    ensures sel.ty.Simple? ==> SimpleResult(d', sel') == RangeUp(SimpleResult(d, sel), delta)
    ensures sel.ty.Block? ==> BlockResult(d', sel') == RangeUp(BlockResult(d, sel), delta)
    ensures sel.ty.Simple? ==> (Selects(SimpleResult(d', sel'), Up(p, delta)) <==> Selects(SimpleResult(d, sel), p))
    ensures sel.ty.Block? ==> (Selects(BlockResult(d', sel'), Up(p, delta)) <==> Selects(BlockResult(d, sel), p))
  {
    ScrolledAnchors(d, sel, d', sel', delta);
    if sel.ty.Simple? {
      ScrolledSimple(d, sel, d', sel', delta);
    } else if sel.ty.Block? {
      ScrolledBlock(d, sel, d', sel', delta);
    }
  }

  lemma ScrolledSimple(d: Dimensions, sel: Selection, d': Dimensions, sel': Selection, delta: nat)
    requires ScrolledUp(d, sel, d', sel', delta) && sel.ty.Simple?
    ensures SimpleResult(d', sel') == RangeUp(SimpleResult(d, sel), delta)
  {
    ScrolledAnchors(d, sel, d', sel', delta);
    hide Rotated, ClampAnchor, SimpleRange;
    if !sel.IsEmpty() {
      ClampInGrid(d, sel.Upper());
      ClampInGrid(d, sel.Lower());
      ClampInGrid(d', sel'.Upper());
      ClampInGrid(d', sel'.Lower());
      SimpleRangeUp(d, d', sel.Upper(), sel.Lower(), delta);
    }
  }

  lemma SimpleRangeUp(d: Dimensions, d': Dimensions, s: Anchor, e: Anchor, delta: int)
    requires 0 < d.columns == d'.columns
    ensures var s', e' := s.(point := Up(s.point, delta)), e.(point := Up(e.point, delta));
            Some(SimpleRange(d', s', e')) == RangeUp(Some(SimpleRange(d, s, e)), delta)
  {
    hide Index, AtIndex, FirstCovered, LastCovered;
    IndexUp(d, d', s.point, delta);
    IndexUp(d, d', e.point, delta);
    CoveredUp(Half(d, s), Half(d, e), delta * d.columns);
    AtIndexUp(d, d', FirstCovered(Half(d, s), Half(d, e)), delta);
    AtIndexUp(d, d', LastCovered(Half(d, s), Half(d, e)), delta);
  }

  lemma ScrolledBlock(d: Dimensions, sel: Selection, d': Dimensions, sel': Selection, delta: nat)
    requires ScrolledUp(d, sel, d', sel', delta) && sel.ty.Block?
    ensures BlockResult(d', sel') == RangeUp(BlockResult(d, sel), delta)
  {
    ScrolledAnchors(d, sel, d', sel', delta);
    hide Rotated;
    if !sel.IsEmpty() {
      BlockResultOnGrid(d, sel);
      BlockResultOnGrid(d', sel');
      BlockRangeUp(sel.Upper(), sel.Lower(), delta);
    }
  }

  lemma BlockRangeUp(s: Anchor, e: Anchor, delta: int)
    ensures var s', e' := s.(point := Up(s.point, delta)), e.(point := Up(e.point, delta));
            Some(BlockRange(s', e')) == RangeUp(Some(BlockRange(s, e)), delta)
  {
  }

  // ------------------------------------------------------------------ rotating and selecting

  /** The one column on several lines that a block selection gets wrong. */
  predicate OneColumnCrossed(sel: Selection) {
    && sel.Upper().point.column == sel.Lower().point.column && sel.Upper().point.line != sel.Lower().point.line
    && sel.Upper().side == Right && sel.Lower().side == Left
  }

  /** A selection in the grid whose result is exactly what its anchors cover. */
  ghost predicate Exact(d: Dimensions, sel: Selection) {
    && AnchorsInGrid(d, sel)
    && if sel.ty == Block then !OneColumnCrossed(sel) else sel.ty.Simple? && !StraddlesRowEnd(d, sel)
  }

  function Result(d: Dimensions, sel: Selection): Option<SelectionRange>
    requires 0 < d.columns
  {
    if sel.ty == Block then BlockResult(d, sel) else SimpleResult(d, sel)
  }

  /**
   The selected cells of the region after it scrolled are the ones selected before that are still in it, for
   selections that select what they cover and whose anchors do not show a fall off the screen.
   */
  lemma RotationKeepsSelectedCells(
      d: Dimensions, sel: Selection, sel': Selection, top: int, bottom: int, delta: int, p: Point)
    requires Scrolls(d, sel, top, bottom) && Rotated(d, sel, top, bottom, delta) == Some(sel')
    requires !FallShows(d, sel, top, bottom, delta) && Exact(d, sel) && Exact(d, sel')
    requires InGrid(d, p) && InRegion(top, bottom, p.line)
    requires InGrid(d, Up(p, -delta)) && InRegion(top, bottom, p.line + delta)
    ensures Selects(Result(d, sel'), p) <==> Selects(Result(d, sel), Up(p, -delta))
  {
    RotationMovesCells(d, sel, top, bottom, delta);
    assert RotatesRight(d, sel, top, bottom, delta, p);
    SelectsCovered(d, sel, Up(p, -delta));
    SelectsCovered(d, sel', p);
    hide Exact, FallShows, Result, Behind, InFront, Covered, SpansLine;
    assert sel'.ty == sel.ty;
  }

  lemma SelectsCovered(d: Dimensions, sel: Selection, p: Point)
    requires d.Valid() && Exact(d, sel) && InGrid(d, p)
    ensures Selects(Result(d, sel), p) <==> if sel.ty == Block then CoversBlockCell(sel, p) else CoversCell(sel, p)
  {
    if sel.ty == Block {
      BlockSelectionExact(d, sel);
    } else {
      SimpleSelectionExact(d, sel);
      CoversCellIsCovered(d, sel, p);
    }
  }

  /**
   On a 2x2 screen scrolled down by one line, from the start of line 0 to the first cell of line 1: line 1 now
   shows what was line 0, but only its first cell is still covered.
   */
  lemma FallExample(d: Dimensions, sel: Selection)
    requires d == Dimensions(2, 2, 2)
    requires sel == Selection(Simple, Anchor(Point(0, 0), Left), Anchor(Point(1, 0), Right))
    ensures CoversCell(sel, Point(0, 1)) && Rotated(d, sel, 0, 2, -1).Some?
    ensures !StillCovers(Rotated(d, sel, 0, 2, -1), Point(1, 1))
  {
  }
}
