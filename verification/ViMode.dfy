/**
 Vi-mode motions over whitespace-separated words (W, B, E and gE).

 Motions are specified on the line of linear cell indices: from the start cell, position k is the cell
 k steps away in the direction of travel, and `Room` is the number of steps to the edge of the grid.
 */
module ViMode {
  import opened GridIndex
  import opened Wrappers

  datatype Cell = Cell(c: char, wideChar: bool, wideSpacer: bool, leadingSpacer: bool)

  datatype Term = Term(d: Dimensions, cells: Point -> Cell)

  /** `is_space`: the spacers of a wide character are not blank. */
  predicate IsSpace(t: Term, p: Point) {
    var cell := t.cells(p);
    !cell.wideSpacer && !cell.leadingSpacer && (cell.c == ' ' || cell.c == '\t')
  }

  /** `is_boundary`: there is no further cell in this direction. */
  predicate IsBoundary(t: Term, p: Point, dir: Direction) {
    || (p.line <= t.d.TopmostLine() && p.column == 0 && dir == Left)
    || (p.line == t.d.BottommostLine() && p.column + 1 >= t.d.columns && dir == Right)
  }

  /** A wide character takes two cells of one row, so a spacer is not the only cell or the first one. */
  ghost predicate SpacersPlaced(t: Term) {
    && t.d.Valid()
    && (forall p | InGrid(t.d, p) && t.cells(p).leadingSpacer :: 2 <= t.d.columns)
    && (forall p | InGrid(t.d, p) && t.cells(p).wideSpacer :: 0 < p.column)
  }

  /** The wide character for which a leading spacer makes room is looked for below the screen. */
  predicate Dangling(t: Term, p: Point, dir: Direction) {
    dir == Right && t.cells(p).leadingSpacer && p.line == t.d.BottommostLine()
  }

  /** How the terminal lays wide characters out: two cells, pushed to the next row when only one is left. */
  ghost predicate WideCellsWellFormed(t: Term) {
    && SpacersPlaced(t)
    && (forall p | InGrid(t.d, p) && t.cells(p).wideChar ::
          && t.cells(p).c != ' ' && t.cells(p).c != '\t'
          && (p.column < t.d.LastColumn() ==> t.cells(Point(p.line, p.column + 1)).wideSpacer))
    && (forall p | InGrid(t.d, p) && t.cells(p).wideSpacer :: t.cells(Point(p.line, p.column - 1)).wideChar)
    && (forall p | InGrid(t.d, p) && t.cells(p).leadingSpacer ::
          p.column == t.d.LastColumn() && p.line < t.d.BottommostLine() && t.cells(Point(p.line + 1, 0)).wideChar)
  }

  // ------------------------------------------------------------------ travelling

  function Sign(dir: Direction): int { if dir == Right then 1 else -1 }

  function Room(t: Term, dir: Direction, p: Point): int {
    if dir == Right then LastIndex(t.d) - Index(t.d, p) else Index(t.d, p) - FirstIndex(t.d, Grid)
  }

  /** The cell `k` steps from `start`. */
  function Walk(t: Term, dir: Direction, start: Point, k: int): Point
    requires 0 < t.d.columns
  {
    AtIndex(t.d, Index(t.d, start) + Sign(dir) * k)
  }

  lemma WalkInGrid(t: Term, dir: Direction, start: Point, k: int)
    requires t.d.Valid() && InGrid(t.d, start)
    ensures 0 <= Room(t, dir, start)
    ensures 0 <= k <= Room(t, dir, start) ==>
              InGrid(t.d, Walk(t, dir, start, k)) && Room(t, dir, Walk(t, dir, start, k)) == Room(t, dir, start) - k
    ensures Walk(t, dir, start, 0) == start
  {
    GridIsInterval(t.d, start);
    GridIsInterval(t.d, Walk(t, dir, start, k));
    IndexUnique(t.d, start);
  }

  lemma WalkComposes(t: Term, dir: Direction, start: Point, k: int)
    requires 0 < t.d.columns
    ensures Walk(t, dir, Walk(t, dir, start, k), 1) == Walk(t, dir, start, k + 1)
  {
  }

  lemma BoundaryIsNoRoom(t: Term, dir: Direction, p: Point)
    requires t.d.Valid() && InGrid(t.d, p)
    ensures IsBoundary(t, p, dir) <==> Room(t, dir, p) == 0
  {
    OrderIsIndexOrder(t.d, p, Point(t.d.TopmostLine(), 0));
    OrderIsIndexOrder(t.d, p, Point(t.d.BottommostLine(), t.d.LastColumn()));
    MultiplySuccessor(t.d.BottommostLine(), t.d.columns);
  }

  lemma StepIsWalk(t: Term, dir: Direction, p: Point)
    requires t.d.Valid() && InGrid(t.d, p)
    ensures Shifted(t.d, Grid, p, Sign(dir)) == if Room(t, dir, p) == 0 then p else Walk(t, dir, p, 1)
  {
    GridIsInterval(t.d, p);
    IndexUnique(t.d, p);
  }

  /** `advance`: one step, or no step at the edge. */
  method Advance(t: Term, point: Point, dir: Direction) returns (r: Point)
    requires t.d.Valid() && InGrid(t.d, point)
    ensures r == if Room(t, dir, point) == 0 then point else Walk(t, dir, point, 1)
    ensures InGrid(t.d, r)
  {
    WalkInGrid(t, dir, point, 1);
    StepIsWalk(t, dir, point);
    hide *;
    if dir == Left {
      r := Sub(t.d, Grid, point, 1);
    } else {
      r := Add(t.d, Grid, point, 1);
    }
  }

  function Expanded(t: Term, p: Point, dir: Direction): Point
    requires SpacersPlaced(t) && InGrid(t.d, p)
  {
    var cell := t.cells(p);
    if dir == Right && cell.leadingSpacer then Point(p.line + 1, 1)
    else if dir == Right && cell.wideChar then
      Point(p.line, if p.column + 1 <= t.d.LastColumn() then p.column + 1 else t.d.LastColumn())
    else if dir == Left && (cell.wideChar || cell.wideSpacer) then
      var head := if cell.wideSpacer then Point(p.line, p.column - 1) else p;
      var prev := Shifted(t.d, Grid, head, -1);
      if t.cells(prev).leadingSpacer then prev else head
    else p
  }

  /** `Term::expand_wide`: jump to the far end of a wide character. */
  method ExpandWide(t: Term, point0: Point, dir: Direction) returns (point: Point)
    requires SpacersPlaced(t) && InGrid(t.d, point0)
    ensures point == Expanded(t, point0, dir)
  {
    point := point0;
    var cell := t.cells(point);
    if dir == Right && cell.leadingSpacer {
      point := Point(point.line + 1, 1);
    } else if dir == Right && cell.wideChar {
      point := point.(column := if point.column + 1 <= t.d.LastColumn() then point.column + 1 else t.d.LastColumn());
    } else if dir == Left && (cell.wideChar || cell.wideSpacer) {
      if cell.wideSpacer {
        point := point.(column := point.column - 1);
      }
      var prev := Sub(t.d, Grid, point, 1);
      if t.cells(prev).leadingSpacer {
        point := prev;
      }
    }
  }

  /** Expansion stays in the grid unless it dangles, and never moves against the direction of travel. */
  lemma ExpansionAdvances(t: Term, p: Point, dir: Direction)
    requires SpacersPlaced(t) && InGrid(t.d, p)
    ensures InGrid(t.d, Expanded(t, p, dir)) <==> !Dangling(t, p, dir)
    ensures Room(t, dir, Expanded(t, p, dir)) <= Room(t, dir, p)
  {
    var q := Expanded(t, p, dir);
    if dir == Right {
      OrderIsIndexOrder(t.d, q, p);
    } else {
      var head := if t.cells(p).wideSpacer then Point(p.line, p.column - 1) else p;
      OrderIsIndexOrder(t.d, head, p);
      GridIsInterval(t.d, head);
      ClampedInGrid(t.d, Grid, head, -1);
    }
  }

  // ------------------------------------------------------------------ the cells of a wide character

  /** No cell plays two parts in a wide character. */
  ghost predicate PartsApart(t: Term) {
    forall p | InGrid(t.d, p) ::
      && !(t.cells(p).wideChar && t.cells(p).wideSpacer) && !(t.cells(p).wideChar && t.cells(p).leadingSpacer)
      && !(t.cells(p).wideSpacer && t.cells(p).leadingSpacer)
  }

  /** `p` is the spacer that fills the row before the wide character in `head`. */
  predicate LeadsTo(t: Term, p: Point, head: Point) {
    InGrid(t.d, p) && t.cells(p).leadingSpacer && NextCell(t.d, p) == head
  }

  /** `p` is one of the cells of the wide character in `head`: its own, its spacer, or the leading spacer. */
  predicate OfChar(t: Term, head: Point, p: Point) {
    && InGrid(t.d, head) && t.cells(head).wideChar
    && (p == head || (p == Point(head.line, head.column + 1) && p.column <= t.d.LastColumn()) || LeadsTo(t, p, head))
  }

  /**
   A wide character expands to the same cell from each of its cells: going right to its last one, going left
   to its first one, which is the leading spacer if it has one.
   */
  lemma WideCharExpands(t: Term, head: Point, p: Point, dir: Direction)
    requires WideCellsWellFormed(t) && PartsApart(t) && OfChar(t, head, p)
    ensures InGrid(t.d, p)
    ensures dir == Right ==>
              Expanded(t, p, dir) == if head.column < t.d.LastColumn() then Point(head.line, head.column + 1) else head
    ensures dir == Left ==>
              LeadsTo(t, Expanded(t, p, dir), head)
              || (Expanded(t, p, dir) == head && forall l :: !LeadsTo(t, l, head))
  {
    if dir == Right {
      ExpandsRight(t, head, p);
    } else {
      ExpandsLeft(t, head, p);
    }
  }

  lemma ExpandsRight(t: Term, head: Point, p: Point)
    requires WideCellsWellFormed(t) && PartsApart(t) && OfChar(t, head, p)
    ensures InGrid(t.d, p)
    ensures Expanded(t, p, Right)
            == if head.column < t.d.LastColumn() then Point(head.line, head.column + 1) else head
  {
    WideCellAt(t, head);
    if LeadsTo(t, p, head) {
      LeadingSpacerAt(t, p);
    }
    hide Index, AtIndex, FirstIndex, LastIndex, Shifted, ClampIndex;
  }

  lemma ExpandsLeft(t: Term, head: Point, p: Point)
    requires WideCellsWellFormed(t) && PartsApart(t) && OfChar(t, head, p)
    ensures InGrid(t.d, p)
    ensures LeadsTo(t, Expanded(t, p, Left), head)
            || (Expanded(t, p, Left) == head && forall l :: !LeadsTo(t, l, head))
  {
    WideCellAt(t, head);
    if LeadsTo(t, p, head) {
      LeadingSpacerAt(t, p);
    }
    BeforeHead(t, head);
    hide Index, AtIndex, FirstIndex, LastIndex, Shifted, ClampIndex;
  }

  /** The cell before a wide character is the leading spacer, or there is none. */
  lemma BeforeHead(t: Term, head: Point)
    requires WideCellsWellFormed(t) && PartsApart(t) && InGrid(t.d, head) && t.cells(head).wideChar
    ensures var prev := Shifted(t.d, Grid, head, -1);
            && (t.cells(prev).leadingSpacer ==> LeadsTo(t, prev, head))
            && (!t.cells(prev).leadingSpacer ==> forall l :: !LeadsTo(t, l, head))
  {
    var prev := Shifted(t.d, Grid, head, -1);
    StepIsWalk(t, Left, head);
    WalkInGrid(t, Left, head, 1);
    hide Shifted, ClampIndex;
    if t.cells(prev).leadingSpacer {
      LeadingSpacerAt(t, prev);
      assert prev != head;
      StepsBack(t, prev, head);
    } else {
      forall l
        ensures !LeadsTo(t, l, head)
      {
        if LeadsTo(t, l, head) {
          StepsForward(t, l, head);
        }
      }
    }
  }

  lemma StepsBack(t: Term, prev: Point, head: Point)
    requires t.d.Valid() && InGrid(t.d, head) && InGrid(t.d, prev) && 0 < Room(t, Left, head)
    requires prev == Walk(t, Left, head, 1)
    ensures NextCell(t.d, prev) == head
  {
    CellAt(t.d, prev, Index(t.d, prev));
    IndexUnique(t.d, head);
    IndexUnique(t.d, NextCell(t.d, prev));
    GridIsInterval(t.d, head);
  }

  lemma StepsForward(t: Term, l: Point, head: Point)
    requires t.d.Valid() && InGrid(t.d, head) && InGrid(t.d, l) && NextCell(t.d, l) == head
    ensures 0 < Room(t, Left, head) && Walk(t, Left, head, 1) == l
  {
    CellAt(t.d, l, Index(t.d, l));
    IndexUnique(t.d, l);
    GridIsInterval(t.d, l);
  }

  /** Any other cell is left as it is. */
  lemma OrdinaryCellStays(t: Term, p: Point, dir: Direction)
    requires SpacersPlaced(t) && InGrid(t.d, p)
    requires !t.cells(p).wideChar && !t.cells(p).wideSpacer && !t.cells(p).leadingSpacer
    ensures Expanded(t, p, dir) == p
  {
  }

  // ------------------------------------------------------------------ words

  /**
   Where a motion to the near side of a word lands (B going left, E going right): the blanks after the
   start are skipped up to `mid`, then the word up to `n`; the next cell is blank or beyond the edge.
   */
  ghost predicate LandsNear(t: Term, dir: Direction, start: Point, mid: int, n: int)
    requires 0 < t.d.columns
  {
    && 0 <= mid <= n <= Room(t, dir, start)
    && (forall k | 0 < k <= mid :: IsSpace(t, Walk(t, dir, start, k)))
    && (mid < Room(t, dir, start) ==> !IsSpace(t, Walk(t, dir, start, mid + 1)))
    && (forall k | mid < k <= n :: !IsSpace(t, Walk(t, dir, start, k)))
    && (n < Room(t, dir, start) ==> IsSpace(t, Walk(t, dir, start, n + 1)))
  }

  /**
   Where a motion to the far side lands (W going right, gE going left): the word under the start is
   left at `mid`, then blanks are skipped up to `n`, which is not blank unless it is the edge.
   */
  ghost predicate LandsFar(t: Term, dir: Direction, start: Point, mid: int, n: int)
    requires 0 < t.d.columns
  {
    && 0 <= mid <= n <= Room(t, dir, start)
    && (forall k | 0 <= k < mid :: !IsSpace(t, Walk(t, dir, start, k)))
    && (mid < Room(t, dir, start) ==> IsSpace(t, Walk(t, dir, start, mid)))
    && (forall k | mid <= k < n :: IsSpace(t, Walk(t, dir, start, k)))
    && (n < Room(t, dir, start) ==> !IsSpace(t, Walk(t, dir, start, n)))
  }

  /** The landing conditions leave no choice. */
  lemma {:induction false} LandingUnique(t: Term, dir: Direction, start: Point, m1: int, n1: int, m2: int, n2: int)
    requires 0 < t.d.columns
    ensures LandsNear(t, dir, start, m1, n1) && LandsNear(t, dir, start, m2, n2) ==> m1 == m2 && n1 == n2
    ensures LandsFar(t, dir, start, m1, n1) && LandsFar(t, dir, start, m2, n2) ==> m1 == m2 && n1 == n2
  {
    hide Walk, IsSpace, Room;
    var afterMid1, afterMid2 := Walk(t, dir, start, m1 + 1), Walk(t, dir, start, m2 + 1);
    var afterN1, afterN2 := Walk(t, dir, start, n1 + 1), Walk(t, dir, start, n2 + 1);
    var atMid1, atMid2 := Walk(t, dir, start, m1), Walk(t, dir, start, m2);
    var atN1, atN2 := Walk(t, dir, start, n1), Walk(t, dir, start, n2);
  }

  /** One step from below the screen is onto its last cell. */
  lemma BackOntoScreen(t: Term, p: Point)
    requires t.d.Valid() && InRow(t.d, p) && t.d.BottommostLine() < p.line
    ensures Shifted(t.d, Grid, p, 1) == Point(t.d.BottommostLine(), t.d.LastColumn())
  {
    var last := Point(t.d.BottommostLine(), t.d.LastColumn());
    MultiplySuccessor(t.d.BottommostLine(), t.d.columns);
    OrderIsIndexOrder(t.d, last, p);
    GridNotEmpty(t.d);
    IndexUnique(t.d, last);
  }

  /** Where a motion from `p` ends: the landing place from the cell that `p` expands to. */
  ghost predicate MotionEnds(t: Term, p: Point, dir: Direction, side: Side, r: Option<Point>)
    requires SpacersPlaced(t) && InGrid(t.d, p)
  {
    if Dangling(t, p, dir) then
      r == if dir == side then Some(Point(t.d.BottommostLine(), t.d.LastColumn())) else None
    else
      && r.Some? && InGrid(t.d, r.value)
      && (dir == side ==> exists mid, n ::
            LandsNear(t, dir, Expanded(t, p, dir), mid, n) && r.value == Walk(t, dir, Expanded(t, p, dir), n))
      && (dir != side ==> exists mid, n ::
            LandsFar(t, dir, Expanded(t, p, dir), mid, n) && r.value == Walk(t, dir, Expanded(t, p, dir), n))
  }

  /** All four motions give the same result from every cell of a wide character. */
  lemma MotionIgnoresCell(
      t: Term, head: Point, p: Point, q: Point, dir: Direction, side: Side, r1: Option<Point>, r2: Option<Point>)
    requires WideCellsWellFormed(t) && PartsApart(t) && OfChar(t, head, p) && OfChar(t, head, q)
    requires InGrid(t.d, p) && InGrid(t.d, q)
    requires MotionEnds(t, p, dir, side, r1) && MotionEnds(t, q, dir, side, r2)
    ensures r1 == r2
  {
    SameExpansion(t, head, p, q, dir);
    hide Expanded, Walk, LandsNear, LandsFar, OfChar;
    assert !Dangling(t, p, dir) && !Dangling(t, q, dir);
    var start := Expanded(t, p, dir);
    if dir == side {
      var m1, n1 :| LandsNear(t, dir, start, m1, n1) && r1.value == Walk(t, dir, start, n1);
      var m2, n2 :| LandsNear(t, dir, start, m2, n2) && r2.value == Walk(t, dir, start, n2);
      LandingUnique(t, dir, start, m1, n1, m2, n2);
    } else {
      var m1, n1 :| LandsFar(t, dir, start, m1, n1) && r1.value == Walk(t, dir, start, n1);
      var m2, n2 :| LandsFar(t, dir, start, m2, n2) && r2.value == Walk(t, dir, start, n2);
      LandingUnique(t, dir, start, m1, n1, m2, n2);
    }
  }

  lemma SameExpansion(t: Term, head: Point, p: Point, q: Point, dir: Direction)
    requires WideCellsWellFormed(t) && PartsApart(t) && OfChar(t, head, p) && OfChar(t, head, q)
    ensures InGrid(t.d, p) && InGrid(t.d, q) && Expanded(t, p, dir) == Expanded(t, q, dir)
    ensures !Dangling(t, p, dir) && !Dangling(t, q, dir)
  {
    WideCharExpands(t, head, p, dir);
    WideCharExpands(t, head, q, dir);
    hide Expanded, Index, AtIndex;
    if dir == Left && Expanded(t, p, Left) != Expanded(t, q, Left) {
      SameLeader(t, Expanded(t, p, Left), Expanded(t, q, Left), head);
    }
  }

  lemma SameLeader(t: Term, k: Point, l: Point, head: Point)
    requires t.d.Valid()
    ensures InGrid(t.d, head) && LeadsTo(t, k, head) && LeadsTo(t, l, head) ==> k == l
  {
    if InGrid(t.d, head) && LeadsTo(t, k, head) && LeadsTo(t, l, head) {
      StepsForward(t, k, head);
      StepsForward(t, l, head);
    }
  }

  /** Unless there is no cell ahead, a motion to the near side leaves the character it starts on. */
  lemma NearMotionLeavesChar(t: Term, head: Point, p: Point, cell: Point, dir: Direction, r: Option<Point>)
    requires WideCellsWellFormed(t) && PartsApart(t) && OfChar(t, head, p) && OfChar(t, head, cell)
    requires InGrid(t.d, p) && InGrid(t.d, cell) && MotionEnds(t, p, dir, dir, r)
    requires Room(t, dir, Expanded(t, p, dir)) > 0
    ensures r.Some? && Room(t, dir, r.value) < Room(t, dir, cell)
  {
    SameExpansion(t, head, p, cell, dir);
    ExpansionAdvances(t, cell, dir);
    hide Expanded, OfChar, Dangling;
    var start := Expanded(t, p, dir);
    var mid, n :| LandsNear(t, dir, start, mid, n) && r.value == Walk(t, dir, start, n);
    assert n > 0;
    WalkInGrid(t, dir, start, n);
  }

  /**
   `word`: the four WORD motions, by direction of travel and side of the word to stop at. From a dangling
   spacer the motion to the near side ends on the last cell of the screen, and the one to the far side
   asks for a cell outside the grid (`None`).
   */
  method Word(t: Term, point0: Point, dir: Direction, side: Side) returns (r: Option<Point>)
    requires SpacersPlaced(t) && InGrid(t.d, point0)
    ensures MotionEnds(t, point0, dir, side, r)
  {
    var point := ExpandWide(t, point0, dir);
    ExpansionAdvances(t, point0, dir);
    if Dangling(t, point0, dir) {
      if dir != side {
        return None;
      }
      // Whether or not the last cell is blank, one of the two loops takes this step, onto the boundary.
      BackOntoScreen(t, point);
      point := Add(t.d, Grid, point, 1);
      return Some(point);
    }
    hide Expanded, InGrid, Walk, Room;
    if dir == side {
      point := WordNear(t, point, dir);
    }
    if dir != side {
      point := WordFar(t, point, dir);
    }
    r := Some(point);
  }

  /** Skip the blanks ahead, and then the word up to its last cell. */
  method WordNear(t: Term, start: Point, dir: Direction) returns (point: Point)
    requires t.d.Valid() && InGrid(t.d, start)
    ensures InGrid(t.d, point)
    ensures exists mid, n :: LandsNear(t, dir, start, mid, n) && point == Walk(t, dir, start, n)
  {
    hide Index, AtIndex, Walk, Room, IsBoundary, IsSpace, InGrid;
    point := start;
    ghost var mid, n := 0, 0;
    WalkInGrid(t, dir, start, 0);
    var next := Advance(t, point, dir);
    BoundaryIsNoRoom(t, dir, point);
    while !IsBoundary(t, point, dir) && IsSpace(t, next)
      invariant 0 <= mid <= Room(t, dir, start)
      invariant point == Walk(t, dir, start, mid) && InGrid(t.d, point)
      invariant Room(t, dir, point) == Room(t, dir, start) - mid
      invariant IsBoundary(t, point, dir) <==> mid == Room(t, dir, start)
      invariant mid < Room(t, dir, start) ==> next == Walk(t, dir, start, mid + 1)
      invariant forall k | 0 < k <= mid :: IsSpace(t, Walk(t, dir, start, k))
      decreases Room(t, dir, point)
    {
      WalkInGrid(t, dir, start, mid + 1);
      WalkComposes(t, dir, start, mid + 1);
      point := next;
      mid := mid + 1;
      next := Advance(t, point, dir);
      BoundaryIsNoRoom(t, dir, point);
    }
    n := mid;
    assert mid < Room(t, dir, start) ==> !IsSpace(t, Walk(t, dir, start, mid + 1));
    WalkComposes(t, dir, start, mid);
    next := Advance(t, point, dir);
    while !IsBoundary(t, point, dir) && !IsSpace(t, next)
      invariant mid <= n <= Room(t, dir, start)
      invariant point == Walk(t, dir, start, n) && InGrid(t.d, point)
      invariant Room(t, dir, point) == Room(t, dir, start) - n
      invariant IsBoundary(t, point, dir) <==> n == Room(t, dir, start)
      invariant n < Room(t, dir, start) ==> next == Walk(t, dir, start, n + 1)
      invariant forall k | mid < k <= n :: !IsSpace(t, Walk(t, dir, start, k))
      decreases Room(t, dir, point)
    {
      WalkInGrid(t, dir, start, n + 1);
      WalkComposes(t, dir, start, n + 1);
      point := next;
      n := n + 1;
      next := Advance(t, point, dir);
      BoundaryIsNoRoom(t, dir, point);
    }
    assert LandsNear(t, dir, start, mid, n);
  }

  /** Skip the word, and then the blanks up to the next one. */
  method WordFar(t: Term, start: Point, dir: Direction) returns (point: Point)
    requires t.d.Valid() && InGrid(t.d, start)
    ensures InGrid(t.d, point)
    ensures exists mid, n :: LandsFar(t, dir, start, mid, n) && point == Walk(t, dir, start, n)
  {
    hide Index, AtIndex, Walk, Room, IsBoundary, IsSpace, InGrid;
    point := start;
    ghost var mid, n := 0, 0;
    WalkInGrid(t, dir, start, 0);
    BoundaryIsNoRoom(t, dir, point);
    while !IsBoundary(t, point, dir) && !IsSpace(t, point)
      invariant 0 <= mid <= Room(t, dir, start)
      invariant point == Walk(t, dir, start, mid) && InGrid(t.d, point)
      invariant Room(t, dir, point) == Room(t, dir, start) - mid
      invariant IsBoundary(t, point, dir) <==> mid == Room(t, dir, start)
      invariant forall k | 0 <= k < mid :: !IsSpace(t, Walk(t, dir, start, k))
      decreases Room(t, dir, point)
    {
      WalkInGrid(t, dir, start, mid + 1);
      WalkComposes(t, dir, start, mid);
      point := Advance(t, point, dir);
      mid := mid + 1;
      BoundaryIsNoRoom(t, dir, point);
    }
    n := mid;
    while !IsBoundary(t, point, dir) && IsSpace(t, point)
      invariant mid <= n <= Room(t, dir, start)
      invariant point == Walk(t, dir, start, n) && InGrid(t.d, point)
      invariant Room(t, dir, point) == Room(t, dir, start) - n
      invariant IsBoundary(t, point, dir) <==> n == Room(t, dir, start)
      invariant forall k | mid <= k < n :: IsSpace(t, Walk(t, dir, start, k))
      decreases Room(t, dir, point)
    {
      WalkInGrid(t, dir, start, n + 1);
      WalkComposes(t, dir, start, n);
      point := Advance(t, point, dir);
      n := n + 1;
      BoundaryIsNoRoom(t, dir, point);
    }
    assert LandsFar(t, dir, start, mid, n);
  }

  // ------------------------------------------------------------------ W followed by B

  predicate StartsWord(t: Term, p: Point)
    requires 0 < t.d.columns
  {
    !IsSpace(t, p) && (Room(t, Left, p) > 0 ==> IsSpace(t, Walk(t, Left, p, 1)))
  }

  lemma WideCellAt(t: Term, p: Point)
    requires WideCellsWellFormed(t) && InGrid(t.d, p)
    ensures SpacersPlaced(t) && t.d.Valid()
    ensures t.cells(p).wideChar ==>
              !IsSpace(t, p) && (p.column < t.d.LastColumn() ==> t.cells(Point(p.line, p.column + 1)).wideSpacer)
    ensures t.cells(p).leadingSpacer ==>
              && 2 <= t.d.columns && p.column == t.d.LastColumn()
              && InGrid(t.d, Point(p.line + 1, 0)) && t.cells(Point(p.line + 1, 0)).wideChar
  {
  }

  /** Expanding to the right from a word only crosses cells of that word. */
  lemma ExpansionStaysInWord(t: Term, p: Point, i: int)
    requires WideCellsWellFormed(t) && InGrid(t.d, p) && !IsSpace(t, p)
    requires Index(t.d, p) <= i <= Index(t.d, Expanded(t, p, Right))
    ensures !IsSpace(t, AtIndex(t.d, i))
  {
    CrossedCells(t, p);
    hide *;
    var next := NextCell(t.d, p);
    CellAt(t.d, p, i);
    CellAt(t.d, next, i);
    if t.cells(p).leadingSpacer {
      CellAt(t.d, NextCell(t.d, next), i);
    }
  }

  lemma CellAt(d: Dimensions, p: Point, i: int)
    requires InRow(d, p)
    ensures InRow(d, NextCell(d, p)) && Index(d, NextCell(d, p)) == Index(d, p) + 1
    ensures i == Index(d, p) ==> AtIndex(d, i) == p
  {
    Neighbours(d, p);
    IndexUnique(d, p);
  }

  /** The cells from a cell of a word to where it expands to are of that word. */
  lemma CrossedCells(t: Term, p: Point)
    requires WideCellsWellFormed(t) && InGrid(t.d, p) && !IsSpace(t, p)
    ensures InRow(t.d, p)
    ensures var next, q := NextCell(t.d, p), Expanded(t, p, Right);
            if t.cells(p).leadingSpacer then
              q == NextCell(t.d, next) && !IsSpace(t, next) && !IsSpace(t, q)
            else q == p || (q == next && !IsSpace(t, q))
  {
    WideCellAt(t, p);
    hide WideCellsWellFormed;
    if t.cells(p).leadingSpacer {
      LeadingSpacerAt(t, p);
    }
  }

  lemma LeadingSpacerAt(t: Term, p: Point)
    requires WideCellsWellFormed(t) && InGrid(t.d, p) && t.cells(p).leadingSpacer
    ensures NextCell(t.d, p) == Point(p.line + 1, 0) && t.cells(Point(p.line + 1, 0)).wideChar
    ensures t.cells(Point(p.line + 1, 1)).wideSpacer && 2 <= t.d.columns && !IsSpace(t, Point(p.line + 1, 0))
  {
    WideCellAt(t, p);
    WideCellAt(t, Point(p.line + 1, 0));
  }

  /** The first cell of a word that follows a blank does not expand to the left. */
  lemma WordStartDoesNotExpand(t: Term, p: Point)
    requires WideCellsWellFormed(t) && InGrid(t.d, p)
    requires 0 < Room(t, Left, p) && IsSpace(t, Walk(t, Left, p, 1))
    ensures Expanded(t, p, Left) == p
  {
    hide Index, AtIndex, FirstIndex, LastIndex, Shifted, ClampIndex;
    var prev := Walk(t, Left, p, 1);
    WalkInGrid(t, Left, p, 1);
    StepIsWalk(t, Left, p);
    if t.cells(p).wideSpacer {
      PreviousInRow(t, p);
    }
  }

  lemma PreviousInRow(t: Term, p: Point)
    requires InRow(t.d, p) && 0 < p.column
    ensures Walk(t, Left, p, 1) == Point(p.line, p.column - 1)
  {
    IndexUnique(t.d, Point(p.line, p.column - 1));
  }

  /**
   B undoes W: from the first cell of a word, moving to the first cell of the next word and then back to
   the start of the previous word returns to where it began, through any wide characters in between.
   */
  lemma BackUndoesForward(t: Term, p: Point, mid: int, n: int, backMid: int, backN: int)
    requires WideCellsWellFormed(t) && InGrid(t.d, p) && StartsWord(t, p)
    requires LandsFar(t, Right, Expanded(t, p, Right), mid, n) && mid < n
    requires var next := Walk(t, Right, Expanded(t, p, Right), n);
             && InGrid(t.d, next) && !IsSpace(t, next)
             && LandsNear(t, Left, Expanded(t, next, Left), backMid, backN)
    ensures var next := Walk(t, Right, Expanded(t, p, Right), n);
            Walk(t, Left, Expanded(t, next, Left), backN) == p
  {
    hide Index, AtIndex, FirstIndex, LastIndex, Expanded, IsSpace;
    var q := Expanded(t, p, Right);
    var next := Walk(t, Right, q, n);
    var i, j, r := Index(t.d, p), Index(t.d, q), Index(t.d, next);
    ExpansionAdvances(t, p, Right);
    assert i <= j && r == j + n;
    GridIsInterval(t.d, p);
    GridIsInterval(t.d, next);
    forall k | 0 < k <= n - mid
      ensures IsSpace(t, Walk(t, Left, next, k))
    {
      assert Walk(t, Left, next, k) == Walk(t, Right, q, n - k);
    }
    WordStartDoesNotExpand(t, next);
    forall k | n - mid < k <= r - i
      ensures !IsSpace(t, Walk(t, Left, next, k))
    {
      if n - k >= 0 {
        assert Walk(t, Left, next, k) == Walk(t, Right, q, n - k);
      } else {
        ExpansionStaysInWord(t, p, r - k);
      }
    }
    IndexUnique(t.d, p);
    ExpansionStaysInWord(t, p, j);
    assert Walk(t, Right, q, 0) == AtIndex(t.d, j);
    assert r - i < Room(t, Left, next) ==> Walk(t, Left, next, r - i + 1) == Walk(t, Left, p, 1);
    assert LandsNear(t, Left, next, n - mid, r - i);
    LandingUnique(t, Left, next, n - mid, r - i, backMid, backN);
  }
}
