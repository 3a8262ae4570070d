/** The Sum Fruit round: a grid of numbered apples, a drag-box gesture that removes
    the apples it covers when their values add up to exactly ten, a score that grows by
    the number of apples removed, and a countdown that ends the round.

    The page keeps this state in React state and a mutable ref; here it is one `Round`
    value and every handler is a pure transition on it. `Math.random` results are passed
    in as `Draw`s and the one-second interval is the explicit `Tick` transition. */
module SumGame {
  import opened Seqs

  const GridCols: nat := 17
  const GridRows: nat := 10
  /** Seconds on the clock at the start of a round. */
  const GameDuration: nat := 120
  /** Pixel size of a grid cell before the first resize. */
  const InitialCellSize: nat := 30
  /** A release whose box is narrower AND lower than this many pixels is ignored. */
  const MinExtent: real := 2.0
  /** The sum a selection must reach to be cleared. */
  const MatchSum: int := 10

  /** A value returned by `Math.random`: a real in [0, 1). */
  type Draw = u: real | 0.0 <= u < 1.0

  /** An apple on the board: its cell, its value and whether a match has cleared it. */
  datatype Apple = Apple(row: nat, col: nat, val: int, removed: bool)

  /** A pointer position in canvas pixels. */
  datatype Point = Point(x: real, y: real)

  /** An axis-aligned box: top-left corner, width and height. */
  datatype Rect = Rect(x: real, y: real, w: real, h: real)

  /** The drag gesture in progress: whether a button or finger is down, where it went down and where it is now. */
  datatype Drag = Drag(dragging: bool, start: Point, curr: Point)

  /** Everything one round of the game consists of. */
  datatype Round = Round(
    apples: seq<Apple>,
    cellSize: nat,
    score: nat,
    timeLeft: int,
    started: bool,
    over: bool,
    drag: Drag)
  {
    /** The round accepts input and the countdown interval is registered. */
    predicate Running()
    {
      started && !over
    }
  }

  /** The page as first mounted: no apples, score 0, full clock, start screen shown. */
  const Initial: Round :=
    Round([], InitialCellSize, 0, GameDuration, false, false, Drag(false, Point(0.0, 0.0), Point(0.0, 0.0)))

  // ---------------------------------------------------------------------------
  // Board

  /** `Math.floor(u * 9) + 1`: each of the values 1..9 owns a ninth of [0, 1). */
  function AppleValue(u: Draw): (v: int)
    ensures 1 <= v <= 9
    ensures (v - 1) as real / 9.0 <= u < v as real / 9.0
  {
    (u * 9.0).Floor + 1
  }

  /** The apple `a` sits in cell (`r`, `c`). */
  predicate At(a: Apple, r: int, c: int)
  {
    a.row == r && a.col == c
  }

  /** Two apples sit in the same cell. */
  predicate SameCell(a: Apple, b: Apple)
  {
    At(a, b.row, b.col)
  }

  /** No two apples of `apples` share a cell. */
  ghost predicate DistinctCells(apples: seq<Apple>)
  {
    forall i, j :: 0 <= i < j < |apples| ==> !SameCell(apples[i], apples[j])
  }

  /** Some apple of `apples` sits in cell (`r`, `c`). */
  ghost predicate Occupied(apples: seq<Apple>, r: int, c: int)
  {
    exists i :: 0 <= i < |apples| && At(apples[i], r, c)
  }

  /** `a` comes before `b` when cells are read row by row, left to right. */
  predicate RowMajorBefore(a: Apple, b: Apple)
  {
    a.row < b.row || (a.row == b.row && a.col < b.col)
  }

  lemma MulMonotone(a: int, b: int, c: nat)
    requires a <= b
    ensures a * c <= b * c
  {
    assert b * c - a * c == (b - a) * c;
  }

  /** Cell (`r`, `c`) has index `r * cols + c` in row-major order. */
  lemma CellIndex(r: nat, c: nat, rows: nat, cols: nat)
    requires r < rows && c < cols
    ensures r * cols + c < rows * cols
    ensures (r * cols + c) / cols == r && (r * cols + c) % cols == c
  {
    MulMonotone(r + 1, rows, cols);
    var i := r * cols + c;
    var q, m := i / cols, i % cols;
    assert i == q * cols + m;
    if q < r {
      MulMonotone(q + 1, r, cols);
    } else if q > r {
      MulMonotone(r + 1, q, cols);
    }
  }

  /** Index order is row-major cell order. */
  lemma RowMajorIndex(i: nat, j: nat, cols: nat)
    requires cols > 0 && i < j
    ensures i / cols < j / cols || (i / cols == j / cols && i % cols < j % cols)
  {
    var q1, m1 := i / cols, i % cols;
    var q2, m2 := j / cols, j % cols;
    assert i == q1 * cols + m1 && j == q2 * cols + m2;
    if q1 > q2 {
      MulMonotone(q2 + 1, q1, cols);
    }
  }

  /** The apple the set-up loop pushes at index `i`: cell (`i / cols`, `i % cols`), value from the `i`-th draw. */
  function BoardApple(i: nat, cols: nat, draws: seq<Draw>): Apple
    requires i < |draws| && cols > 0
  {
    Apple(i / cols, i % cols, AppleValue(draws[i]), false)
  }

  /** The apples a round starts with, in the order the nested loops push them: one per cell,
      the `i`-th taking its value from the `i`-th draw. */
  function Board(rows: nat, cols: nat, draws: seq<Draw>): (b: seq<Apple>)
    requires |draws| == rows * cols
    ensures |b| == rows * cols
    ensures forall i :: 0 <= i < |b| ==>
              b[i].row < rows && b[i].col < cols && !b[i].removed && b[i].val == AppleValue(draws[i])
    ensures forall i, j :: 0 <= i < j < |b| ==> RowMajorBefore(b[i], b[j])
    ensures DistinctCells(b)
    ensures forall r, c :: 0 <= r < rows && 0 <= c < cols ==> Occupied(b, r, c)
  {
    if cols == 0 then
      []
    else
      var b := seq(rows * cols, i requires 0 <= i < rows * cols => BoardApple(i, cols, draws));
      BoardInRange(rows, cols, draws, b);
      BoardRowMajor(rows, cols, draws, b);
      BoardCovers(rows, cols, draws, b);
      b
  }

  lemma BoardInRange(rows: nat, cols: nat, draws: seq<Draw>, b: seq<Apple>)
    requires cols > 0 && |draws| == rows * cols && |b| == rows * cols
    requires forall i :: 0 <= i < |b| ==> b[i] == BoardApple(i, cols, draws)
    ensures forall i :: 0 <= i < |b| ==> b[i].row < rows && b[i].col < cols
  {
    forall i | 0 <= i < |b| ensures b[i].row < rows && b[i].col < cols {
      if i / cols >= rows {
        MulMonotone(rows, i / cols, cols);
      }
    }
  }

  lemma BoardRowMajor(rows: nat, cols: nat, draws: seq<Draw>, b: seq<Apple>)
    requires cols > 0 && |draws| == rows * cols && |b| == rows * cols
    requires forall i :: 0 <= i < |b| ==> b[i] == BoardApple(i, cols, draws)
    ensures forall i, j :: 0 <= i < j < |b| ==> RowMajorBefore(b[i], b[j])
  {
    forall i, j | 0 <= i < j < |b| ensures RowMajorBefore(b[i], b[j]) {
      RowMajorIndex(i, j, cols);
    }
  }

  lemma BoardCovers(rows: nat, cols: nat, draws: seq<Draw>, b: seq<Apple>)
    requires cols > 0 && |draws| == rows * cols && |b| == rows * cols
    requires forall i :: 0 <= i < |b| ==> b[i] == BoardApple(i, cols, draws)
    ensures forall r, c :: 0 <= r < rows && 0 <= c < cols ==> Occupied(b, r, c)
  {
    forall r, c | 0 <= r < rows && 0 <= c < cols ensures Occupied(b, r, c) {
      CellIndex(r, c, rows, cols);
      assert At(b[r * cols + c], r, c);
    }
  }

  /** The grid set-up loop of the start effect, row by row and cell by cell,
      builds exactly `Board`. */
  method InitGrid(rows: nat, cols: nat, draws: seq<Draw>) returns (apples: seq<Apple>)
    requires |draws| == rows * cols
    ensures apples == Board(rows, cols, draws)
  {
    ghost var b := Board(rows, cols, draws);
    apples := [];
    var r := 0;
    var k := 0;
    while r < rows
      invariant 0 <= r <= rows
      invariant k == r * cols && k <= |b|
      invariant apples == b[..k]
    {
      var c := 0;
      while c < cols
        invariant 0 <= c <= cols
        invariant k == r * cols + c && k <= |b|
        invariant apples == b[..k]
      {
        CellIndex(r, c, rows, cols);
        assert b[k] == BoardApple(k, cols, draws);
        apples := apples + [Apple(r, c, AppleValue(draws[r * cols + c]), false)];
        assert b[..k + 1] == b[..k] + [b[k]];
        c := c + 1;
        k := k + 1;
      }
      NextRow(r, rows, cols);
      r := r + 1;
    }
    assert b[..k] == b;
  }

  lemma NextRow(r: nat, rows: nat, cols: nat)
    requires r < rows
    ensures r * cols + cols == (r + 1) * cols <= rows * cols
  {
    MulMonotone(r + 1, rows, cols);
  }

  // ---------------------------------------------------------------------------
  // Selection geometry

  function Min(a: real, b: real): real
  {
    if a <= b then a else b
  }

  function Abs(a: real): real
  {
    if a < 0.0 then -a else a
  }

  /** The box spanned by the two corners of a drag, whichever way the drag went. */
  function Normalize(p: Point, q: Point): (rect: Rect)
    ensures rect.w >= 0.0 && rect.h >= 0.0
    ensures (rect.x == p.x && rect.x + rect.w == q.x) || (rect.x == q.x && rect.x + rect.w == p.x)
    ensures (rect.y == p.y && rect.y + rect.h == q.y) || (rect.y == q.y && rect.y + rect.h == p.y)
  {
    Rect(Min(p.x, q.x), Min(p.y, q.y), Abs(q.x - p.x), Abs(q.y - p.y))
  }

  /** Dragging from `q` to `p` gives the same box as dragging from `p` to `q`. */
  lemma NormalizeSymmetric(p: Point, q: Point)
    ensures Normalize(p, q) == Normalize(q, p)
  {
  }

  /** The release-time test: the apple's cell and the box overlap on both axes, with strict comparisons. */
  predicate Overlaps(a: Apple, rect: Rect, cellSize: nat)
  {
    var cellX := (a.col * cellSize) as real;
    var cellY := (a.row * cellSize) as real;
    && rect.x < cellX + cellSize as real
    && rect.x + rect.w > cellX
    && rect.y < cellY + cellSize as real
    && rect.y + rect.h > cellY
  }

  /** `t` lies in the closed span [`lo`, `lo + len`]. */
  predicate InClosed(t: real, lo: real, len: real)
  {
    lo <= t <= lo + len
  }

  /** `t` lies in the open span (`lo`, `lo + len`). */
  predicate InOpen(t: real, lo: real, len: real)
  {
    lo < t < lo + len
  }

  /** The closed span of the box on one axis shares a point with the open span of the cell. */
  ghost predicate Meets(lo: real, len: real, cellLo: real, size: real)
  {
    exists t :: InClosed(t, lo, len) && InOpen(t, cellLo, size)
  }

  /** The two strict comparisons of one axis say exactly that the box's span meets the cell's open span. */
  lemma AxisOverlap(lo: real, len: real, cellLo: real, size: real)
    requires len >= 0.0 && size > 0.0
    ensures (lo < cellLo + size && lo + len > cellLo) <==> Meets(lo, len, cellLo, size)
  {
    if lo < cellLo + size && lo + len > cellLo {
      var t := if lo > cellLo then lo else (cellLo + Min(lo + len, cellLo + size)) / 2.0;
      assert InClosed(t, lo, len) && InOpen(t, cellLo, size);
    }
  }

  /** With a positive cell size, `Overlaps` holds exactly when the box, edges included,
      meets the interior of the apple's cell. */
  lemma OverlapsMeaning(a: Apple, rect: Rect, cellSize: nat)
    requires cellSize > 0 && rect.w >= 0.0 && rect.h >= 0.0
    ensures Overlaps(a, rect, cellSize) <==>
              && Meets(rect.x, rect.w, (a.col * cellSize) as real, cellSize as real)
              && Meets(rect.y, rect.h, (a.row * cellSize) as real, cellSize as real)
  {
    AxisOverlap(rect.x, rect.w, (a.col * cellSize) as real, cellSize as real);
    AxisOverlap(rect.y, rect.h, (a.row * cellSize) as real, cellSize as real);
  }

  /** The apples a box selects: the live ones it overlaps, in board order. */
  function Selected(apples: seq<Apple>, rect: Rect, cellSize: nat): (sel: seq<Apple>)
    ensures IsSubsequence(sel, apples)
    ensures forall a :: a in sel <==> a in apples && !a.removed && Overlaps(a, rect, cellSize)
  {
    Filter((a: Apple) => !a.removed && Overlaps(a, rect, cellSize), apples)
  }

  /** Total value of a selection. */
  function Sum(s: seq<Apple>): int
  {
    if s == [] then 0 else s[0].val + Sum(s[1..])
  }

  // ---------------------------------------------------------------------------
  // Removal

  /** `apples.findIndex(x => x.r === row && x.c === col)` searching from `from`, -1 when absent. */
  function FindCell(apples: seq<Apple>, row: int, col: int, from: nat): (i: int)
    requires from <= |apples|
    ensures i == -1 || from <= i < |apples|
    ensures i >= 0 ==> At(apples[i], row, col)
    ensures i >= 0 ==> forall k :: from <= k < i ==> !At(apples[k], row, col)
    ensures i == -1 ==> forall k :: from <= k < |apples| ==> !At(apples[k], row, col)
    decreases |apples| - from
  {
    if from == |apples| then -1
    else if At(apples[from], row, col) then from
    else FindCell(apples, row, col, from + 1)
  }

  /** `b` is `a` with some more apples marked removed: same cells and values, no apple restored. */
  ghost predicate Keeps(a: seq<Apple>, b: seq<Apple>)
  {
    && |a| == |b|
    && forall i :: 0 <= i < |a| ==>
         b[i].row == a[i].row && b[i].col == a[i].col && b[i].val == a[i].val && (a[i].removed ==> b[i].removed)
  }

  /** Marks removed the first apple in the cell of `a`, if there is one. */
  function MarkRemoved(apples: seq<Apple>, a: Apple): (r: seq<Apple>)
    ensures Keeps(apples, r)
  {
    var i := FindCell(apples, a.row, a.col, 0);
    if i == -1 then apples else apples[i := apples[i].(removed := true)]
  }

  /** The `forEach` over the selection: each selected apple's cell is looked up and marked removed. */
  function RemoveAll(apples: seq<Apple>, sel: seq<Apple>): (r: seq<Apple>)
    ensures Keeps(apples, r)
    decreases |sel|
  {
    if sel == [] then apples else RemoveAll(MarkRemoved(apples, sel[0]), sel[1..])
  }

  /** Some apple of `sel` sits in the cell of `a`. */
  ghost predicate CellListed(a: Apple, sel: seq<Apple>)
  {
    exists j :: 0 <= j < |sel| && SameCell(a, sel[j])
  }

  /** On a board without shared cells, marking `a` removes exactly the apple in `a`'s cell. */
  lemma MarkRemovedEffect(apples: seq<Apple>, a: Apple)
    requires DistinctCells(apples)
    ensures |MarkRemoved(apples, a)| == |apples|
    ensures forall i :: 0 <= i < |apples| ==>
              MarkRemoved(apples, a)[i] == apples[i].(removed := apples[i].removed || SameCell(apples[i], a))
  {
    var i0 := FindCell(apples, a.row, a.col, 0);
    if i0 != -1 {
      forall i | 0 <= i < |apples| && i != i0
        ensures !SameCell(apples[i], a)
      {
        if i < i0 {
          assert !SameCell(apples[i], apples[i0]);
        } else {
          assert !SameCell(apples[i0], apples[i]);
        }
      }
    }
  }

  /** On a board without shared cells, removing a selection marks exactly the apples
      whose cells it lists and changes nothing else. */
  lemma {:induction false} RemoveAllEffect(apples: seq<Apple>, sel: seq<Apple>)
    requires DistinctCells(apples)
    ensures |RemoveAll(apples, sel)| == |apples|
    ensures forall i :: 0 <= i < |apples| ==>
              RemoveAll(apples, sel)[i] == apples[i].(removed := apples[i].removed || CellListed(apples[i], sel))
    decreases |sel|
  {
    if sel != [] {
      var m := MarkRemoved(apples, sel[0]);
      MarkRemovedEffect(apples, sel[0]);
      assert DistinctCells(m) by {
        forall i, j | 0 <= i < j < |m| ensures !SameCell(m[i], m[j]) {
          assert !SameCell(apples[i], apples[j]);
        }
      }
      RemoveAllEffect(m, sel[1..]);
      forall i | 0 <= i < |apples|
        ensures CellListed(apples[i], sel) <==> SameCell(apples[i], sel[0]) || CellListed(apples[i], sel[1..])
      {
        if CellListed(apples[i], sel) {
          var j :| 0 <= j < |sel| && SameCell(apples[i], sel[j]);
          if j > 0 {
            assert SameCell(apples[i], sel[1..][j - 1]);
          }
        }
        if CellListed(apples[i], sel[1..]) {
          var j :| 0 <= j < |sel[1..]| && SameCell(apples[i], sel[1..][j]);
          assert SameCell(apples[i], sel[j + 1]);
        }
      }
    }
  }

  /** On a board without shared cells, a cell is listed by the selection exactly when its
      apple is live and overlapped by the box. */
  lemma SelectionCells(apples: seq<Apple>, rect: Rect, cellSize: nat)
    requires DistinctCells(apples)
    ensures forall i :: 0 <= i < |apples| ==>
              (CellListed(apples[i], Selected(apples, rect, cellSize)) <==>
                 !apples[i].removed && Overlaps(apples[i], rect, cellSize))
  {
    var sel := Selected(apples, rect, cellSize);
    forall i | 0 <= i < |apples|
      ensures CellListed(apples[i], sel) <==> !apples[i].removed && Overlaps(apples[i], rect, cellSize)
    {
      if CellListed(apples[i], sel) {
        var j :| 0 <= j < |sel| && SameCell(apples[i], sel[j]);
        assert sel[j] in apples;
        var k :| 0 <= k < |apples| && apples[k] == sel[j];
        assert k == i;
      }
      if !apples[i].removed && Overlaps(apples[i], rect, cellSize) {
        assert apples[i] in sel;
        var j :| 0 <= j < |sel| && sel[j] == apples[i];
        assert SameCell(apples[i], sel[j]);
      }
    }
  }

  // ---------------------------------------------------------------------------
  // Input handlers

  /** `handleInputStart`: a press starts a drag only while the round is running. */
  function StartDrag(r: Round, p: Point): (r': Round)
    ensures r.Running() ==> r'.drag == Drag(true, p, p)
    ensures !r.Running() ==> r' == r
    ensures r'.apples == r.apples && r'.score == r.score && r'.timeLeft == r.timeLeft
  {
    if !r.started then r
    else if r.over then r
    else r.(drag := Drag(true, p, p))
  }

  /** `handleInputMove`: while dragging, the current corner follows the pointer. */
  function MoveDrag(r: Round, p: Point): (r': Round)
    ensures r.drag.dragging ==> r'.drag == r.drag.(curr := p)
    ensures !r.drag.dragging ==> r' == r
    ensures r'.apples == r.apples && r'.score == r.score && r'.timeLeft == r.timeLeft
  {
    if !r.drag.dragging then r else r.(drag := r.drag.(curr := p))
  }

  /** `r` with the button or finger released. */
  function Released(r: Round): Round
  {
    r.(drag := r.drag.(dragging := false))
  }

  /** The box of the drag in progress. */
  function DragRect(r: Round): Rect
  {
    Normalize(r.drag.start, r.drag.curr)
  }

  /** A box narrower and lower than `MinExtent` counts as a click, not a selection. */
  predicate Degenerate(rect: Rect)
  {
    rect.w < MinExtent && rect.h < MinExtent
  }

  /** `handleInputEnd` as the page writes it: it looks only at whether a drag is in
      progress, not at whether the round is still running. */
  function EndDragAsWritten(r: Round): (r': Round)
    ensures !r'.drag.dragging
    ensures r'.started == r.started && r'.over == r.over && r'.timeLeft == r.timeLeft
    ensures r'.cellSize == r.cellSize
    ensures r'.score >= r.score && Keeps(r.apples, r'.apples)
  {
    if !r.drag.dragging then r
    else
      var rect := DragRect(r);
      if Degenerate(rect) then Released(r)
      else
        var sel := Selected(r.apples, rect, r.cellSize);
        if Sum(sel) == MatchSum then
          Released(r).(score := r.score + |sel|, apples := RemoveAll(r.apples, sel))
        else
          Released(r)
  }

  /** `handleInputEnd` with the guard the round's life cycle calls for: a release after the
      round has ended (or been reset) only ends the drag. */
  function EndDrag(r: Round): (r': Round)
    ensures !r'.drag.dragging
    ensures r'.started == r.started && r'.over == r.over && r'.timeLeft == r.timeLeft
    ensures r'.cellSize == r.cellSize
    ensures r'.score >= r.score && Keeps(r.apples, r'.apples)
    ensures !r.Running() ==> r'.score == r.score && r'.apples == r.apples
  {
    if r.drag.dragging && !r.Running() then Released(r) else EndDragAsWritten(r)
  }

  /** A release whose box is under 2px in both directions changes neither apples nor score. */
  lemma DegenerateDragIsIgnored(r: Round)
    requires Degenerate(DragRect(r))
    ensures EndDragAsWritten(r).apples == r.apples && EndDragAsWritten(r).score == r.score
    ensures EndDrag(r).apples == r.apples && EndDrag(r).score == r.score
  {
  }

  /** A selection that does not add up to ten, the empty one included, changes neither apples nor score. */
  lemma MissIsIgnored(r: Round)
    requires Sum(Selected(r.apples, DragRect(r), r.cellSize)) != MatchSum
    ensures EndDragAsWritten(r).apples == r.apples && EndDragAsWritten(r).score == r.score
    ensures EndDrag(r).apples == r.apples && EndDrag(r).score == r.score
  {
  }

  /** An empty selection sums to zero and so never matches. */
  lemma EmptySelectionMisses(r: Round)
    requires Selected(r.apples, DragRect(r), r.cellSize) == []
    ensures EndDragAsWritten(r).apples == r.apples && EndDragAsWritten(r).score == r.score
    ensures EndDrag(r).apples == r.apples && EndDrag(r).score == r.score
  {
  }

  /** A match removes exactly the live apples the box overlaps and adds their number to the
      score, whether or not the round is still running; while it runs, the guarded handler
      and the one as written agree. */
  lemma MatchRemovesSelection(r: Round)
    requires DistinctCells(r.apples)
    requires r.drag.dragging && !Degenerate(DragRect(r))
    requires Sum(Selected(r.apples, DragRect(r), r.cellSize)) == MatchSum
    ensures r.Running() ==> EndDrag(r) == EndDragAsWritten(r)
    ensures EndDragAsWritten(r).score == r.score + |Selected(r.apples, DragRect(r), r.cellSize)|
    ensures |EndDragAsWritten(r).apples| == |r.apples|
    ensures forall i :: 0 <= i < |r.apples| ==>
              EndDragAsWritten(r).apples[i] ==
                r.apples[i].(removed := r.apples[i].removed || Overlaps(r.apples[i], DragRect(r), r.cellSize))
  {
    var rect := DragRect(r);
    var sel := Selected(r.apples, rect, r.cellSize);
    RemoveAllEffect(r.apples, sel);
    SelectionCells(r.apples, rect, r.cellSize);
  }

  /** Two apples 4 and 6 side by side in the top-left corner. */
  const BoxedPair: seq<Apple> := [Apple(0, 0, 4, false), Apple(0, 1, 6, false)]

  /** A box from the origin to (59, 29) over 30px cells takes in both apples of the pair,
      which add up to ten. */
  lemma BoxedPairSelected()
    ensures Normalize(Point(0.0, 0.0), Point(59.0, 29.0)) == Rect(0.0, 0.0, 59.0, 29.0)
    ensures Selected(BoxedPair, Rect(0.0, 0.0, 59.0, 29.0), 30) == BoxedPair
    ensures Sum(BoxedPair) == MatchSum
  {
    var apples, rect := BoxedPair, Rect(0.0, 0.0, 59.0, 29.0);
    assert Overlaps(apples[0], rect, 30) && Overlaps(apples[1], rect, 30);
    assert apples == [apples[0]] + [apples[1]];
    FilterAppend((a: Apple) => !a.removed && Overlaps(a, rect, 30), [apples[0]], [apples[1]]);
  }

  /** The page's release handler scores after the clock has run out: here two apples 4
      and 6 are still boxed when time is up, and releasing adds 2 to the final score. */
  lemma ScoresAfterTimeUp()
    ensures
      var r := Round(BoxedPair, 30, 5, 0, true, true, Drag(true, Point(0.0, 0.0), Point(59.0, 29.0)));
      && !r.Running()
      && EndDragAsWritten(r).score == 7
      && EndDrag(r).score == 5
  {
    BoxedPairSelected();
  }

  // ---------------------------------------------------------------------------
  // Life cycle

  /** `handleStartGame` followed by the start effect. The effect only re-runs when
      `isGameStarted` changes, so pressing start on a started round just empties the board;
      score and clock are left as they are (reset restores them). */
  function Start(r: Round, draws: seq<Draw>): (r': Round)
    requires |draws| == GridRows * GridCols
    ensures r'.started
    ensures r'.score == r.score && r'.timeLeft == r.timeLeft && r'.over == r.over
    ensures !r.started && !r.over ==> r'.apples == Board(GridRows, GridCols, draws)
    ensures r.started ==> r'.apples == []
  {
    if r.started then r.(apples := [])
    else if r.over then r.(started := true, apples := [])
    else r.(started := true, apples := Board(GridRows, GridCols, draws))
  }

  /** One firing of the one-second interval. The interval is registered only while the round
      runs; it takes the clock down by one, and from one (or less) straight to zero, ending the round. */
  function Tick(r: Round): (r': Round)
    ensures r'.apples == r.apples && r'.score == r.score && r'.started == r.started
    ensures !r.Running() ==> r' == r
    ensures r.Running() ==> r'.timeLeft >= 0 && (r'.over <==> r.timeLeft <= 1)
    ensures r.Running() && r.timeLeft >= 1 ==> r'.timeLeft == r.timeLeft - 1
    ensures r.Running() && r.timeLeft <= 1 ==> r'.timeLeft == 0 && r'.over
  {
    if !r.Running() then r
    else if r.timeLeft <= 1 then r.(timeLeft := 0, over := true)
    else r.(timeLeft := r.timeLeft - 1)
  }

  /** `handleReset`: back to the start screen with a zero score and a full clock; the interval
      is cleared. The apples and the drag state are left as they are. */
  function Reset(r: Round): (r': Round)
    ensures !r'.started && !r'.over && r'.score == 0 && r'.timeLeft == GameDuration
    ensures r'.apples == r.apples && r'.drag == r.drag && r'.cellSize == r.cellSize
  {
    r.(started := false, over := false, score := 0, timeLeft := GameDuration)
  }

  /** What can happen to a round: the start button (with the draws `Math.random` returns),
      pointer press, move and release, a second passing, and the reset button. */
  datatype Event =
    | StartPressed(draws: seq<Draw>)
    | Press(p: Point)
    | Move(p: Point)
    | Release
    | Second
    | ResetPressed

  /** A start event carries one draw per cell. */
  predicate WellFormed(e: Event)
  {
    e.StartPressed? ==> |e.draws| == GridRows * GridCols
  }

  /** The page's reaction to one event, with the release handler as the page writes it. */
  function Step(r: Round, e: Event): Round
    requires WellFormed(e)
  {
    match e
    case StartPressed(draws) => Start(r, draws)
    case Press(p) => StartDrag(r, p)
    case Move(p) => MoveDrag(r, p)
    case Release => EndDragAsWritten(r)
    case Second => Tick(r)
    case ResetPressed => Reset(r)
  }

  function Run(r: Round, es: seq<Event>): Round
    requires forall k :: 0 <= k < |es| ==> WellFormed(es[k])
    decreases |es|
  {
    if es == [] then r else Run(Step(r, es[0]), es[1..])
  }

  /** The invariant of a round: no two apples share a cell, values are 1..9, the clock is
      within 0..120, a running round has time left, an ended round has none, and the
      start screen always shows a full clock. (Its score is 0 only under the guarded release,
      see `ValidFixed`: a drag still held across a reset can score on the start screen.) */
  ghost predicate Valid(r: Round)
  {
    && DistinctCells(r.apples)
    && (forall i :: 0 <= i < |r.apples| ==> 1 <= r.apples[i].val <= 9)
    && 0 <= r.timeLeft <= GameDuration
    && (r.Running() ==> r.timeLeft >= 1)
    && (r.over ==> r.started && r.timeLeft == 0)
    && (!r.started ==> r.timeLeft == GameDuration)
  }

  lemma InitialValid()
    ensures Valid(Initial)
  {
  }

  /** Every event keeps the invariant. Except reset, no event lowers the score or raises
      the clock; except start, no event brings a removed apple back or moves or revalues one. */
  lemma StepMonotone(r: Round, e: Event)
    requires Valid(r) && WellFormed(e)
    ensures Valid(Step(r, e))
    ensures !e.ResetPressed? ==> Step(r, e).score >= r.score && Step(r, e).timeLeft <= r.timeLeft
    ensures !e.StartPressed? ==> Keeps(r.apples, Step(r, e).apples)
  {
    var r' := Step(r, e);
    assert DistinctCells(r'.apples) by {
      if e.StartPressed? && !r.started && !r.over {
      } else if !e.StartPressed? {
        assert Keeps(r.apples, r'.apples);
        forall i, j | 0 <= i < j < |r'.apples| ensures !SameCell(r'.apples[i], r'.apples[j]) {
          assert !SameCell(r.apples[i], r.apples[j]);
        }
      }
    }
    if e.StartPressed? && !r.started && !r.over {
      assert forall i :: 0 <= i < |r'.apples| ==> 1 <= r'.apples[i].val <= 9;
    }
  }

  lemma KeepsTransitive(a: seq<Apple>, b: seq<Apple>, c: seq<Apple>)
    requires Keeps(a, b) && Keeps(b, c)
    ensures Keeps(a, c)
  {
  }

  /** Over any run of events without a reset the score never falls and the clock never rises;
      without a start as well, no removed apple ever comes back. */
  lemma {:induction false} RunMonotone(r: Round, es: seq<Event>)
    requires Valid(r)
    requires forall k :: 0 <= k < |es| ==> WellFormed(es[k])
    ensures Valid(Run(r, es))
    ensures (forall k :: 0 <= k < |es| ==> !es[k].ResetPressed?) ==>
              Run(r, es).score >= r.score && Run(r, es).timeLeft <= r.timeLeft
    ensures (forall k :: 0 <= k < |es| ==> !es[k].StartPressed?) ==> Keeps(r.apples, Run(r, es).apples)
    decreases |es|
  {
    if es != [] {
      StepMonotone(r, es[0]);
      var r1 := Step(r, es[0]);
      assert forall k :: 0 <= k < |es[1..]| ==> es[1..][k] == es[k + 1];
      RunMonotone(r1, es[1..]);
      if forall k :: 0 <= k < |es| ==> !es[k].StartPressed? {
        KeepsTransitive(r.apples, r1.apples, Run(r1, es[1..]).apples);
      }
    }
  }

  /** The page's reaction to one event with the guarded release handler. */
  function StepFixed(r: Round, e: Event): Round
    requires WellFormed(e)
  {
    if e.Release? then EndDrag(r) else Step(r, e)
  }

  function RunFixed(r: Round, es: seq<Event>): Round
    requires forall k :: 0 <= k < |es| ==> WellFormed(es[k])
    decreases |es|
  {
    if es == [] then r else RunFixed(StepFixed(r, es[0]), es[1..])
  }

  /** The invariant of a round under the guarded release: in addition, the start screen
      always shows score 0. */
  ghost predicate ValidFixed(r: Round)
  {
    Valid(r) && (!r.started ==> r.score == 0)
  }

  /** With the guarded release every event keeps the stronger invariant, and the score and
      clock move as under the handler as written. */
  lemma StepFixedValid(r: Round, e: Event)
    requires ValidFixed(r) && WellFormed(e)
    ensures ValidFixed(StepFixed(r, e))
    ensures !e.ResetPressed? ==> StepFixed(r, e).score >= r.score && StepFixed(r, e).timeLeft <= r.timeLeft
    ensures !e.StartPressed? ==> Keeps(r.apples, StepFixed(r, e).apples)
  {
    StepMonotone(r, e);
    if e.Release? && r.drag.dragging && !r.Running() {
      assert StepFixed(r, e) == Released(r);
    }
  }

  /** Over any run with the guarded release the stronger invariant holds throughout, so the
      start screen never shows points; without a reset the score never falls. */
  lemma {:induction false} RunFixedValid(r: Round, es: seq<Event>)
    requires ValidFixed(r)
    requires forall k :: 0 <= k < |es| ==> WellFormed(es[k])
    ensures ValidFixed(RunFixed(r, es))
    ensures (forall k :: 0 <= k < |es| ==> !es[k].ResetPressed?) ==>
              RunFixed(r, es).score >= r.score && RunFixed(r, es).timeLeft <= r.timeLeft
    decreases |es|
  {
    if es != [] {
      StepFixedValid(r, es[0]);
      assert forall k :: 0 <= k < |es[1..]| ==> es[1..][k] == es[k + 1];
      RunFixedValid(StepFixed(r, es[0]), es[1..]);
    }
  }

  /** The page as written scores on the start screen: a round is reset while two apples 4
      and 6 are boxed, and releasing afterwards shows 2 points before the next start. With
      the guarded release the score stays 0. */
  lemma ScoresAfterReset()
    ensures
      var r := Round(BoxedPair, 30, 0, 50, true, false, Drag(true, Point(0.0, 0.0), Point(59.0, 29.0)));
      && ValidFixed(r)
      && Run(r, [ResetPressed, Release]).score == 2 && !Run(r, [ResetPressed, Release]).started
      && RunFixed(r, [ResetPressed, Release]).score == 0
  {
    var r := Round(BoxedPair, 30, 0, 50, true, false, Drag(true, Point(0.0, 0.0), Point(59.0, 29.0)));
    assert ValidFixed(r) by {
      assert DistinctCells(BoxedPair);
    }
    RunTwo(r, ResetPressed, Release);
    BoxedPairSelected();
  }

  /** Two events in a row, under either release handler. */
  lemma RunTwo(r: Round, e1: Event, e2: Event)
    requires WellFormed(e1) && WellFormed(e2)
    ensures Run(r, [e1, e2]) == Step(Step(r, e1), e2)
    ensures RunFixed(r, [e1, e2]) == StepFixed(StepFixed(r, e1), e2)
  {
    var r1 := Step(r, e1);
    var f1 := StepFixed(r, e1);
    assert [e1, e2][0] == e1 && [e1, e2][1..] == [e2];
    assert [e2][0] == e2 && [e2][1..] == [];
    assert Run(r, [e1, e2]) == Run(r1, [e2]) == Run(Step(r1, e2), []);
    assert RunFixed(r, [e1, e2]) == RunFixed(f1, [e2]) == RunFixed(StepFixed(f1, e2), []);
  }

  function Ticks(r: Round, n: nat): Round
    decreases n
  {
    if n == 0 then r else Ticks(Tick(r), n - 1)
  }

  /** A running round ends after as many seconds as are left, with the clock at zero, and
      further seconds change nothing; from then on presses are ignored. */
  lemma {:induction false} ClockRunsOut(r: Round, n: nat)
    requires Valid(r) && r.Running() && n >= r.timeLeft
    ensures Ticks(r, n).over && Ticks(r, n).timeLeft == 0
    ensures Ticks(r, n).score == r.score && Ticks(r, n).apples == r.apples
    ensures forall p :: StartDrag(Ticks(r, n), p) == Ticks(r, n)
    decreases n
  {
    var r1 := Tick(r);
    if r.timeLeft <= 1 {
      EndedStaysEnded(r1, n - 1);
    } else {
      ClockRunsOut(r1, n - 1);
    }
  }

  /** Seconds passing after the end change nothing. */
  lemma {:induction false} EndedStaysEnded(r: Round, n: nat)
    requires r.over
    ensures Ticks(r, n) == r
    decreases n
  {
    if n > 0 {
      EndedStaysEnded(Tick(r), n - 1);
    }
  }

  /** Reset followed by start always gives a fresh round: running, score 0, a full clock
      and a complete board with no apple removed. */
  lemma ResetThenStart(r: Round, draws: seq<Draw>)
    requires |draws| == GridRows * GridCols
    ensures var r' := Start(Reset(r), draws);
      && r'.Running() && r'.score == 0 && r'.timeLeft == GameDuration
      && r'.apples == Board(GridRows, GridCols, draws)
      && forall i :: 0 <= i < |r'.apples| ==> !r'.apples[i].removed
  {
  }
}
