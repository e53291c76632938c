/** The 8x8 board as a value, and the rules of the game stated over it:
    where a shape fits, what placing it writes, which lines are full, what
    clearing them leaves, and when no tray shape fits anywhere. The engine in
    module GameLogic is proved against these definitions. */
module Board {
  import opened Shapes

  datatype Option<+T> = None | Some(value: T)

  /** A cell is empty (None) or holds the color of the block placed there. */
  type Cell = Option<Color>

  /** The board, row by row. */
  type Grid = seq<seq<Cell>>

  const GRID_SIZE: nat := 8

  predicate IsGrid(g: Grid)
  {
    |g| == GRID_SIZE && forall r :: 0 <= r < GRID_SIZE ==> |g[r]| == GRID_SIZE
  }

  predicate InBounds(row: int, col: int)
  {
    0 <= row < GRID_SIZE && 0 <= col < GRID_SIZE
  }

  function EmptyGrid(): (g: Grid)
    ensures IsGrid(g)
    ensures forall r, c :: 0 <= r < GRID_SIZE && 0 <= c < GRID_SIZE ==> g[r][c] == None
  {
    seq(GRID_SIZE, r => seq(GRID_SIZE, c => None))
  }

  /** Entry (i, j) of the matrix is a block: it exists and equals 1. Entries
      that are 0 (or anything but 1) take no part in placement. */
  predicate IsBlock(m: Matrix, i: int, j: int)
  {
    0 <= i < |m| && 0 <= j < |m[i]| && m[i][j] == 1
  }

  /** The shape fits with its top-left corner at (startRow, startCol): every
      block lands on an in-bounds, empty cell. */
  ghost predicate Fits(g: Grid, m: Matrix, startRow: int, startCol: int)
    requires IsGrid(g)
  {
    forall i, j :: IsBlock(m, i, j) ==>
      InBounds(startRow + i, startCol + j) && g[startRow + i][startCol + j] == None
  }

  /** The board after writing the shape's blocks at the offset; every other
      cell keeps its value. */
  function Place(g: Grid, m: Matrix, startRow: int, startCol: int, color: Color): (g': Grid)
    requires IsGrid(g)
    ensures IsGrid(g')
  {
    seq(GRID_SIZE, r requires 0 <= r < GRID_SIZE =>
      seq(GRID_SIZE, c requires 0 <= c < GRID_SIZE =>
        if IsBlock(m, r - startRow, c - startCol) then Some(color) else g[r][c]))
  }

  datatype Axis = Row | Col

  /** The k-th cell of row or column `line`. */
  function CellOn(g: Grid, axis: Axis, line: int, k: int): Cell
    requires IsGrid(g) && 0 <= line < GRID_SIZE && 0 <= k < GRID_SIZE
  {
    if axis == Row then g[line][k] else g[k][line]
  }

  /** Every cell of the row or column is occupied. */
  predicate LineFull(g: Grid, axis: Axis, line: int)
    requires IsGrid(g) && 0 <= line < GRID_SIZE
  {
    forall k :: 0 <= k < GRID_SIZE ==> CellOn(g, axis, line, k).Some?
  }

  /** The full lines among 0 .. n-1, in increasing order. */
  function FullLinesBelow(g: Grid, axis: Axis, n: nat): seq<int>
    requires IsGrid(g) && n <= GRID_SIZE
  {
    if n == 0 then []
    else FullLinesBelow(g, axis, n - 1) + (if LineFull(g, axis, n - 1) then [n - 1] else [])
  }

  function FullLines(g: Grid, axis: Axis): seq<int>
    requires IsGrid(g)
  {
    FullLinesBelow(g, axis, GRID_SIZE)
  }

  predicate StrictlyIncreasing(s: seq<int>)
  {
    forall i, j :: 0 <= i < j < |s| ==> s[i] < s[j]
  }

  /** The board after emptying every cell that lies in one of `rows` or one of
      `cols` (their union); all other cells keep their value. */
  function Cleared(g: Grid, rows: seq<int>, cols: seq<int>): (g': Grid)
    requires IsGrid(g)
    ensures IsGrid(g')
  {
    seq(GRID_SIZE, r requires 0 <= r < GRID_SIZE =>
      seq(GRID_SIZE, c requires 0 <= c < GRID_SIZE =>
        if r in rows || c in cols then None else g[r][c]))
  }

  /** The board once every full row and column of `g` has been emptied. */
  function ClearFullLines(g: Grid): (g': Grid)
    requires IsGrid(g)
    ensures IsGrid(g')
  {
    Cleared(g, FullLines(g, Row), FullLines(g, Col))
  }

  /** The number of full rows plus full columns. */
  function Combo(g: Grid): nat
    requires IsGrid(g)
  {
    |FullLines(g, Row)| + |FullLines(g, Col)|
  }

  /** No shape of a non-empty tray fits at any of the 8x8 top-left offsets.
      An empty tray is never game over: a refill is due. */
  ghost predicate GameOver(g: Grid, tray: seq<Shape>)
    requires IsGrid(g)
  {
    |tray| > 0 &&
    forall k, r, c :: 0 <= k < |tray| && 0 <= r < GRID_SIZE && 0 <= c < GRID_SIZE ==> !Fits(g, tray[k].matrix, r, c)
  }

  // ---------------------------------------------------------------------------
  // Placement

  /** A block that lands outside the board makes the placement illegal. */
  lemma OutOfBoundsBlockRejects(g: Grid, m: Matrix, startRow: int, startCol: int, i: int, j: int)
    requires IsGrid(g)
    requires IsBlock(m, i, j) && !InBounds(startRow + i, startCol + j)
    ensures !Fits(g, m, startRow, startCol)
  {
  }

  /** A block that lands on an occupied cell makes the placement illegal. */
  lemma OverlapRejects(g: Grid, m: Matrix, startRow: int, startCol: int, i: int, j: int)
    requires IsGrid(g)
    requires IsBlock(m, i, j) && InBounds(startRow + i, startCol + j)
    requires g[startRow + i][startCol + j].Some?
    ensures !Fits(g, m, startRow, startCol)
  {
  }

  /** Only the blocks matter: two matrices with the same blocks fit at exactly
      the same offsets, however many 0-entries either has, in bounds or not. */
  lemma FitsIgnoresZeros(g: Grid, m: Matrix, m': Matrix, startRow: int, startCol: int)
    requires IsGrid(g)
    requires forall i, j :: IsBlock(m, i, j) <==> IsBlock(m', i, j)
    ensures Fits(g, m, startRow, startCol) <==> Fits(g, m', startRow, startCol)
  {
  }

  /** Placing a fitting shape writes its color on exactly the cells under its
      blocks, and every such cell was empty before. */
  lemma PlaceWritesBlocks(g: Grid, m: Matrix, startRow: int, startCol: int, color: Color)
    requires IsGrid(g) && Fits(g, m, startRow, startCol)
    ensures forall i, j :: IsBlock(m, i, j) ==>
              g[startRow + i][startCol + j] == None &&
              Place(g, m, startRow, startCol, color)[startRow + i][startCol + j] == Some(color)
    ensures forall r, c :: 0 <= r < GRID_SIZE && 0 <= c < GRID_SIZE && !IsBlock(m, r - startRow, c - startCol) ==>
              Place(g, m, startRow, startCol, color)[r][c] == g[r][c]
  {
    var g' := Place(g, m, startRow, startCol, color);
    forall i, j | IsBlock(m, i, j)
      ensures g'[startRow + i][startCol + j] == Some(color)
    {
      assert InBounds(startRow + i, startCol + j);
      assert IsBlock(m, (startRow + i) - startRow, (startCol + j) - startCol);
    }
  }

  // ---------------------------------------------------------------------------
  // Full lines

  /** A line index is listed iff it is below n and the line is full; the list
      is strictly increasing. */
  lemma {:induction false} FullLinesBelowSpec(g: Grid, axis: Axis, n: nat)
    requires IsGrid(g) && n <= GRID_SIZE
    ensures forall k :: k in FullLinesBelow(g, axis, n) <==> 0 <= k < n && LineFull(g, axis, k)
    ensures StrictlyIncreasing(FullLinesBelow(g, axis, n))
  {
    if n > 0 {
      FullLinesBelowSpec(g, axis, n - 1);
      var prev := FullLinesBelow(g, axis, n - 1);
      forall i | 0 <= i < |prev|
        ensures prev[i] < n - 1
      {
        assert prev[i] in prev;
      }
      var s := FullLinesBelow(g, axis, n);
      assert s == prev || s == prev + [n - 1];
    }
  }

  /** Lines lo .. n-1 that are not full add nothing to the list. */
  lemma {:induction false} FullLinesBelowSkips(g: Grid, axis: Axis, lo: nat, n: nat)
    requires IsGrid(g) && lo <= n <= GRID_SIZE
    requires forall k :: lo <= k < n ==> !LineFull(g, axis, k)
    ensures FullLinesBelow(g, axis, n) == FullLinesBelow(g, axis, lo)
  {
    if lo < n {
      FullLinesBelowSkips(g, axis, lo, n - 1);
    }
  }

  /** Row (column) r is listed iff it is full, the list is strictly increasing
      and holds only indices of the board. */
  lemma FullLinesSpec(g: Grid, axis: Axis)
    requires IsGrid(g)
    ensures forall k :: k in FullLines(g, axis) <==> 0 <= k < GRID_SIZE && LineFull(g, axis, k)
    ensures StrictlyIncreasing(FullLines(g, axis))
    ensures |FullLines(g, axis)| <= GRID_SIZE
  {
    FullLinesBelowSpec(g, axis, GRID_SIZE);
    ListedLinesBound(FullLines(g, axis), GRID_SIZE);
  }

  /** A strictly increasing list of naturals below n has at most n entries. */
  lemma {:induction false} ListedLinesBound(s: seq<int>, n: nat)
    requires StrictlyIncreasing(s)
    requires forall k :: k in s ==> 0 <= k < n
    ensures |s| <= n
  {
    if s != [] {
      var last := s[|s| - 1];
      var init := s[..|s| - 1];
      assert forall k :: k in init ==> 0 <= k < last by {
        forall k | k in init ensures 0 <= k < last {
          var i :| 0 <= i < |init| && init[i] == k;
          assert s[i] == k && s[i] < s[|s| - 1] && s[i] in s;
        }
      }
      assert last in s;
      ListedLinesBound(init, last);
    }
  }

  // ---------------------------------------------------------------------------
  // Clearing

  /** Clearing empties exactly the union of the given rows and columns. */
  lemma ClearedCells(g: Grid, rows: seq<int>, cols: seq<int>, r: int, c: int)
    requires IsGrid(g) && InBounds(r, c)
    ensures Cleared(g, rows, cols)[r][c] == if r in rows || c in cols then None else g[r][c]
  {
  }

  /** Clearing no line leaves the board as it was. */
  lemma ClearedNothing(g: Grid)
    requires IsGrid(g)
    ensures Cleared(g, [], []) == g
  {
    var g' := Cleared(g, [], []);
    forall r | 0 <= r < GRID_SIZE
      ensures g'[r] == g[r]
    {
      assert forall c :: 0 <= c < GRID_SIZE ==> g'[r][c] == g[r][c];
    }
  }

  /** Once every full row and column has been cleared, no line is full: the
      board the player continues on is line-free. */
  lemma NoFullLineAfterClear(g: Grid, axis: Axis, line: int)
    requires IsGrid(g) && 0 <= line < GRID_SIZE
    ensures !LineFull(ClearFullLines(g), axis, line)
  {
    var g' := ClearFullLines(g);
    FullLinesSpec(g, Row);
    FullLinesSpec(g, Col);
    if LineFull(g, axis, line) {
      // the line itself is cleared: its first cell is now empty
      assert CellOn(g', axis, line, 0) == None;
    } else {
      // a cell of the line was empty before, and clearing only empties cells
      var k :| 0 <= k < GRID_SIZE && CellOn(g, axis, line, k) == None;
      assert CellOn(g', axis, line, k) == None;
    }
  }

  /** Clearing only empties cells, so whatever fitted before still fits. */
  lemma FitsSurvivesClearing(g: Grid, rows: seq<int>, cols: seq<int>, m: Matrix, r: int, c: int)
    requires IsGrid(g) && Fits(g, m, r, c)
    ensures Fits(Cleared(g, rows, cols), m, r, c)
  {
  }

  // ---------------------------------------------------------------------------
  // Game over

  /** One shape that fits at one offset is enough to keep the game going. */
  lemma FittingShapeKeepsGameAlive(g: Grid, tray: seq<Shape>, k: int, r: int, c: int)
    requires IsGrid(g)
    requires 0 <= k < |tray| && InBounds(r, c) && Fits(g, tray[k].matrix, r, c)
    ensures !GameOver(g, tray)
  {
  }

  /** Every catalog template fits on an empty board at offset (0, 0). */
  lemma TemplateFitsEmptyGrid(t: nat)
    requires t < |SHAPE_TYPES|
    ensures Fits(EmptyGrid(), SHAPE_TYPES[t].matrix, 0, 0)
  {
    TemplatesWellFormed();
    var m := SHAPE_TYPES[t].matrix;
    assert AtMost4x4(m);
  }

  /** A freshly drawn, non-empty tray can never be game over on an empty board. */
  lemma EmptyGridNotOver(tray: seq<Shape>, draws: seq<Draw>)
    requires DrawnFrom(tray, draws)
    ensures !GameOver(EmptyGrid(), tray)
  {
    if |tray| > 0 {
      TemplateFitsEmptyGrid(draws[0].template);
      FittingShapeKeepsGameAlive(EmptyGrid(), tray, 0, 0, 0);
    }
  }

  /** Clearing lines can only end a game that was already over on the board
      before the clear: freeing cells never takes a legal move away. */
  lemma ClearingNeverEndsGame(g: Grid, rows: seq<int>, cols: seq<int>, tray: seq<Shape>)
    requires IsGrid(g)
    requires GameOver(Cleared(g, rows, cols), tray)
    ensures GameOver(g, tray)
  {
    forall k, r, c | 0 <= k < |tray| && 0 <= r < GRID_SIZE && 0 <= c < GRID_SIZE
      ensures !Fits(g, tray[k].matrix, r, c)
    {
      if Fits(g, tray[k].matrix, r, c) {
        FitsSurvivesClearing(g, rows, cols, tray[k].matrix, r, c);
      }
    }
  }
}
