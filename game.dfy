/** The game-logic engine: placement checks, line detection and game-over
    search over a mutable 8x8 board, and the session object whose only
    mutators are PlaceShape and ResetGame. React's effects and the clearing
    timer are folded into one synchronous PlaceShape: place the blocks, clear
    the full lines, add to the score, take the shape off the tray, refill an
    empty tray, then decide whether the game is over. */
module GameLogic {
  import opened Shapes
  import opened Board

  const TRAY_SIZE: nat := 3

  /** What a placement that completes lines reports: the full rows and
      columns, the bonus it earned (not the block points), the number of lines
      and the color of the shape that completed them. */
  datatype ClearedLines = ClearedLines(rows: seq<int>, cols: seq<int>, score: int, combo: int, color: Color)

  /** The report of the clear a board with full lines triggers: the full rows
      and columns, the bonus of ten points per line, the line count and the
      color of the shape that completed them; None when no line is full. */
  function ClearReport(filled: Grid, color: Color): Option<ClearedLines>
    requires IsGrid(filled)
  {
    var rows, cols := FullLines(filled, Row), FullLines(filled, Col);
    var combo := |rows| + |cols|;
    if combo > 0 then Some(ClearedLines(rows, cols, combo * 10, combo, color)) else None
  }

  /** A 1x8 line dropped at (0, 0) on an empty board completes row 0 and no
      column: the placement earns 8 + 10 = 18 points, reports one cleared
      row, and leaves the board empty again. */
  lemma FullRowExample(color: Color)
    ensures var line := [[1, 1, 1, 1, 1, 1, 1, 1]];
            var filled := Place(EmptyGrid(), line, 0, 0, color);
            && FullLines(filled, Row) == [0] && FullLines(filled, Col) == []
            && CountOnes(line) + 10 * Combo(filled) == 18
            && ClearReport(filled, color) == Some(ClearedLines([0], [], 10, 1, color))
            && ClearFullLines(filled) == EmptyGrid()
  {
    var line := [[1, 1, 1, 1, 1, 1, 1, 1]];
    var filled := Place(EmptyGrid(), line, 0, 0, color);
    OnesInRowAllOnes(line[0]);
    assert CountOnes(line) == OnesInRow(line[0]) by {
      assert line[..0] == [];
    }
    forall k | 0 <= k < GRID_SIZE
      ensures filled[0][k] == Some(color)
    {
      assert IsBlock(line, 0, k);
    }
    assert LineFull(filled, Row, 0);
    forall r | 1 <= r < GRID_SIZE
      ensures !LineFull(filled, Row, r)
    {
      assert CellOn(filled, Row, r, 0) == None;
    }
    forall c | 0 <= c < GRID_SIZE
      ensures !LineFull(filled, Col, c)
    {
      assert CellOn(filled, Col, c, 1) == None;
    }
    FullLinesBelowSkips(filled, Row, 1, GRID_SIZE);
    assert FullLinesBelow(filled, Row, 1) == [0];
    FullLinesBelowSkips(filled, Col, 0, GRID_SIZE);
    var cleared := ClearFullLines(filled);
    forall r | 0 <= r < GRID_SIZE
      ensures cleared[r] == EmptyGrid()[r]
    {
      assert forall c :: 0 <= c < GRID_SIZE ==> cleared[r][c] == None;
    }
  }

  predicate IsBoardArray(a: array2<Cell>)
  {
    a.Length0 == GRID_SIZE && a.Length1 == GRID_SIZE
  }

  /** The board an 8x8 array holds, as a value. */
  ghost function Snapshot(a: array2<Cell>): (g: Grid)
    requires IsBoardArray(a)
    reads a
    ensures IsGrid(g)
    ensures forall r, c {:trigger g[r][c]} :: 0 <= r < GRID_SIZE && 0 <= c < GRID_SIZE ==> g[r][c] == a[r, c]
  {
    RowsOfAt(a, GRID_SIZE);
    RowsOf(a, GRID_SIZE)
  }

  /** Row r of the array, its first n cells. */
  ghost function RowOf(a: array2<Cell>, r: nat, n: nat): seq<Cell>
    requires r < a.Length0 && n <= a.Length1
    reads a
  {
    if n == 0 then [] else RowOf(a, r, n - 1) + [a[r, n - 1]]
  }

  /** The first n rows of the array. */
  ghost function RowsOf(a: array2<Cell>, n: nat): Grid
    requires n <= a.Length0
    reads a
  {
    if n == 0 then [] else RowsOf(a, n - 1) + [RowOf(a, n - 1, a.Length1)]
  }

  lemma {:induction false} RowOfAt(a: array2<Cell>, r: nat, n: nat)
    requires r < a.Length0 && n <= a.Length1
    ensures |RowOf(a, r, n)| == n
    ensures forall c :: 0 <= c < n ==> RowOf(a, r, n)[c] == a[r, c]
  {
    if n > 0 {
      RowOfAt(a, r, n - 1);
    }
  }

  lemma {:induction false} RowsOfAt(a: array2<Cell>, n: nat)
    requires n <= a.Length0
    ensures |RowsOf(a, n)| == n
    ensures forall r :: 0 <= r < n ==> |RowsOf(a, n)[r]| == a.Length1
    ensures forall r, c :: 0 <= r < n && 0 <= c < a.Length1 ==> RowsOf(a, n)[r][c] == a[r, c]
  {
    if n > 0 {
      RowsOfAt(a, n - 1);
      RowOfAt(a, n - 1, a.Length1);
    }
  }

  /** The board an array holds depends only on the array's cells. */
  twostate lemma SnapshotUnchanged(a: array2<Cell>)
    requires IsBoardArray(a) && unchanged(a)
    ensures Snapshot(a) == old(Snapshot(a))
  {
  }

  lemma SnapshotEquals(a: array2<Cell>, g: Grid)
    requires IsBoardArray(a) && IsGrid(g)
    requires forall r, c :: 0 <= r < GRID_SIZE && 0 <= c < GRID_SIZE ==> a[r, c] == g[r][c]
    ensures Snapshot(a) == g
  {
    var s := Snapshot(a);
    forall r | 0 <= r < GRID_SIZE
      ensures s[r] == g[r]
    {
      assert forall c :: 0 <= c < GRID_SIZE ==> 0 <= r < GRID_SIZE && 0 <= c < GRID_SIZE && s[r][c] == g[r][c];
    }
  }

  // ---------------------------------------------------------------------------
  // Queries on a board

  /** Whether the shape can go with its top-left corner at (startRow,
      startCol): scans the matrix row by row and rejects at the first block
      that is out of bounds or on an occupied cell. Never writes the board. */
  method CanPlaceShape(grid: array2<Cell>, shape: Shape, startRow: int, startCol: int) returns (ok: bool)
    requires IsBoardArray(grid)
    ensures ok == Fits(Snapshot(grid), shape.matrix, startRow, startCol)
  {
    var m := shape.matrix;
    for r := 0 to |m|
      invariant forall i, j :: 0 <= i < r && IsBlock(m, i, j) ==>
                  InBounds(startRow + i, startCol + j) && grid[startRow + i, startCol + j] == None
    {
      for c := 0 to |m[r]|
        invariant forall i, j :: (0 <= i < r || (i == r && j < c)) && IsBlock(m, i, j) ==>
                    InBounds(startRow + i, startCol + j) && grid[startRow + i, startCol + j] == None
      {
        if m[r][c] == 1 {
          var row := startRow + r;
          var col := startCol + c;
          assert IsBlock(m, r, c);
          if row < 0 || row >= GRID_SIZE || col < 0 || col >= GRID_SIZE {
            return false; // out of bounds
          }
          if grid[row, col] != None {
            return false; // cell occupied
          }
        }
      }
    }
    return true;
  }

  /** The full rows and the full columns of the board, each in increasing order. */
  method CheckLines(newGrid: array2<Cell>) returns (clearRows: seq<int>, clearCols: seq<int>)
    requires IsBoardArray(newGrid)
    ensures forall r :: r in clearRows <==> 0 <= r < GRID_SIZE && LineFull(Snapshot(newGrid), Row, r)
    ensures forall c :: c in clearCols <==> 0 <= c < GRID_SIZE && LineFull(Snapshot(newGrid), Col, c)
    ensures StrictlyIncreasing(clearRows) && StrictlyIncreasing(clearCols)
    ensures clearRows == FullLines(Snapshot(newGrid), Row)
    ensures clearCols == FullLines(Snapshot(newGrid), Col)
  {
    ghost var g := Snapshot(newGrid);
    clearRows := [];
    for r := 0 to GRID_SIZE
      invariant clearRows == FullLinesBelow(g, Row, r)
    {
      var rowFull := forall c | 0 <= c < GRID_SIZE :: newGrid[r, c] != None;
      forall k | 0 <= k < GRID_SIZE
        ensures CellOn(g, Row, r, k) == newGrid[r, k]
      {
        assert InBounds(r, k);
      }
      if rowFull {
        clearRows := clearRows + [r];
      }
    }
    clearCols := [];
    for c := 0 to GRID_SIZE
      invariant clearCols == FullLinesBelow(g, Col, c)
    {
      var isFull := true;
      for r := 0 to GRID_SIZE
        invariant isFull
        invariant forall k :: 0 <= k < r ==> CellOn(g, Col, c, k).Some?
      {
        if newGrid[r, c] == None {
          assert CellOn(g, Col, c, r) == None;
          isFull := false;
          break;
        }
      }
      if isFull {
        clearCols := clearCols + [c];
      }
    }
    FullLinesSpec(g, Row);
    FullLinesSpec(g, Col);
  }

  /** Game over: the tray is non-empty and no shape on it fits at any of the
      8x8 offsets. Tries the shapes in tray order and stops at the first fit. */
  method CheckGameOver(currentGrid: array2<Cell>, shapes: seq<Shape>) returns (over: bool)
    requires IsBoardArray(currentGrid)
    ensures over == GameOver(Snapshot(currentGrid), shapes)
  {
    ghost var g := Snapshot(currentGrid);
    if |shapes| == 0 {
      return false; // more shapes are on their way
    }
    for k := 0 to |shapes|
      invariant forall k', r, c :: 0 <= k' < k && 0 <= r < GRID_SIZE && 0 <= c < GRID_SIZE ==> !Fits(g, shapes[k'].matrix, r, c)
    {
      var shape := shapes[k];
      var canFit := false;
      ghost var fitRow, fitCol := 0, 0;
      for r := 0 to GRID_SIZE
        invariant !canFit
        invariant forall r', c :: 0 <= r' < r && 0 <= c < GRID_SIZE ==> !Fits(g, shape.matrix, r', c)
      {
        for c := 0 to GRID_SIZE
          invariant !canFit
          invariant forall c' :: 0 <= c' < c ==> !Fits(g, shape.matrix, r, c')
        {
          var fits := CanPlaceShape(currentGrid, shape, r, c);
          if fits {
            canFit := true;
            fitRow, fitCol := r, c;
            break;
          }
        }
        if canFit {
          break;
        }
      }
      if canFit {
        FittingShapeKeepsGameAlive(g, shapes, k, fitRow, fitCol);
        return false; // found a spot for at least one shape
      }
    }
    return true;
  }

  // ---------------------------------------------------------------------------
  // The steps of a placement

  /** The independent copy of the board that a placement writes into. */
  method CopyGrid(grid: array2<Cell>) returns (copy: array2<Cell>)
    requires IsBoardArray(grid)
    ensures fresh(copy) && IsBoardArray(copy)
    ensures Snapshot(copy) == Snapshot(grid)
  {
    copy := new Cell[GRID_SIZE, GRID_SIZE]((r, c) requires InBounds(r, c) reads grid => grid[r, c]);
    SnapshotEquals(copy, Snapshot(grid));
  }

  /** The blocks of the first r + 1 rows: those of the first r rows and those of row r. */
  lemma BlocksOfLongerPrefix(m: Matrix, r: int)
    requires 0 <= r < |m|
    ensures forall i, j :: IsBlock(m[..r + 1], i, j) <==>
              IsBlock(m[..r], i, j) || (i == r && 0 <= j < |m[r]| && m[r][j] == 1)
  {
  }

  /** Writes the shape's color under each of its blocks and counts them. */
  method WriteShape(newGrid: array2<Cell>, shape: Shape, startRow: int, startCol: int) returns (placedBlocks: nat)
    requires IsBoardArray(newGrid)
    requires forall i, j :: IsBlock(shape.matrix, i, j) ==> InBounds(startRow + i, startCol + j)
    modifies newGrid
    ensures Snapshot(newGrid) == Place(old(Snapshot(newGrid)), shape.matrix, startRow, startCol, shape.color)
    ensures placedBlocks == CountOnes(shape.matrix)
  {
    ghost var g := Snapshot(newGrid);
    var m := shape.matrix;
    placedBlocks := 0;
    for r := 0 to |m|
      invariant placedBlocks == CountOnes(m[..r])
      invariant forall x, y :: 0 <= x < GRID_SIZE && 0 <= y < GRID_SIZE ==>
                  newGrid[x, y] == if IsBlock(m[..r], x - startRow, y - startCol) then Some(shape.color) else g[x][y]
    {
      var rowBlocks := WriteRow(newGrid, m, r, startRow, startCol, shape.color);
      placedBlocks := placedBlocks + rowBlocks;
      assert m[..r + 1][..r] == m[..r];
      BlocksOfLongerPrefix(m, r);
    }
    assert m[..|m|] == m;
    SnapshotEquals(newGrid, Place(g, m, startRow, startCol, shape.color));
  }

  /** Writes the color under each block of row r of the matrix and counts them. */
  method WriteRow(newGrid: array2<Cell>, m: Matrix, r: int, startRow: int, startCol: int, color: Color)
      returns (rowBlocks: nat)
    requires IsBoardArray(newGrid) && 0 <= r < |m|
    requires forall j :: IsBlock(m, r, j) ==> InBounds(startRow + r, startCol + j)
    modifies newGrid
    ensures rowBlocks == OnesInRow(m[r])
    ensures forall x, y :: 0 <= x < GRID_SIZE && 0 <= y < GRID_SIZE ==>
              newGrid[x, y] == if x - startRow == r && 0 <= y - startCol < |m[r]| && m[r][y - startCol] == 1
                               then Some(color) else old(newGrid[x, y])
  {
    rowBlocks := 0;
    for c := 0 to |m[r]|
      invariant rowBlocks == OnesInRow(m[r][..c])
      invariant forall x, y :: 0 <= x < GRID_SIZE && 0 <= y < GRID_SIZE ==>
                  newGrid[x, y] == if x - startRow == r && 0 <= y - startCol < c && m[r][y - startCol] == 1
                                   then Some(color) else old(newGrid[x, y])
    {
      assert m[r][..c + 1][..c] == m[r][..c];
      if m[r][c] == 1 {
        assert IsBlock(m, r, c);
        newGrid[startRow + r, startCol + c] := Some(color);
        rowBlocks := rowBlocks + 1;
      }
    }
    assert m[r][..|m[r]|] == m[r];
  }

  /** The coordinates of every cell in one of the rows or one of the columns. */
  method CellsToClear(clearRows: seq<int>, clearCols: seq<int>) returns (cellsToClear: set<(int, int)>)
    ensures forall r, c :: (r, c) in cellsToClear <==>
              (r in clearRows && 0 <= c < GRID_SIZE) || (c in clearCols && 0 <= r < GRID_SIZE)
  {
    cellsToClear := {};
    for i := 0 to |clearRows|
      invariant forall r, c :: (r, c) in cellsToClear <==> r in clearRows[..i] && 0 <= c < GRID_SIZE
    {
      for c := 0 to GRID_SIZE
        invariant forall r', c' :: (r', c') in cellsToClear <==>
                    (r' in clearRows[..i] && 0 <= c' < GRID_SIZE) || (r' == clearRows[i] && 0 <= c' < c)
      {
        cellsToClear := cellsToClear + {(clearRows[i], c)};
      }
      assert clearRows[..i + 1] == clearRows[..i] + [clearRows[i]];
    }
    assert clearRows[..|clearRows|] == clearRows;
    for j := 0 to |clearCols|
      invariant forall r, c :: (r, c) in cellsToClear <==>
                  (r in clearRows && 0 <= c < GRID_SIZE) || (c in clearCols[..j] && 0 <= r < GRID_SIZE)
    {
      for r := 0 to GRID_SIZE
        invariant forall r', c' :: (r', c') in cellsToClear <==>
                    (r' in clearRows && 0 <= c' < GRID_SIZE) || (c' in clearCols[..j] && 0 <= r' < GRID_SIZE)
                    || (c' == clearCols[j] && 0 <= r' < r)
      {
        cellsToClear := cellsToClear + {(r, clearCols[j])};
      }
      assert clearCols[..j + 1] == clearCols[..j] + [clearCols[j]];
    }
    assert clearCols[..|clearCols|] == clearCols;
  }

  /** Empties each listed cell of the board; the other cells keep their value. */
  method ClearCells(grid: array2<Cell>, cellsToClear: set<(int, int)>)
    requires IsBoardArray(grid)
    requires forall p :: p in cellsToClear ==> InBounds(p.0, p.1)
    modifies grid
    ensures forall r, c :: 0 <= r < GRID_SIZE && 0 <= c < GRID_SIZE ==>
              grid[r, c] == if (r, c) in cellsToClear then None else old(grid[r, c])
  {
    var todo := cellsToClear;
    while todo != {}
      invariant todo <= cellsToClear
      invariant forall r, c :: 0 <= r < GRID_SIZE && 0 <= c < GRID_SIZE ==>
                  grid[r, c] == if (r, c) in cellsToClear - todo then None else old(grid[r, c])
      decreases todo
    {
      var key :| key in todo;
      grid[key.0, key.1] := None;
      todo := todo - {key};
    }
  }

  /** Empties every cell in one of `rows` or one of `cols`. */
  method ClearLines(newGrid: array2<Cell>, rows: seq<int>, cols: seq<int>)
    requires IsBoardArray(newGrid)
    requires forall r :: r in rows ==> 0 <= r < GRID_SIZE
    requires forall c :: c in cols ==> 0 <= c < GRID_SIZE
    modifies newGrid
    ensures Snapshot(newGrid) == Cleared(old(Snapshot(newGrid)), rows, cols)
  {
    ghost var filled := Snapshot(newGrid);
    var cellsToClear := CellsToClear(rows, cols);
    ClearCells(newGrid, cellsToClear);
    forall r, c | 0 <= r < GRID_SIZE && 0 <= c < GRID_SIZE
      ensures newGrid[r, c] == Cleared(filled, rows, cols)[r][c]
    {
      ClearedCells(filled, rows, cols, r, c);
    }
    SnapshotEquals(newGrid, Cleared(filled, rows, cols));
  }

  /** Finds the full rows and columns of a freshly written board and empties
      them. Returns the line bonus (ten points per line) and, when some line
      was full, the report of the clear in the given color. */
  method ClearFullLinesOf(newGrid: array2<Cell>, color: Color) returns (bonus: nat, cleared: Option<ClearedLines>)
    requires IsBoardArray(newGrid)
    modifies newGrid
    ensures Snapshot(newGrid) == ClearFullLines(old(Snapshot(newGrid)))
    ensures bonus == 10 * Combo(old(Snapshot(newGrid)))
    ensures cleared == ClearReport(old(Snapshot(newGrid)), color)
  {
    ghost var filled := Snapshot(newGrid);
    var clearRows, clearCols := CheckLines(newGrid);
    SnapshotUnchanged(newGrid);
    assert clearRows == FullLines(filled, Row) && clearCols == FullLines(filled, Col);
    bonus := 0;
    cleared := None;
    if |clearRows| > 0 || |clearCols| > 0 {
      bonus := (|clearRows| + |clearCols|) * 10;
      var combo := |clearRows| + |clearCols|;
      cleared := Some(ClearedLines(clearRows, clearCols, combo * 10, combo, color));
      assert cleared == ClearReport(filled, color);
      ClearLines(newGrid, clearRows, clearCols);
    } else {
      // no full line: nothing is cleared
      assert cleared == ClearReport(filled, color);
      ClearedNothing(filled);
    }
  }

  /** The board-side half of a placement: writes the shape into a copy of the
      board, finds the full rows and columns of that copy, and empties them.
      Returns the copy, the points earned (one per block, ten per line) and,
      when some line was full, the report of the clear. */
  method PlaceOnCopy(grid: array2<Cell>, shape: Shape, startRow: int, startCol: int)
      returns (newGrid: array2<Cell>, earnedScore: nat, cleared: Option<ClearedLines>)
    requires IsBoardArray(grid)
    requires Fits(Snapshot(grid), shape.matrix, startRow, startCol)
    ensures fresh(newGrid) && IsBoardArray(newGrid)
    ensures Snapshot(newGrid) == ClearFullLines(Place(Snapshot(grid), shape.matrix, startRow, startCol, shape.color))
    ensures earnedScore == CountOnes(shape.matrix) + 10 * Combo(Place(Snapshot(grid), shape.matrix, startRow, startCol, shape.color))
    ensures cleared == ClearReport(Place(Snapshot(grid), shape.matrix, startRow, startCol, shape.color), shape.color)
  {
    newGrid := CopyGrid(grid);
    var placedBlocks := WriteShape(newGrid, shape, startRow, startCol);
    var bonus;
    bonus, cleared := ClearFullLinesOf(newGrid, shape.color);
    earnedScore := placedBlocks + bonus;
  }

  /** The tray without the shapes carrying `id`, the others kept in order. */
  function RemoveById(shapes: seq<Shape>, id: string): (rest: seq<Shape>)
    ensures |rest| <= |shapes|
    ensures (forall k :: 0 <= k < |shapes| ==> shapes[k].id != id) ==> rest == shapes
  {
    if shapes == [] then []
    else (if shapes[0].id != id then [shapes[0]] else []) + RemoveById(shapes[1..], id)
  }

  /** Removal keeps exactly the shapes whose id differs. */
  lemma {:induction false} RemoveByIdMembers(shapes: seq<Shape>, id: string)
    ensures forall s :: s in RemoveById(shapes, id) <==> s in shapes && s.id != id
  {
    if shapes != [] {
      RemoveByIdMembers(shapes[1..], id);
      assert shapes == [shapes[0]] + shapes[1..];
    }
  }

  /** When exactly one tray shape carries the id, removing it leaves the
      shapes before it followed by the shapes after it. */
  lemma {:induction false} RemoveUniqueId(shapes: seq<Shape>, id: string, k: int)
    requires 0 <= k < |shapes| && shapes[k].id == id
    requires forall j :: 0 <= j < |shapes| && j != k ==> shapes[j].id != id
    ensures RemoveById(shapes, id) == shapes[..k] + shapes[k + 1..]
  {
    var tail := shapes[1..];
    forall j | 0 <= j < |tail| && j != k - 1
      ensures tail[j].id != id
    {
      assert tail[j] == shapes[j + 1];
    }
    if k == 0 {
      RemoveLeadingId(shapes, id);
    } else {
      RemoveUniqueId(tail, id, k - 1);
      SplitAround(shapes, k);
    }
  }

  lemma RemoveLeadingId(shapes: seq<Shape>, id: string)
    requires |shapes| > 0 && shapes[0].id == id
    requires forall j :: 0 <= j < |shapes| - 1 ==> shapes[1..][j].id != id
    ensures RemoveById(shapes, id) == shapes[1..]
  {
  }

  lemma SplitAround(shapes: seq<Shape>, k: int)
    requires 0 < k < |shapes|
    ensures shapes[..k] + shapes[k + 1..] == [shapes[0]] + (shapes[1..][..k - 1] + shapes[1..][k..])
  {
  }

  /** Everything a legal placement computes before it is committed: the new
      board (blocks written, full lines cleared), the points earned, the clear
      report, the tray without the placed shape (refilled with three sampled
      shapes if it emptied), and whether the game is then over. */
  method Settle(grid: array2<Cell>, tray: seq<Shape>, shape: Shape, startRow: int, startCol: int, draws: seq<Draw>)
      returns (newGrid: array2<Cell>, earnedScore: nat, cleared: Option<ClearedLines>, newTray: seq<Shape>, over: bool)
    requires IsBoardArray(grid) && |tray| <= TRAY_SIZE
    requires Fits(Snapshot(grid), shape.matrix, startRow, startCol)
    requires DrawsCover(draws, TRAY_SIZE)
    ensures fresh(newGrid) && IsBoardArray(newGrid)
    ensures Snapshot(newGrid) == ClearFullLines(Place(Snapshot(grid), shape.matrix, startRow, startCol, shape.color))
    ensures earnedScore == CountOnes(shape.matrix) + 10 * Combo(Place(Snapshot(grid), shape.matrix, startRow, startCol, shape.color))
    ensures cleared == ClearReport(Place(Snapshot(grid), shape.matrix, startRow, startCol, shape.color), shape.color)
    ensures var rest := RemoveById(tray, shape.id);
            && (rest != [] ==> newTray == rest)
            && (rest == [] ==> |newTray| == TRAY_SIZE && DrawnFrom(newTray, draws))
    ensures 1 <= |newTray| <= TRAY_SIZE
    ensures over == GameOver(Snapshot(newGrid), newTray)
  {
    newGrid, earnedScore, cleared := PlaceOnCopy(grid, shape, startRow, startCol);
    newTray := RemoveById(tray, shape.id);
    if |newTray| == 0 {
      // the tray emptied: refill it before game over is judged
      newTray := GetRandomShapes(TRAY_SIZE, draws);
    }
    over := CheckGameOver(newGrid, newTray);
  }

  // ---------------------------------------------------------------------------
  // The session

  class Game {
    var grid: array2<Cell>
    var currentShapes: seq<Shape>
    var score: int
    var isGameOver: bool
    var clearedLines: Option<ClearedLines>

    /** The session invariant: an 8x8 board, one to three shapes on the tray,
        a non-negative score, and the over flag set exactly when no tray shape
        fits anywhere on the board. */
    ghost predicate Valid()
      reads this, grid
    {
      && IsBoardArray(grid)
      && 1 <= |currentShapes| <= TRAY_SIZE
      && 0 <= score
      && isGameOver == GameOver(Snapshot(grid), currentShapes)
    }

    /** A new session: empty board, score 0, a tray of three sampled shapes. */
    constructor (draws: seq<Draw>)
      requires DrawsCover(draws, TRAY_SIZE)
      ensures Valid() && fresh(grid)
      ensures Snapshot(grid) == EmptyGrid() && score == 0 && !isGameOver && clearedLines == None
      ensures |currentShapes| == TRAY_SIZE && DrawnFrom(currentShapes, draws)
    {
      var shapes := GetRandomShapes(TRAY_SIZE, draws);
      grid := new Cell[GRID_SIZE, GRID_SIZE]((r, c) => None);
      currentShapes := shapes;
      score := 0;
      isGameOver := false;
      clearedLines := None;
      new;
      SnapshotEquals(grid, EmptyGrid());
      EmptyGridNotOver(currentShapes, draws);
    }

    /** Commits a placement. Rejects, changing nothing, when the game is over or
        the shape does not fit. Otherwise writes the blocks into a copy of the
        board, clears every full row and column, scores one point per block
        plus ten per cleared line, reports the clear, takes the shape off the
        tray by id, refills an empty tray with three shapes, and re-evaluates
        game over on the new board and tray. */
    method PlaceShape(shape: Shape, startRow: int, startCol: int, draws: seq<Draw>) returns (placed: bool)
      requires Valid()
      requires DrawsCover(draws, TRAY_SIZE)
      modifies this
      ensures Valid()
      ensures placed <==> !old(isGameOver) && Fits(old(Snapshot(grid)), shape.matrix, startRow, startCol)
      ensures !placed ==>
                && grid == old(grid) && Snapshot(grid) == old(Snapshot(grid))
                && currentShapes == old(currentShapes) && score == old(score)
                && isGameOver == old(isGameOver) && clearedLines == old(clearedLines)
      ensures score >= old(score)
      ensures placed ==> fresh(grid)
      ensures placed ==>
                var filled := Place(old(Snapshot(grid)), shape.matrix, startRow, startCol, shape.color);
                && Snapshot(grid) == ClearFullLines(filled)
                && score == old(score) + CountOnes(shape.matrix) + 10 * Combo(filled)
                && clearedLines == (if Combo(filled) > 0 then ClearReport(filled, shape.color) else old(clearedLines))
      ensures placed ==>
                var rest := RemoveById(old(currentShapes), shape.id);
                && (rest != [] ==> currentShapes == rest)
                && (rest == [] ==> |currentShapes| == TRAY_SIZE && DrawnFrom(currentShapes, draws))
      ensures placed ==> isGameOver == GameOver(Snapshot(grid), currentShapes)
    {
      if isGameOver {
        return false;
      }
      // re-validate: the board may have changed since the caller's check
      var fits := CanPlaceShape(grid, shape, startRow, startCol);
      if !fits {
        return false;
      }

      SnapshotUnchanged(grid);
      var newGrid, earnedScore, cleared, remainingShapes, over := Settle(grid, currentShapes, shape, startRow, startCol, draws);
      label settled:
      grid, score, currentShapes, isGameOver := newGrid, score + earnedScore, remainingShapes, over;
      // the report of an earlier clear stays up when this placement clears nothing
      clearedLines := if cleared.Some? then cleared else clearedLines;
      SnapshotUnchanged@settled(newGrid);
      placed := true;
    }

    /** Starts over: an empty board, score 0, not over, three fresh shapes.
        The last clear report is left as it was. */
    method ResetGame(draws: seq<Draw>)
      requires DrawsCover(draws, TRAY_SIZE)
      modifies this
      ensures Valid() && fresh(grid)
      ensures Snapshot(grid) == EmptyGrid() && score == 0 && !isGameOver
      ensures |currentShapes| == TRAY_SIZE && DrawnFrom(currentShapes, draws)
      ensures clearedLines == old(clearedLines)
    {
      grid := new Cell[GRID_SIZE, GRID_SIZE]((r, c) => None);
      SnapshotEquals(grid, EmptyGrid());
      score := 0;
      isGameOver := false;
      currentShapes := GetRandomShapes(TRAY_SIZE, draws);
      EmptyGridNotOver(currentShapes, draws);
    }
  }

  /** A rejected placement changes nothing, so asking again is rejected again
      and still changes nothing. */
  method RejectedPlacementIsIdempotent(game: Game, shape: Shape, startRow: int, startCol: int, draws: seq<Draw>)
    requires game.Valid() && DrawsCover(draws, TRAY_SIZE)
    requires game.isGameOver || !Fits(Snapshot(game.grid), shape.matrix, startRow, startCol)
    modifies game
    ensures game.grid == old(game.grid) && Snapshot(game.grid) == old(Snapshot(game.grid))
    ensures game.currentShapes == old(game.currentShapes) && game.score == old(game.score)
    ensures game.isGameOver == old(game.isGameOver) && game.clearedLines == old(game.clearedLines)
  {
    var first := game.PlaceShape(shape, startRow, startCol, draws);
    assert !first;
    var second := game.PlaceShape(shape, startRow, startCol, draws);
    assert !second;
  }
}
