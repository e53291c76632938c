/** The game-over test as the hook runs it. The hook writes the placed shape
    into the board state at once but empties the full lines only from a
    200 ms timer, while the effects that refill the tray and decide game over
    run right after the renders that follow the placement. They therefore
    judge the board with the completed lines still on it, and once the flag
    is set only a reset clears it again. */
module HookGameOverTiming {
  import opened Shapes
  import opened Board
  import opened GameLogic

  /** The tray the game-over effect judges after a placement: the tray without
      the placed shape, or the three shapes the refill effect draws when that
      leaves nothing. */
  function JudgedTray(tray: seq<Shape>, shape: Shape, draws: seq<Draw>): seq<Shape>
    requires DrawsCover(draws, TRAY_SIZE)
  {
    var rest := RemoveById(tray, shape.id);
    if rest != [] then rest else Sampled(TRAY_SIZE, draws)
  }

  /** Any tray meeting Game.PlaceShape's postcondition on the tray is the
      judged tray: the engine and the hook look at the same shapes and differ
      only in the board. */
  lemma PlacedTrayIsJudged(tray: seq<Shape>, shape: Shape, draws: seq<Draw>, newTray: seq<Shape>)
    requires DrawsCover(draws, TRAY_SIZE)
    requires var rest := RemoveById(tray, shape.id);
             && (rest != [] ==> newTray == rest)
             && (rest == [] ==> |newTray| == TRAY_SIZE && DrawnFrom(newTray, draws))
    ensures newTray == JudgedTray(tray, shape, draws)
  {
    if RemoveById(tray, shape.id) == [] {
      DrawnFromDetermines(newTray, draws);
    }
  }

  /** Game over as the effect computes it after a placement: on the board with
      the new blocks written and no line emptied yet, for the tray left by the
      filter or, when that is empty, by the refill. */
  ghost predicate GameOverBeforeClear(g: Grid, tray: seq<Shape>, shape: Shape, startRow: int, startCol: int, draws: seq<Draw>)
    requires IsGrid(g) && DrawsCover(draws, TRAY_SIZE)
  {
    GameOver(Place(g, shape.matrix, startRow, startCol, shape.color), JudgedTray(tray, shape, draws))
  }

  /** Row 0 is occupied but for its first cell; every other row r is occupied
      but for cells 0 and r. */
  function Staircase(): (g: Grid)
    ensures IsGrid(g)
    ensures forall r, c :: 0 <= r < GRID_SIZE && 0 <= c < GRID_SIZE ==>
              (g[r][c] == None <==> c == 0 || (r > 0 && c == r))
  {
    seq(GRID_SIZE, r => seq(GRID_SIZE, c => if c == 0 || (r > 0 && c == r) then None else Some(RED)))
  }

  /** The staircase has no full row and no full column, so it is a board the
      player can be left with once every clear has run. */
  lemma StaircaseHasNoFullLine()
    ensures forall line :: 0 <= line < GRID_SIZE ==>
              !LineFull(Staircase(), Row, line) && !LineFull(Staircase(), Col, line)
    ensures FullLines(Staircase(), Row) == [] && FullLines(Staircase(), Col) == []
  {
    var g := Staircase();
    forall line | 0 <= line < GRID_SIZE
      ensures !LineFull(g, Row, line) && !LineFull(g, Col, line)
    {
      assert CellOn(g, Row, line, 0) == None;
      if line == 0 {
        assert CellOn(g, Col, line, 1) == None;
      } else {
        assert CellOn(g, Col, line, line) == None;
      }
    }
    FullLinesBelowSkips(g, Row, 0, GRID_SIZE);
    FullLinesBelowSkips(g, Col, 0, GRID_SIZE);
  }

  /** A single block and a 1x4 line on the tray, the single dropped into the
      hole of row 0 of the staircase. Only row 0 becomes full. Before the
      clear no row has four empty cells in a run, so the hook ends the game;
      on the board the player continues on, row 0 is empty and the line fits. */
  lemma PreClearGameOverExample(draws: seq<Draw>)
    requires DrawsCover(draws, TRAY_SIZE)
    ensures var first, second := Shape("a", [[1]], YELLOW), Shape("b", [[1, 1, 1, 1]], RED);
            var filled := Place(Staircase(), first.matrix, 0, 0, first.color);
            && Fits(Staircase(), first.matrix, 0, 0) && !GameOver(Staircase(), [first, second])
            && RemoveById([first, second], first.id) == [second]
            && FullLines(filled, Row) == [0] && FullLines(filled, Col) == []
            && GameOverBeforeClear(Staircase(), [first, second], first, 0, 0, draws)
            && !GameOver(ClearFullLines(filled), [second])
  {
    var first, second := Shape("a", [[1]], YELLOW), Shape("b", [[1, 1, 1, 1]], RED);
    var g := Staircase();
    var filled: Grid := Place(g, first.matrix, 0, 0, first.color);
    // the drop is legal, and the game was going on before it
    assert Fits(g, first.matrix, 0, 0) by {
      assert g[0][0] == None;
    }
    FittingShapeKeepsGameAlive(g, [first, second], 0, 0, 0);
    assert RemoveById([first, second], first.id) == [second] by {
      assert [first, second][1..] == [second];
    }
    forall r, c | 0 <= r < GRID_SIZE && 0 <= c < GRID_SIZE
      ensures filled[r][c] == if r == 0 && c == 0 then Some(YELLOW) else g[r][c]
    {
      if r == 0 && c == 0 {
        assert IsBlock(first.matrix, 0, 0);
      }
    }
    // only row 0 is full
    assert LineFull(filled, Row, 0);
    forall line | 1 <= line < GRID_SIZE
      ensures !LineFull(filled, Row, line)
    {
      assert CellOn(filled, Row, line, 0) == None;
    }
    forall line | 0 <= line < GRID_SIZE
      ensures !LineFull(filled, Col, line)
    {
      if line == 0 {
        assert CellOn(filled, Col, line, 1) == None;
      } else {
        assert CellOn(filled, Col, line, line) == None;
      }
    }
    FullLinesBelowSkips(filled, Row, 1, GRID_SIZE);
    assert FullLinesBelow(filled, Row, 1) == [0];
    FullLinesBelowSkips(filled, Col, 0, GRID_SIZE);
    // before the clear the line fits nowhere
    forall k, r, c | 0 <= k < 1 && 0 <= r < GRID_SIZE && 0 <= c < GRID_SIZE
      ensures !Fits(filled, [second][k].matrix, r, c)
    {
      if r == 0 {
        assert IsBlock(second.matrix, 0, 0) && filled[r + 0][c + 0].Some?;
      } else if c + 1 != r {
        assert IsBlock(second.matrix, 0, 1);
      } else {
        assert IsBlock(second.matrix, 0, 2);
      }
    }
    assert JudgedTray([first, second], first, draws) == [second];
    // after the clear it fits at (0, 0)
    var cleared := ClearFullLines(filled);
    forall j | 0 <= j < 4
      ensures cleared[0][j] == None
    {
    }
    assert Fits(cleared, second.matrix, 0, 0);
    FittingShapeKeepsGameAlive(cleared, [second], 0, 0, 0);
  }

  /** The engine judges game over on the board after the clear. Emptying
      cells never takes a legal move away, so whenever the engine ends the
      game the hook would have ended it too, and the example above shows
      the converse fails. */
  lemma ClearedJudgementIsWeaker(g: Grid, tray: seq<Shape>, shape: Shape, startRow: int, startCol: int, draws: seq<Draw>)
    requires IsGrid(g) && DrawsCover(draws, TRAY_SIZE)
    requires GameOver(ClearFullLines(Place(g, shape.matrix, startRow, startCol, shape.color)), JudgedTray(tray, shape, draws))
    ensures GameOverBeforeClear(g, tray, shape, startRow, startCol, draws)
  {
    var filled := Place(g, shape.matrix, startRow, startCol, shape.color);
    ClearingNeverEndsGame(filled, FullLines(filled, Row), FullLines(filled, Col), JudgedTray(tray, shape, draws));
  }
}
