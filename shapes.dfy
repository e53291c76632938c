/** The shape catalog: sixteen fixed, pre-oriented templates and the sampler
    that instantiates them with fresh ids. */
module Shapes {

  type Color = string

  /** A shape's cells, row by row; 1 marks a block, 0 a hole. The source keeps
      the entries as plain numbers, so any integer is admitted here and only
      the entries equal to 1 count as blocks. */
  type Matrix = seq<seq<int>>

  /** A shape on the tray: a catalog entry plus the id of this instance. */
  datatype Shape = Shape(id: string, matrix: Matrix, color: Color)

  /** A catalog entry: a shape without its id. */
  datatype ShapeType = ShapeType(matrix: Matrix, color: Color)

  /** One value drawn from the random source: which template, and the id to give it. */
  datatype Draw = Draw(template: nat, id: string)

  const BLUE: Color := "#00f0ff"
  const ORANGE: Color := "#ffbd00"
  const GREEN: Color := "#00ff41"
  const PURPLE: Color := "#bf00ff"
  const YELLOW: Color := "#ffff00"
  const RED: Color := "#ff003c"
  const CYAN: Color := "#00ffff"

  const SHAPE_TYPES: seq<ShapeType> := [
    // single block
    ShapeType([[1]], YELLOW),
    // lines of 2, 3 and 4, horizontal then vertical
    ShapeType([[1, 1]], BLUE),
    ShapeType([[1], [1]], BLUE),
    ShapeType([[1, 1, 1]], GREEN),
    ShapeType([[1], [1], [1]], GREEN),
    ShapeType([[1, 1, 1, 1]], RED),
    ShapeType([[1], [1], [1], [1]], RED),
    // 2x2 square
    ShapeType([[1, 1], [1, 1]], ORANGE),
    // the four L orientations
    ShapeType([[1, 0], [1, 1]], PURPLE),
    ShapeType([[0, 1], [1, 1]], PURPLE),
    ShapeType([[1, 1], [1, 0]], PURPLE),
    ShapeType([[1, 1], [0, 1]], PURPLE),
    // the four T orientations
    ShapeType([[1, 1, 1], [0, 1, 0]], CYAN),
    ShapeType([[0, 1, 0], [1, 1, 1]], CYAN),
    ShapeType([[1, 0], [1, 1], [1, 0]], CYAN),
    ShapeType([[0, 1], [1, 1], [0, 1]], CYAN)
  ]

  /** The number of blocks each template is meant to have, in catalog order. */
  const BLOCK_COUNTS: seq<nat> := [1, 2, 2, 3, 3, 4, 4, 4, 3, 3, 3, 3, 4, 4, 4, 4]

  /** Number of entries equal to 1 in a row. */
  function OnesInRow(row: seq<int>): nat
  {
    if row == [] then 0
    else OnesInRow(row[..|row| - 1]) + (if row[|row| - 1] == 1 then 1 else 0)
  }

  /** Number of blocks of a matrix: the entries equal to 1. */
  function CountOnes(m: Matrix): nat
  {
    if m == [] then 0
    else CountOnes(m[..|m| - 1]) + OnesInRow(m[|m| - 1])
  }

  /** A row of ones has as many blocks as entries. */
  lemma {:induction false} OnesInRowAllOnes(row: seq<int>)
    requires forall j :: 0 <= j < |row| ==> row[j] == 1
    ensures OnesInRow(row) == |row|
  {
    if row != [] {
      OnesInRowAllOnes(row[..|row| - 1]);
    }
  }

  /** Every row has the same, non-zero length, and there is at least one row. */
  predicate Rectangular(m: Matrix)
  {
    |m| > 0 && |m[0]| > 0 && forall i :: 0 <= i < |m| ==> |m[i]| == |m[0]|
  }

  predicate Binary(m: Matrix)
  {
    forall i, j :: 0 <= i < |m| && 0 <= j < |m[i]| ==> m[i][j] == 0 || m[i][j] == 1
  }

  predicate HasBlock(m: Matrix)
  {
    exists i, j :: 0 <= i < |m| && 0 <= j < |m[i]| && m[i][j] == 1
  }

  predicate AtMost4x4(m: Matrix)
  {
    |m| <= 4 && forall i :: 0 <= i < |m| ==> |m[i]| <= 4
  }

  /** What a catalog matrix must be: a non-empty binary rectangle, at most 4x4,
      holding at least one block. */
  predicate WellFormedTemplate(m: Matrix)
  {
    Rectangular(m) && Binary(m) && HasBlock(m) && AtMost4x4(m)
  }

  lemma WellFormedByRows(m: Matrix, w: nat)
    requires 0 < |m| <= 4 && 0 < w <= 4
    requires forall i :: 0 <= i < |m| ==> |m[i]| == w
    requires forall i, j :: 0 <= i < |m| && 0 <= j < w ==> m[i][j] == 0 || m[i][j] == 1
    requires m[0][0] == 1 || (w > 1 && m[0][1] == 1)
    ensures WellFormedTemplate(m)
  {
    if m[0][0] == 1 {
      assert 0 <= 0 < |m[0]| && m[0][0] == 1;
    } else {
      assert 0 <= 1 < |m[0]| && m[0][1] == 1;
    }
  }

  /** The catalog has sixteen templates and each is a well-formed matrix. */
  lemma TemplatesWellFormed()
    ensures |SHAPE_TYPES| == 16
    ensures forall t :: 0 <= t < |SHAPE_TYPES| ==> WellFormedTemplate(SHAPE_TYPES[t].matrix)
  {
    forall t | 0 <= t < |SHAPE_TYPES|
      ensures WellFormedTemplate(SHAPE_TYPES[t].matrix)
    {
      var m := SHAPE_TYPES[t].matrix;
      WellFormedByRows(m, |m[0]|);
    }
  }

  /** The block counts: 1 for the single, 2, 3 and 4 for the lines, 4 for the
      square, 3 for each L and 4 for each T. */
  lemma TemplateBlockCounts()
    ensures |BLOCK_COUNTS| == |SHAPE_TYPES|
    ensures forall t :: 0 <= t < |SHAPE_TYPES| ==> CountOnes(SHAPE_TYPES[t].matrix) == BLOCK_COUNTS[t]
  {
    forall t | 0 <= t < |SHAPE_TYPES|
      ensures CountOnes(SHAPE_TYPES[t].matrix) == BLOCK_COUNTS[t]
    {
      BlockCountOf(t);
    }
  }

  lemma BlockCountOf(t: nat)
    requires t < |SHAPE_TYPES|
    ensures CountOnes(SHAPE_TYPES[t].matrix) == BLOCK_COUNTS[t]
  {
    TemplatesWellFormed();
    CountOnesByBits(SHAPE_TYPES[t].matrix);
    if t < 8 {
      BlockCountOfFirstHalf(t);
    } else {
      BlockCountOfSecondHalf(t);
    }
  }

  /** The singles, the lines and the square, counted entry by entry. */
  lemma BlockCountOfFirstHalf(t: nat)
    requires t < 8
    ensures var m := SHAPE_TYPES[t].matrix;
            RowBits(m, 0) + RowBits(m, 1) + RowBits(m, 2) + RowBits(m, 3) == BLOCK_COUNTS[t]
  {
    match t
    case 0 => case 1 => case 2 => case 3 => case 4 => case 5 => case 6 => case 7 =>
  }

  /** The L and T orientations, counted entry by entry. */
  lemma BlockCountOfSecondHalf(t: nat)
    requires 8 <= t < 16
    ensures var m := SHAPE_TYPES[t].matrix;
            RowBits(m, 0) + RowBits(m, 1) + RowBits(m, 2) + RowBits(m, 3) == BLOCK_COUNTS[t]
  {
    match t
    case 8 => case 9 => case 10 => case 11 => case 12 => case 13 => case 14 => case 15 =>
  }

  function Bit(row: seq<int>, j: nat): nat
  {
    if j < |row| && row[j] == 1 then 1 else 0
  }

  function RowBits(m: Matrix, i: nat): nat
  {
    if i < |m| then Bit(m[i], 0) + Bit(m[i], 1) + Bit(m[i], 2) + Bit(m[i], 3) else 0
  }

  lemma CountOnesByBits(m: Matrix)
    requires AtMost4x4(m)
    ensures CountOnes(m) == RowBits(m, 0) + RowBits(m, 1) + RowBits(m, 2) + RowBits(m, 3)
  {
    CountOnesSmall(m);
    forall i | 0 <= i < |m|
      ensures OnesInRow(m[i]) == Bit(m[i], 0) + Bit(m[i], 1) + Bit(m[i], 2) + Bit(m[i], 3)
    {
      OnesInRowSmall(m[i]);
    }
  }

  function RowOnes(m: Matrix, i: nat): nat
  {
    if i < |m| then OnesInRow(m[i]) else 0
  }

  lemma OnesInRowSmall(row: seq<int>)
    requires |row| <= 4
    ensures OnesInRow(row) == Bit(row, 0) + Bit(row, 1) + Bit(row, 2) + Bit(row, 3)
  {
    var n := |row|;
    if n > 0 {
      var p := row[..n - 1];
      OnesInRowSmall(p);
      assert forall j: nat :: j != n - 1 ==> Bit(p, j) == Bit(row, j);
    }
  }

  lemma CountOnesSmall(m: Matrix)
    requires |m| <= 4
    ensures CountOnes(m) == RowOnes(m, 0) + RowOnes(m, 1) + RowOnes(m, 2) + RowOnes(m, 3)
  {
    var n := |m|;
    if n > 0 {
      var p := m[..n - 1];
      CountOnesSmall(p);
      assert forall i: nat :: i != n - 1 ==> RowOnes(p, i) == RowOnes(m, i);
    }
  }

  /** The shape a draw produces: the template's matrix and color with the drawn id. */
  function Instantiate(d: Draw): Shape
    requires d.template < |SHAPE_TYPES|
  {
    Shape(d.id, SHAPE_TYPES[d.template].matrix, SHAPE_TYPES[d.template].color)
  }

  /** A random source good for `count` shapes: enough draws, each naming a template. */
  predicate DrawsCover(draws: seq<Draw>, count: nat)
  {
    count <= |draws| && forall k :: 0 <= k < count ==> draws[k].template < |SHAPE_TYPES|
  }

  /** `shapes` are the shapes the first |shapes| draws produce, in order. */
  predicate DrawnFrom(shapes: seq<Shape>, draws: seq<Draw>)
  {
    DrawsCover(draws, |shapes|) &&
    forall k :: 0 <= k < |shapes| ==> shapes[k] == Instantiate(draws[k])
  }

  /** The shapes the first `count` draws produce, in order. */
  function Sampled(count: nat, draws: seq<Draw>): (shapes: seq<Shape>)
    requires DrawsCover(draws, count)
    ensures |shapes| == count && DrawnFrom(shapes, draws)
  {
    seq(count, k requires 0 <= k < count => Instantiate(draws[k]))
  }

  /** The draws decide the sample: any sequence drawn from them is the
      sample of its own length. */
  lemma DrawnFromDetermines(shapes: seq<Shape>, draws: seq<Draw>)
    requires DrawnFrom(shapes, draws)
    ensures shapes == Sampled(|shapes|, draws)
  {
    var s := Sampled(|shapes|, draws);
    assert forall k :: 0 <= k < |shapes| ==> shapes[k] == s[k];
  }

  /** Samples `count` shapes, the k-th from the k-th draw of the injected random
      source. Each result is a copy of a catalog template carrying only a new id. */
  method GetRandomShapes(count: nat, draws: seq<Draw>) returns (shapes: seq<Shape>)
    requires DrawsCover(draws, count)
    ensures |shapes| == count
    ensures forall k :: 0 <= k < count ==>
              && shapes[k].id == draws[k].id
              && shapes[k].matrix == SHAPE_TYPES[draws[k].template].matrix
              && shapes[k].color == SHAPE_TYPES[draws[k].template].color
    ensures DrawnFrom(shapes, draws) && shapes == Sampled(count, draws)
  {
    shapes := [];
    for i := 0 to count
      invariant |shapes| == i
      invariant forall k :: 0 <= k < i ==> shapes[k] == Instantiate(draws[k])
    {
      var randomType := SHAPE_TYPES[draws[i].template];
      shapes := shapes + [Shape(draws[i].id, randomType.matrix, randomType.color)];
    }
    DrawnFromDetermines(shapes, draws);
  }

  /** Every sampled shape is well formed, so it has at least one block. */
  lemma DrawnShapesWellFormed(shapes: seq<Shape>, draws: seq<Draw>)
    requires DrawnFrom(shapes, draws)
    ensures forall k :: 0 <= k < |shapes| ==> WellFormedTemplate(shapes[k].matrix)
    ensures forall k :: 0 <= k < |shapes| ==> CountOnes(shapes[k].matrix) > 0
  {
    TemplatesWellFormed();
    TemplateBlockCounts();
    forall k | 0 <= k < |shapes|
      ensures WellFormedTemplate(shapes[k].matrix) && CountOnes(shapes[k].matrix) > 0
    {
      assert shapes[k].matrix == SHAPE_TYPES[draws[k].template].matrix;
    }
  }
}
