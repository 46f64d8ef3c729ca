/** Tetromino variants, their 4x4 shape matrices and clockwise rotation. */
module Pieces {

  /** Index of a piece variant: the row of the shape and colour tables. */
  type PieceType = t: int | 0 <= t < 7

  /** A 4x4 occupancy matrix indexed [row][column]; a non-zero entry is an occupied cell. */
  type Matrix = s: seq<seq<int>> | |s| == 4 && forall r :: 0 <= r < 4 ==> |s[r]| == 4
    witness [[0, 0, 0, 0], [0, 0, 0, 0], [0, 0, 0, 0], [0, 0, 0, 0]]

  const EMPTY_MATRIX: Matrix := [[0, 0, 0, 0], [0, 0, 0, 0], [0, 0, 0, 0], [0, 0, 0, 0]]

  /** The seven canonical shapes: I, O, T, S, Z, J, L. */
  const SHAPES: seq<Matrix> := [
    [[0, 0, 0, 0], [1, 1, 1, 1], [0, 0, 0, 0], [0, 0, 0, 0]],
    [[0, 0, 0, 0], [0, 1, 1, 0], [0, 1, 1, 0], [0, 0, 0, 0]],
    [[0, 0, 0, 0], [0, 1, 0, 0], [1, 1, 1, 0], [0, 0, 0, 0]],
    [[0, 0, 0, 0], [0, 1, 1, 0], [1, 1, 0, 0], [0, 0, 0, 0]],
    [[0, 0, 0, 0], [1, 1, 0, 0], [0, 1, 1, 0], [0, 0, 0, 0]],
    [[0, 0, 0, 0], [1, 0, 0, 0], [1, 1, 1, 0], [0, 0, 0, 0]],
    [[0, 0, 0, 0], [0, 0, 1, 0], [1, 1, 1, 0], [0, 0, 0, 0]]
  ]

  /** A display colour: the all-zero triple, or the colour-table entry of one variant. */
  datatype Color = NoColor | PieceColor(kind: PieceType)

  /** One piece instance; (x, y) is the grid position of the matrix's top-left corner. */
  datatype Tetromino = Tetromino(shape: Matrix, color: Color, x: int, y: int, kind: PieceType)

  function Bit(v: int): nat { if v != 0 then 1 else 0 }

  function RowCells(row: seq<int>): nat
    requires |row| == 4
  {
    Bit(row[0]) + Bit(row[1]) + Bit(row[2]) + Bit(row[3])
  }

  /** The number of occupied cells of a matrix. */
  function CellCount(s: Matrix): nat
  {
    RowCells(s[0]) + RowCells(s[1]) + RowCells(s[2]) + RowCells(s[3])
  }

  predicate HasCell(s: Matrix)
  {
    exists r, c :: 0 <= r < 4 && 0 <= c < 4 && s[r][c] != 0
  }

  /** A piece whose colour is its variant's and which has the four cells of a tetromino. */
  predicate WellFormed(p: Tetromino)
  {
    p.color == PieceColor(p.kind) && CellCount(p.shape) == 4
  }

  /** A piece exactly as its variant's table entries load it (the lookahead piece is never turned). */
  predicate Loaded(p: Tetromino)
  {
    p.shape == SHAPES[p.kind] && p.color == PieceColor(p.kind)
  }

  lemma LoadedIsWellFormed(p: Tetromino)
    requires Loaded(p)
    ensures WellFormed(p) && HasCell(p.shape)
  {
    ShapesHaveFourCells(p.kind);
    CountedCellExists(p.shape);
  }

  /** The value of a default-constructed piece: empty shape, zero colour, origin, variant 0. */
  function DefaultTetromino(): (t: Tetromino)
    ensures CellCount(t.shape) == 0 && !HasCell(t.shape)
    ensures t.color == NoColor && t.x == 0 && t.y == 0 && t.kind == 0
  {
    Tetromino(EMPTY_MATRIX, NoColor, 0, 0, 0)
  }

  /** Loads variant `newType` into a piece, keeping its position. */
  function SetType(t: Tetromino, newType: PieceType): (r: Tetromino)
    ensures r.kind == newType && r.shape == SHAPES[newType] && r.color == PieceColor(newType)
    ensures r.x == t.x && r.y == t.y && HasCell(r.shape)
  {
    ShapesHaveFourCells(newType);
    CountedCellExists(SHAPES[newType]);
    Tetromino(SHAPES[newType], PieceColor(newType), t.x, t.y, newType)
  }

  lemma ShapesHaveFourCells(k: PieceType)
    ensures CellCount(SHAPES[k]) == 4
  {
    match k
    case 0 => assert CellCount(SHAPES[0]) == 4;
    case 1 => assert CellCount(SHAPES[1]) == 4;
    case 2 => assert CellCount(SHAPES[2]) == 4;
    case 3 => assert CellCount(SHAPES[3]) == 4;
    case 4 => assert CellCount(SHAPES[4]) == 4;
    case 5 => assert CellCount(SHAPES[5]) == 4;
    case 6 => assert CellCount(SHAPES[6]) == 4;
  }

  lemma CountedCellExists(s: Matrix)
    requires CellCount(s) > 0
    ensures HasCell(s)
  {
    if s[0][0] != 0 || s[0][1] != 0 || s[0][2] != 0 || s[0][3] != 0 {
      var c :| 0 <= c < 4 && s[0][c] != 0;
    } else if s[1][0] != 0 || s[1][1] != 0 || s[1][2] != 0 || s[1][3] != 0 {
      var c :| 0 <= c < 4 && s[1][c] != 0;
    } else if s[2][0] != 0 || s[2][1] != 0 || s[2][2] != 0 || s[2][3] != 0 {
      var c :| 0 <= c < 4 && s[2][c] != 0;
    } else {
      var c :| 0 <= c < 4 && s[3][c] != 0;
    }
  }

  /** Clockwise quarter turn: the cell at (row, col) moves to (col, 3 - row). */
  function Rotated(s: Matrix): (r: Matrix)
    ensures forall row, col :: 0 <= row < 4 && 0 <= col < 4 ==> r[col][3 - row] == s[row][col]
  {
    seq(4, i requires 0 <= i < 4 => seq(4, j requires 0 <= j < 4 => s[3 - j][i]))
  }

  /** A piece turned a quarter clockwise where it stands: position, variant and colour are
      kept, the number of occupied cells is kept, and a well-formed piece stays well formed. */
  function Turned(p: Tetromino): (r: Tetromino)
    ensures r.x == p.x && r.y == p.y && r.kind == p.kind && r.color == p.color
    ensures r.shape == Rotated(p.shape)
    ensures CellCount(r.shape) == CellCount(p.shape)
    ensures WellFormed(p) ==> WellFormed(r) && HasCell(r.shape)
  {
    RotationKeepsCellCount(p.shape);
    if WellFormed(p) then
      CountedCellExists(Rotated(p.shape));
      p.(shape := Rotated(p.shape))
    else
      p.(shape := Rotated(p.shape))
  }

  lemma {:induction false} RotationKeepsCellCount(s: Matrix)
    ensures CellCount(Rotated(s)) == CellCount(s)
  {
    var r := Rotated(s);
    assert RowCells(r[0]) == Bit(s[3][0]) + Bit(s[2][0]) + Bit(s[1][0]) + Bit(s[0][0]);
    assert RowCells(r[1]) == Bit(s[3][1]) + Bit(s[2][1]) + Bit(s[1][1]) + Bit(s[0][1]);
    assert RowCells(r[2]) == Bit(s[3][2]) + Bit(s[2][2]) + Bit(s[1][2]) + Bit(s[0][2]);
    assert RowCells(r[3]) == Bit(s[3][3]) + Bit(s[2][3]) + Bit(s[1][3]) + Bit(s[0][3]);
  }

  /** Four quarter turns give back the original matrix. */
  lemma {:induction false} FourTurnsRestore(s: Matrix)
    ensures Rotated(Rotated(Rotated(Rotated(s)))) == s
  {
    var r := Rotated(Rotated(Rotated(Rotated(s))));
    forall i | 0 <= i < 4
      ensures r[i] == s[i]
    {
      assert r[i][0] == s[i][0] && r[i][1] == s[i][1] && r[i][2] == s[i][2] && r[i][3] == s[i][3];
    }
  }

  /** Builds the rotated matrix cell by cell into a fresh 4x4 buffer. */
  method RotateShape(s: Matrix) returns (r: Matrix)
    ensures r == Rotated(s)
  {
    var buf := new int[4, 4]((i, j) requires 0 <= i < 4 && 0 <= j < 4 => s[i][j]);
    for y := 0 to 4
      invariant forall y', x' :: 0 <= y' < y && 0 <= x' < 4 ==> buf[x', 3 - y'] == s[y'][x']
    {
      for x := 0 to 4
        invariant forall y', x' :: 0 <= y' < y && 0 <= x' < 4 ==> buf[x', 3 - y'] == s[y'][x']
        invariant forall x' :: 0 <= x' < x ==> buf[x', 3 - y] == s[y][x']
      {
        buf[x, 3 - y] := s[y][x];
      }
    }
    r := seq(4, i requires 0 <= i < 4 reads buf => seq(4, j requires 0 <= j < 4 reads buf => buf[i, j]));
    forall i | 0 <= i < 4
      ensures r[i] == Rotated(s)[i]
    {
      assert buf[i, 0] == s[3][i] && buf[i, 1] == s[2][i] && buf[i, 2] == s[1][i] && buf[i, 3] == s[0][i];
    }
  }
}
