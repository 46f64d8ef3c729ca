/** The playfield as a value: collision, placement and line compaction. */
module Board {
  import opened Pieces

  /** Playfield width and height (columns and rows). */
  const W: int := 15
  const H: int := 20

  /** One playfield cell: the occupancy flag of `grid` and the colour of `gridColors`. */
  datatype Cell = Cell(filled: int, color: Color)

  type Row = r: seq<Cell> | |r| == W witness seq(15, _ => Cell(0, NoColor))

  /** Rows indexed from the top (row 0) to the bottom (row H - 1). */
  type Board = b: seq<Row> | |b| == H witness seq(20, _ => seq(15, _ => Cell(0, NoColor)))

  function EmptyRow(): (r: Row)
    ensures forall j :: 0 <= j < W ==> r[j] == Cell(0, NoColor)
  {
    seq(W, _ => Cell(0, NoColor))
  }

  /** The cleared playfield. */
  function EmptyBoard(): (b: Board)
    ensures forall i :: 0 <= i < H ==> b[i] == EmptyRow()
  {
    seq(H, _ => EmptyRow())
  }

  /** Two playfields with the same cell everywhere are the same playfield. */
  lemma SameCells(a: Board, b: Board)
    requires forall i, j :: 0 <= i < H && 0 <= j < W ==> a[i][j] == b[i][j]
    ensures a == b
  {
    forall i | 0 <= i < H
      ensures a[i] == b[i]
    {
      assert forall j :: 0 <= j < W ==> a[i][j] == b[i][j];
    }
  }

  predicate Full(row: Row)
  {
    forall j :: 0 <= j < W ==> row[j].filled != 0
  }

  predicate NoFullRow(rows: seq<Row>)
  {
    forall i :: 0 <= i < |rows| ==> !Full(rows[i])
  }

  /** The cleared playfield has no full row. */
  lemma EmptyBoardHasNoFullRow()
    ensures NoFullRow(EmptyBoard())
  {
    assert EmptyRow()[0].filled == 0;
  }

  // ---------------------------------------------------------------- collision

  /** Whether a piece cell landing at (col, row) is blocked: a side wall, the floor,
      or an occupied cell; rows above the top are never blocked by the playfield. */
  predicate Hit(b: Board, col: int, row: int)
  {
    col < 0 || col >= W || row >= H || (row >= 0 && b[row][col].filled != 0)
  }

  /** Whether `p`, displaced by (dx, dy), has an occupied cell that is blocked. */
  predicate Collides(b: Board, p: Tetromino, dx: int, dy: int)
  {
    exists r, c :: 0 <= r < 4 && 0 <= c < 4 && p.shape[r][c] != 0 && Hit(b, p.x + c + dx, p.y + r + dy)
  }

  /** The piece displaced by (dx, dy): it covers exactly the cells its original covers,
      each shifted by dx columns and dy rows. */
  function Moved(p: Tetromino, dx: int, dy: int): (r: Tetromino)
    ensures r.shape == p.shape && r.color == p.color && r.kind == p.kind
    ensures r.x == p.x + dx && r.y == p.y + dy
    ensures forall i, j :: Covers(r, i, j) == Covers(p, i - dy, j - dx)
  {
    p.(x := p.x + dx, y := p.y + dy)
  }

  /** Testing a displacement is testing the displaced piece where it stands. */
  lemma CollidesAtOffset(b: Board, p: Tetromino, dx: int, dy: int)
    ensures Collides(b, p, dx, dy) == Collides(b, Moved(p, dx, dy), 0, 0)
  {
    if Collides(b, p, dx, dy) {
      var r, c :| 0 <= r < 4 && 0 <= c < 4 && p.shape[r][c] != 0 && Hit(b, p.x + c + dx, p.y + r + dy);
      assert Moved(p, dx, dy).shape[r][c] != 0;
    }
  }

  /** A piece that does not collide lies inside the side walls, above the floor,
      and on free cells wherever it is inside the playfield. */
  lemma LivePieceInBounds(b: Board, p: Tetromino, r: int, c: int)
    requires !Collides(b, p, 0, 0)
    requires 0 <= r < 4 && 0 <= c < 4 && p.shape[r][c] != 0
    ensures 0 <= p.x + c < W && p.y + r < H
    ensures p.y + r >= 0 ==> b[p.y + r][p.x + c].filled == 0
  {
    assert !Hit(b, p.x + c, p.y + r);
  }

  /** A piece at the spawn position never collides with an empty playfield. */
  lemma SpawnFitsEmptyBoard(p: Tetromino)
    requires p.x == W / 2 - 2 && p.y == 0
    ensures !Collides(EmptyBoard(), p, 0, 0)
  {
    forall r, c | 0 <= r < 4 && 0 <= c < 4 && p.shape[r][c] != 0
      ensures !Hit(EmptyBoard(), p.x + c, p.y + r)
    {
      assert EmptyBoard()[p.y + r][p.x + c] == Cell(0, NoColor);
    }
  }

  // ---------------------------------------------------------------- placement

  /** Whether (row, col) of the playfield holds an occupied cell of `p`. */
  predicate Covers(p: Tetromino, row: int, col: int)
  {
    0 <= row - p.y < 4 && 0 <= col - p.x < 4 && p.shape[row - p.y][col - p.x] != 0
  }

  /** The playfield after `p` is written into it. */
  function Placed(b: Board, p: Tetromino): Board
  {
    seq(H, i requires 0 <= i < H => seq(W, j requires 0 <= j < W =>
      if Covers(p, i, j) then Cell(1, p.color) else b[i][j]))
  }

  /** Placement marks exactly the piece's cells with row >= 0 occupied in its colour,
      drops the cells above the top, and leaves every other cell as it was. */
  lemma PlacedStampsPiece(b: Board, p: Tetromino)
    requires !Collides(b, p, 0, 0)
    ensures forall r, c :: 0 <= r < 4 && 0 <= c < 4 && p.shape[r][c] != 0 && p.y + r >= 0 ==>
      0 <= p.x + c < W && p.y + r < H && b[p.y + r][p.x + c].filled == 0 &&
      Placed(b, p)[p.y + r][p.x + c] == Cell(1, p.color)
    ensures forall i, j :: 0 <= i < H && 0 <= j < W && !Covers(p, i, j) ==> Placed(b, p)[i][j] == b[i][j]
    ensures forall i, j :: 0 <= i < H && 0 <= j < W && b[i][j].filled != 0 ==> Placed(b, p)[i][j].filled != 0
  {
    forall r, c | 0 <= r < 4 && 0 <= c < 4 && p.shape[r][c] != 0 && p.y + r >= 0
      ensures 0 <= p.x + c < W && p.y + r < H && b[p.y + r][p.x + c].filled == 0
      ensures Placed(b, p)[p.y + r][p.x + c] == Cell(1, p.color)
    {
      LivePieceInBounds(b, p, r, c);
      assert Covers(p, p.y + r, p.x + c);
    }
  }

  // ---------------------------------------------------------------- line clearing

  function FullCount(rows: seq<Row>): (n: nat)
    ensures n <= |rows|
  {
    if rows == [] then 0 else (if Full(rows[0]) then 1 else 0) + FullCount(rows[1..])
  }

  /** The rows that are not full, in their original order. */
  function NonFullRows(rows: seq<Row>): (r: seq<Row>)
    ensures |r| == |rows| - FullCount(rows)
    ensures NoFullRow(r)
  {
    if rows == [] then [] else (if Full(rows[0]) then [] else [rows[0]]) + NonFullRows(rows[1..])
  }

  function Repeat(row: Row, n: nat): (r: seq<Row>)
    ensures |r| == n && forall i :: 0 <= i < n ==> r[i] == row
  {
    if n == 0 then [] else [row] + Repeat(row, n - 1)
  }

  /** The playfield after every full row is removed: the remaining rows keep their order
      and sit at the bottom, with one empty row at the top for each row removed. */
  function Compacted(b: Board): Board
  {
    Repeat(EmptyRow(), FullCount(b)) + NonFullRows(b)
  }

  /** After compaction no row is full; the removed rows come back as empty rows on top,
      above the surviving rows. */
  lemma CompactedLayout(b: Board)
    ensures NoFullRow(Compacted(b))
    ensures Compacted(b)[..FullCount(b)] == Repeat(EmptyRow(), FullCount(b))
    ensures Compacted(b)[FullCount(b)..] == NonFullRows(b)
  {
    var k := FullCount(b);
    var top, rest, r := Repeat(EmptyRow(), k), NonFullRows(b), Compacted(b);
    assert r[..k] == top;
    assert r[k..] == rest;
    assert !Full(EmptyRow()) by { assert EmptyRow()[0].filled == 0; }
    forall i | 0 <= i < H
      ensures !Full(r[i])
    {
      if i < k {
        assert r[i] == top[i];
      } else {
        assert r[i] == rest[i - k];
      }
    }
  }

  /** Row i of the result is row i - 1 of the input for 1 <= i <= y, rows below y
      are kept, and row 0 is empty: row y is removed. */
  function ShiftDown(b: Board, y: int): (r: Board)
    requires 0 <= y < H
    ensures r[0] == EmptyRow()
    ensures forall i :: 1 <= i <= y ==> r[i] == b[i - 1]
    ensures forall i :: y < i < H ==> r[i] == b[i]
  {
    [EmptyRow()] + b[..y] + b[y + 1..]
  }

  lemma {:induction false} FullCountAppend(a: seq<Row>, c: seq<Row>)
    ensures FullCount(a + c) == FullCount(a) + FullCount(c)
  {
    if a != [] {
      assert (a + c)[1..] == a[1..] + c;
      FullCountAppend(a[1..], c);
    } else {
      assert a + c == c;
    }
  }

  lemma {:induction false} NoFullRowCountsZero(rows: seq<Row>)
    requires NoFullRow(rows)
    ensures FullCount(rows) == 0
  {
    if rows != [] {
      assert !Full(rows[0]);
      NoFullRowCountsZero(rows[1..]);
    }
  }

  lemma {:induction false} NonFullRowsOfNoFull(rows: seq<Row>)
    requires NoFullRow(rows)
    ensures NonFullRows(rows) == rows
  {
    if rows != [] {
      assert !Full(rows[0]);
      NonFullRowsOfNoFull(rows[1..]);
      assert [rows[0]] + rows[1..] == rows;
    }
  }

  /** A row survives compaction exactly when it occurs in the input and is not full. */
  lemma {:induction false} NonFullRowsMembers(rows: seq<Row>, x: Row)
    ensures x in NonFullRows(rows) <==> x in rows && !Full(x)
  {
    if rows != [] {
      NonFullRowsMembers(rows[1..], x);
      assert rows == [rows[0]] + rows[1..];
    }
  }

  /** Compaction keeps the order of the surviving rows: the survivors of an upper block of
      rows stay above the survivors of the block below it. */
  lemma {:induction false} NonFullRowsAppend(a: seq<Row>, c: seq<Row>)
    ensures NonFullRows(a + c) == NonFullRows(a) + NonFullRows(c)
  {
    if a == [] {
      assert a + c == c;
    } else {
      assert (a + c)[0] == a[0];
      assert (a + c)[1..] == a[1..] + c;
      NonFullRowsAppend(a[1..], c);
    }
  }

  /** With no full row, compaction changes nothing; in particular it is idempotent. */
  lemma CompactedWithoutFullRows(b: Board)
    requires NoFullRow(b)
    ensures FullCount(b) == 0 && Compacted(b) == b
  {
    NoFullRowCountsZero(b);
    NonFullRowsOfNoFull(b);
    assert Compacted(b) == [] + b;
  }

  lemma CompactedIdempotent(b: Board)
    ensures Compacted(Compacted(b)) == Compacted(b)
  {
    CompactedLayout(b);
    CompactedWithoutFullRows(Compacted(b));
  }

  // ---------------------------------------------------------------- occupancy

  function RowFilled(row: seq<Cell>): nat
  {
    if row == [] then 0 else Bit(row[0].filled) + RowFilled(row[1..])
  }

  /** The number of occupied cells in a list of rows. */
  function FilledCount(rows: seq<Row>): nat
  {
    if rows == [] then 0 else RowFilled(rows[0]) + FilledCount(rows[1..])
  }

  lemma {:induction false} RowFilledAll(row: seq<Cell>)
    requires forall j :: 0 <= j < |row| ==> row[j].filled != 0
    ensures RowFilled(row) == |row|
  {
    if row != [] {
      RowFilledAll(row[1..]);
    }
  }

  lemma {:induction false} RowFilledNone(row: seq<Cell>)
    requires forall j :: 0 <= j < |row| ==> row[j].filled == 0
    ensures RowFilled(row) == 0
  {
    if row != [] {
      RowFilledNone(row[1..]);
    }
  }

  lemma {:induction false} FilledCountAppend(a: seq<Row>, c: seq<Row>)
    ensures FilledCount(a + c) == FilledCount(a) + FilledCount(c)
  {
    if a != [] {
      assert (a + c)[1..] == a[1..] + c;
      FilledCountAppend(a[1..], c);
    } else {
      assert a + c == c;
    }
  }

  lemma {:induction false} FilledCountEmptyRows(n: nat)
    ensures FilledCount(Repeat(EmptyRow(), n)) == 0
  {
    if n > 0 {
      RowFilledNone(EmptyRow());
      FilledCountEmptyRows(n - 1);
    }
  }

  lemma {:induction false} NonFullRowsFilled(rows: seq<Row>)
    ensures FilledCount(NonFullRows(rows)) == FilledCount(rows) - W * FullCount(rows)
  {
    if rows != [] {
      NonFullRowsFilled(rows[1..]);
      var head := if Full(rows[0]) then [] else [rows[0]];
      FilledCountAppend(head, NonFullRows(rows[1..]));
      if Full(rows[0]) {
        RowFilledAll(rows[0]);
      } else {
        assert FilledCount(head) == RowFilled(rows[0]);
      }
    }
  }

  /** Every removed row takes exactly W occupied cells with it; nothing else is lost. */
  lemma CompactedFilledCount(b: Board)
    ensures FilledCount(Compacted(b)) == FilledCount(b) - W * FullCount(b)
  {
    FilledCountAppend(Repeat(EmptyRow(), FullCount(b)), NonFullRows(b));
    FilledCountEmptyRows(FullCount(b));
    NonFullRowsFilled(b);
  }

  /** The cleared playfield has no occupied cell. */
  lemma EmptyBoardHasNoCells()
    ensures FilledCount(EmptyBoard()) == 0
  {
    assert EmptyBoard() == Repeat(EmptyRow(), H);
    FilledCountEmptyRows(H);
  }

  // ---------------------------------------------------------------- bottom-up scan

  /** The playfield part-way through the bottom-up scan: `c` rows cleared so far,
      the top `u` input rows not yet examined, the examined ones compacted below them. */
  ghost function ScanState(g0: Board, c: nat, u: nat): seq<Row>
    requires u <= H
  {
    Repeat(EmptyRow(), c) + g0[..u] + NonFullRows(g0[u..])
  }

  lemma ScanStart(g0: Board)
    ensures ScanState(g0, 0, H) == g0
  {
    assert g0[H..] == [];
    assert g0[..H] == g0;
  }

  lemma ScanEnd(g0: Board, c: nat)
    requires c == FullCount(g0)
    ensures ScanState(g0, c, 0) == Compacted(g0)
  {
    assert g0[0..] == g0;
    assert g0[..0] == [];
  }

  lemma ScanRowAt(g0: Board, c: nat, u: nat)
    requires 0 < u <= H
    ensures |ScanState(g0, c, u)| > c + u - 1 && ScanState(g0, c, u)[c + u - 1] == g0[u - 1]
  {
  }

  lemma ScanCount(g0: Board, u: nat)
    requires 0 < u <= H
    ensures FullCount(g0[u - 1..]) == (if Full(g0[u - 1]) then 1 else 0) + FullCount(g0[u..])
  {
    assert g0[u - 1..][1..] == g0[u..];
  }

  /** The scan state cut at row c + u - 1 (the last unexamined input row). */
  lemma ScanSplit(g0: Board, c: nat, u: nat)
    requires 0 < u <= H
    ensures var s := ScanState(g0, c, u);
      && |s| == c + u + |NonFullRows(g0[u..])|
      && s[..c + u - 1] == Repeat(EmptyRow(), c) + g0[..u - 1]
      && s[c + u - 1] == g0[u - 1]
      && s[c + u..] == NonFullRows(g0[u..])
  {
    var a, n := Repeat(EmptyRow(), c) + g0[..u - 1], NonFullRows(g0[u..]);
    assert g0[..u] == g0[..u - 1] + [g0[u - 1]];
    assert ScanState(g0, c, u) == a + [g0[u - 1]] + n;
  }

  /** A full input row u - 1 is removed: the scan has one more cleared row and one fewer
      unexamined row. */
  lemma ScanRemove(g0: Board, c: nat, u: nat)
    requires 0 < u <= H && Full(g0[u - 1])
    requires c + |NonFullRows(g0[u..])| + u == H
    ensures ShiftDown(ScanState(g0, c, u), c + u - 1) == ScanState(g0, c + 1, u - 1)
  {
    var rest := g0[u - 1..];
    assert rest[0] == g0[u - 1] && rest[1..] == g0[u..];
    ScanSplit(g0, c, u);
    assert NonFullRows(rest) == NonFullRows(g0[u..]);
    assert [EmptyRow()] + Repeat(EmptyRow(), c) == Repeat(EmptyRow(), c + 1);
  }

  /** An input row u - 1 that is not full is kept where it is. */
  lemma ScanKeep(g0: Board, c: nat, u: nat)
    requires 0 < u <= H && !Full(g0[u - 1])
    ensures ScanState(g0, c, u) == ScanState(g0, c, u - 1)
  {
    var rest := g0[u - 1..];
    assert rest[0] == g0[u - 1] && rest[1..] == g0[u..];
    assert NonFullRows(rest) == [g0[u - 1]] + NonFullRows(g0[u..]);
    assert g0[..u] == g0[..u - 1] + [g0[u - 1]];
  }

  /** Examining input row u - 1: the scan state moves on with or without a removal. */
  lemma ScanStep(g0: Board, c: nat, u: nat)
    requires 0 < u <= H
    requires c + |NonFullRows(g0[u..])| + u == H
    ensures FullCount(g0[u - 1..]) == (if Full(g0[u - 1]) then 1 else 0) + FullCount(g0[u..])
    ensures Full(g0[u - 1]) ==>
      ShiftDown(ScanState(g0, c, u), c + u - 1) == ScanState(g0, c + 1, u - 1)
    ensures !Full(g0[u - 1]) ==> ScanState(g0, c, u) == ScanState(g0, c, u - 1)
  {
    ScanCount(g0, u);
    if Full(g0[u - 1]) {
      ScanRemove(g0, c, u);
    } else {
      ScanKeep(g0, c, u);
    }
  }

  /** Examining row y of a scan state: a full row is removed and the scan moves up one input
      row; a row that is not full is kept; the rows above the unexamined input are empty. */
  lemma ScanRow(g0: Board, c: nat, u: nat, y: int)
    requires u <= H && 0 <= y < H && y + 1 <= c + u && (u > 0 ==> y + 1 == c + u)
    requires c == FullCount(g0[u..]) && |ScanState(g0, c, u)| == H
    ensures Full(ScanState(g0, c, u)[y]) ==>
      && u > 0 && c + 1 == FullCount(g0[u - 1..])
      && ShiftDown(ScanState(g0, c, u), y) == ScanState(g0, c + 1, u - 1)
    ensures !Full(ScanState(g0, c, u)[y]) && u > 0 ==>
      c == FullCount(g0[u - 1..]) && ScanState(g0, c, u) == ScanState(g0, c, u - 1)
  {
    if u > 0 {
      ScanRowAt(g0, c, u);
      ScanStep(g0, c, u);
    } else {
      assert ScanState(g0, c, u)[y] == EmptyRow();
      assert EmptyRow()[0].filled == 0;
    }
  }

  /** Before a placement no row is full, so afterwards only rows the piece spans can be
      full, and at most four rows are cleared. */
  lemma PlacementFillsAtMostFourRows(b: Board, p: Tetromino)
    requires NoFullRow(b)
    ensures FullCount(Placed(b, p)) <= 4
  {
    var a := Placed(b, p);
    var lo := if p.y < 0 then 0 else if p.y > H then H else p.y;
    var hi := if p.y + 4 < lo then lo else if p.y + 4 > H then H else p.y + 4;
    forall i | 0 <= i < H && (i < p.y || i >= p.y + 4)
      ensures !Full(a[i])
    {
      assert !Full(b[i]);
      var j :| 0 <= j < W && b[i][j].filled == 0;
      assert !Covers(p, i, j);
      assert a[i][j] == b[i][j];
    }
    assert a == a[..lo] + a[lo..hi] + a[hi..];
    FullCountAppend(a[..lo] + a[lo..hi], a[hi..]);
    FullCountAppend(a[..lo], a[lo..hi]);
    assert NoFullRow(a[..lo]);
    assert NoFullRow(a[hi..]);
    NoFullRowCountsZero(a[..lo]);
    NoFullRowCountsZero(a[hi..]);
  }
}
