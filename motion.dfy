/** How the current piece may move: single steps, hard drop, and rotation with kicks. */
module Motion {
  import opened Pieces
  import opened Board

  /** A one-step move that is taken only if the moved piece would not collide. */
  function TryMove(b: Board, p: Tetromino, dx: int, dy: int): (r: Tetromino)
    ensures !Collides(b, p, dx, dy) ==> r == Moved(p, dx, dy)
    ensures Collides(b, p, dx, dy) ==> r == p
    ensures !Collides(b, p, 0, 0) ==> !Collides(b, r, 0, 0)
  {
    CollidesAtOffset(b, p, dx, dy);
    if Collides(b, p, dx, dy) then p else Moved(p, dx, dy)
  }

  // ---------------------------------------------------------------- hard drop

  function AtRow(p: Tetromino, row: int): Tetromino
  {
    p.(y := row)
  }

  /** A piece with an occupied cell that can still fall one row is above the floor. */
  lemma FallRoom(b: Board, p: Tetromino)
    requires HasCell(p.shape) && !Collides(b, p, 0, 1)
    ensures p.y < H - 1
  {
    var r, c :| 0 <= r < 4 && 0 <= c < 4 && p.shape[r][c] != 0;
    assert !Hit(b, p.x + c, p.y + r + 1);
  }

  /** The piece moved down while the row below is free; it keeps its column, shape and colour. */
  function Dropped(b: Board, p: Tetromino): (r: Tetromino)
    requires HasCell(p.shape)
    ensures r.shape == p.shape && r.color == p.color && r.kind == p.kind && r.x == p.x && r.y >= p.y
    decreases H - p.y
  {
    if Collides(b, p, 0, 1) then
      p
    else
      FallRoom(b, p);
      Dropped(b, Moved(p, 0, 1))
  }

  /** One row of a hard drop: a piece that can fall drops as far as the piece one row lower. */
  lemma DropStep(b: Board, p: Tetromino)
    requires HasCell(p.shape) && !Collides(b, p, 0, 1)
    ensures Dropped(b, p) == Dropped(b, Moved(p, 0, 1))
  {
  }

  /** A hard drop ends on the first row from which the piece cannot fall, passes no row from
      which it could fall, and keeps a live piece live. */
  lemma {:induction false} DroppedLands(b: Board, p: Tetromino)
    requires HasCell(p.shape)
    ensures var r := Dropped(b, p);
      && Collides(b, r, 0, 1)
      && (forall row :: p.y <= row < r.y ==> !Collides(b, AtRow(p, row), 0, 1))
      && (!Collides(b, p, 0, 0) ==> !Collides(b, r, 0, 0))
    decreases H - p.y
  {
    if Collides(b, p, 0, 1) {
      assert AtRow(p, p.y) == p;
    } else {
      FallRoom(b, p);
      CollidesAtOffset(b, p, 0, 1);
      var q := Moved(p, 0, 1);
      DroppedLands(b, q);
      assert forall row :: AtRow(q, row) == AtRow(p, row);
      assert AtRow(p, p.y) == p;
    }
  }

  // ---------------------------------------------------------------- rotation

  /** Offsets tried, in order, when the turned piece collides where it stands. */
  const KICKS: seq<(int, int)> := [(-1, 0), (1, 0), (0, -1), (-1, -1), (1, -1)]

  /** Every position a rotation may end in, in order of preference: unshifted, then the kicks. */
  const CANDIDATES: seq<(int, int)> := [(0, 0)] + KICKS

  predicate FitsAt(b: Board, rot: Tetromino, k: nat)
    requires k < |CANDIDATES|
  {
    !Collides(b, rot, CANDIDATES[k].0, CANDIDATES[k].1)
  }

  /** The turned piece moved by the first kick from index i on under which it fits,
      or `p` unchanged if none fits. */
  function KickSearch(b: Board, rot: Tetromino, p: Tetromino, i: nat): Tetromino
    requires i <= |KICKS|
    decreases |KICKS| - i
  {
    if i == |KICKS| then p
    else if !Collides(b, rot, KICKS[i].0, KICKS[i].1) then Moved(rot, KICKS[i].0, KICKS[i].1)
    else KickSearch(b, rot, p, i + 1)
  }

  /** The piece after a rotation request. */
  function RotateOutcome(b: Board, p: Tetromino): Tetromino
  {
    var rot := Turned(p);
    if !Collides(b, rot, 0, 0) then rot else KickSearch(b, rot, p, 0)
  }

  lemma {:induction false} KickSearchFinds(b: Board, rot: Tetromino, p: Tetromino, i: nat, k: nat)
    requires i <= k < |KICKS|
    requires !Collides(b, rot, KICKS[k].0, KICKS[k].1)
    requires forall j :: i <= j < k ==> Collides(b, rot, KICKS[j].0, KICKS[j].1)
    ensures KickSearch(b, rot, p, i) == Moved(rot, KICKS[k].0, KICKS[k].1)
    decreases k - i
  {
    if i < k {
      KickSearchFinds(b, rot, p, i + 1, k);
    }
  }

  lemma {:induction false} KickSearchFails(b: Board, rot: Tetromino, p: Tetromino, i: nat)
    requires i <= |KICKS|
    requires forall j :: i <= j < |KICKS| ==> Collides(b, rot, KICKS[j].0, KICKS[j].1)
    ensures KickSearch(b, rot, p, i) == p
    decreases |KICKS| - i
  {
    if i < |KICKS| {
      KickSearchFails(b, rot, p, i + 1);
    }
  }

  /** The unshifted rotation is preferred; otherwise the first kick in list order that fits. */
  lemma RotationTakesFirstFit(b: Board, p: Tetromino, k: nat)
    requires k < |CANDIDATES| && FitsAt(b, Turned(p), k)
    requires forall j :: 0 <= j < k ==> !FitsAt(b, Turned(p), j)
    ensures RotateOutcome(b, p) == Moved(Turned(p), CANDIDATES[k].0, CANDIDATES[k].1)
  {
    var rot := Turned(p);
    if k == 0 {
      assert Moved(rot, 0, 0) == rot;
    } else {
      assert !FitsAt(b, rot, 0);
      forall j | 0 <= j < k - 1
        ensures Collides(b, rot, KICKS[j].0, KICKS[j].1)
      {
        assert !FitsAt(b, rot, j + 1);
      }
      KickSearchFinds(b, rot, p, 0, k - 1);
    }
  }

  /** When no candidate position fits, the rotation is discarded and the piece is unchanged. */
  lemma RotationWithoutFitIsDiscarded(b: Board, p: Tetromino)
    requires forall k :: 0 <= k < |CANDIDATES| ==> !FitsAt(b, Turned(p), k)
    ensures RotateOutcome(b, p) == p
  {
    var rot := Turned(p);
    assert !FitsAt(b, rot, 0);
    forall j | 0 <= j < |KICKS|
      ensures Collides(b, rot, KICKS[j].0, KICKS[j].1)
    {
      assert !FitsAt(b, rot, j + 1);
    }
    KickSearchFails(b, rot, p, 0);
  }

  lemma {:induction false} KickSearchShape(b: Board, rot: Tetromino, p: Tetromino, i: nat)
    requires i <= |KICKS|
    ensures var r := KickSearch(b, rot, p, i);
      r == p || (r.shape == rot.shape && r.kind == rot.kind && r.color == rot.color && !Collides(b, r, 0, 0))
    decreases |KICKS| - i
  {
    if i < |KICKS| {
      CollidesAtOffset(b, rot, KICKS[i].0, KICKS[i].1);
      KickSearchShape(b, rot, p, i + 1);
    }
  }

  /** A rotation leaves the piece unchanged or turns it a quarter to a position where it
      does not collide; variant and colour never change; a live piece stays live. */
  lemma RotationOutcome(b: Board, p: Tetromino)
    ensures var r := RotateOutcome(b, p);
      && r.kind == p.kind && r.color == p.color
      && (r == p || (r.shape == Rotated(p.shape) && !Collides(b, r, 0, 0)))
      && (!Collides(b, p, 0, 0) ==> !Collides(b, r, 0, 0))
  {
    KickSearchShape(b, Turned(p), p, 0);
  }
}
