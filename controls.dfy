/** One frame of player input: edge detection, click routing and the key-driven moves. */
module Controls {
  import opened Pieces
  import opened Board
  import opened Motion

  /** The keys the game reacts to. */
  datatype Key = KeyP | KeyR | KeyLeft | KeyA | KeyRight | KeyD | KeyDown | KeyS | KeySpace | KeyUp | KeyW

  /** What the device poll delivers for one frame: the keys held now and one frame earlier,
      the left mouse button now and one frame earlier, and whether the cursor lies over the
      restart button, the help button and the close button of the help overlay. */
  datatype InputFrame = InputFrame(
    keys: set<Key>, prevKeys: set<Key>,
    mouseDown: bool, prevMouseDown: bool,
    overRestart: bool, overHelp: bool, overCloseHelp: bool)

  /** A key fires only in the frame in which it goes down. */
  function IsKeyPressed(f: InputFrame, k: Key): bool
  {
    k in f.keys && k !in f.prevKeys
  }

  function IsMouseClicked(f: InputFrame): bool
  {
    f.mouseDown && !f.prevMouseDown
  }

  /** A held key fires once: in the frame after the press it is no longer reported. */
  lemma HeldKeyFiresOnce(f1: InputFrame, f2: InputFrame, k: Key)
    requires f2.prevKeys == f1.keys && IsKeyPressed(f1, k)
    ensures !IsKeyPressed(f2, k)
  {
  }

  /** Which branch of the input handler a frame takes, given whether help is shown. */
  datatype Route = RestartClick | HelpClick | CloseHelpClick | HelpShown | KeyHandling

  function RouteOf(f: InputFrame, helpOpen: bool): (r: Route)
    ensures r == KeyHandling <==> !helpOpen && !(IsMouseClicked(f) && (f.overRestart || f.overHelp))
    ensures r == HelpShown <==> helpOpen && !(IsMouseClicked(f) && (f.overRestart || f.overHelp || f.overCloseHelp))
    ensures r == CloseHelpClick ==> helpOpen
  {
    if IsMouseClicked(f) && f.overRestart then RestartClick
    else if IsMouseClicked(f) && f.overHelp then HelpClick
    else if IsMouseClicked(f) && helpOpen && f.overCloseHelp then CloseHelpClick
    else if helpOpen then HelpShown
    else KeyHandling
  }

  /** The current piece after the stepping keys of one frame, in the handler's order:
      left, right, soft drop. Each step is taken only if it does not collide. */
  function Shifted(b: Board, p: Tetromino, f: InputFrame): (r: Tetromino)
    ensures r.shape == p.shape && r.color == p.color && r.kind == p.kind
    ensures !Collides(b, p, 0, 0) ==> !Collides(b, r, 0, 0)
  {
    var p1 := if IsKeyPressed(f, KeyLeft) || IsKeyPressed(f, KeyA) then TryMove(b, p, -1, 0) else p;
    var p2 := if IsKeyPressed(f, KeyRight) || IsKeyPressed(f, KeyD) then TryMove(b, p1, 1, 0) else p1;
    if IsKeyPressed(f, KeyDown) || IsKeyPressed(f, KeyS) then TryMove(b, p2, 0, 1) else p2
  }

  /** The current piece after all movement keys of one frame: the steps, then hard drop,
      then rotation. */
  function Steer(b: Board, p: Tetromino, f: InputFrame): Tetromino
    requires HasCell(p.shape)
  {
    var p3 := Shifted(b, p, f);
    var p4 := if IsKeyPressed(f, KeySpace) then Dropped(b, p3) else p3;
    if IsKeyPressed(f, KeyUp) || IsKeyPressed(f, KeyW) then RotateOutcome(b, p4) else p4
  }

  /** Steering keeps a live piece live and well formed and never changes its variant or colour. */
  lemma SteerKeepsPieceLive(b: Board, p: Tetromino, f: InputFrame)
    requires WellFormed(p) && !Collides(b, p, 0, 0)
    ensures HasCell(p.shape)
    ensures var r := Steer(b, p, f);
      WellFormed(r) && r.kind == p.kind && !Collides(b, r, 0, 0)
  {
    CountedCellExists(p.shape);
    var p3 := Shifted(b, p, f);
    DroppedLands(b, p3);
    var p4 := if IsKeyPressed(f, KeySpace) then Dropped(b, p3) else p3;
    assert p4.shape == p.shape && p4.color == p.color && p4.kind == p.kind && !Collides(b, p4, 0, 0);
    RotationOutcome(b, p4);
    assert WellFormed(Turned(p4));
  }

  /** Without a movement key the piece stays where it is. */
  lemma SteerWithoutKeys(b: Board, p: Tetromino, f: InputFrame)
    requires HasCell(p.shape)
    requires !IsKeyPressed(f, KeyLeft) && !IsKeyPressed(f, KeyA) && !IsKeyPressed(f, KeyRight)
    requires !IsKeyPressed(f, KeyD) && !IsKeyPressed(f, KeyDown) && !IsKeyPressed(f, KeyS)
    requires !IsKeyPressed(f, KeySpace) && !IsKeyPressed(f, KeyUp) && !IsKeyPressed(f, KeyW)
    ensures Steer(b, p, f) == p
  {
  }
}
