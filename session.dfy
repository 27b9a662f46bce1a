/**
 * The game session: the board, the active and the next piece, the
 * progression counters and the session flags, and the operations that the
 * keyboard handler and the gravity loop drive.
 */
module Game {
  import opened Catalog
  import opened Board
  import opened Controller
  import opened Progression

  datatype Option<T> = None | Some(value: T)

  /** The key codes the keyboard handler dispatches on. */
  const KeyLeft: int := 37
  const KeyRotate: int := 38
  const KeyRight: int := 39
  const KeyDown: int := 40
  const KeyHardDrop: int := 32

  /** A piece of the game: a well-formed shape inside the columns and above the bottom, with a colour. */
  ghost predicate PieceOk(p: Piece) {
    WellFormed(p.shape) && InBounds(p) && p.colour != 0
  }

  /** A freshly drawn piece is a piece of the game. */
  lemma FreshPieceOk(i: TemplateIndex)
    ensures PieceOk(RandomPiece(i))
  {
    var p := RandomPiece(i);
    forall r, c | Filled(p.shape, r, c)
      ensures 0 <= p.x + c < Cols && p.y + r < Rows
    {
      assert |p.shape[r]| == |p.shape[0]|;
    }
  }

  /** The turned piece is a piece of the game wherever it fits, and the outcome starts with the kicks when it collides in place. */
  lemma RotationOk(b: Grid, p: Piece)
    requires Shaped(b) && PieceOk(p)
    ensures var q := p.(shape := Rotated(p.shape));
      && (!Collides(b, q, 0, 0) ==> PieceOk(q) && RotationOutcome(b, p) == q)
      && (Collides(b, q, 0, 0) ==> RotationOutcome(b, p) == KickFrom(b, q, p, 0))
      && forall j :: 0 <= j < |Kicks| && !Collides(b, Kicked(q, j), 0, 0) ==> PieceOk(Kicked(q, j))
  {
    RotatedWellFormed(p.shape);
    var q := p.(shape := Rotated(p.shape));
    if !Collides(b, q, 0, 0) {
      FitsInBounds(b, q);
    }
    forall j | 0 <= j < |Kicks| && !Collides(b, Kicked(q, j), 0, 0)
      ensures PieceOk(Kicked(q, j))
    {
      FitsInBounds(b, Kicked(q, j));
    }
  }

  /** Trying kick i: if it fits it is the outcome, otherwise the outcome is that of the later kicks. */
  lemma KickStep(b: Grid, q: Piece, p: Piece, i: nat)
    requires Shaped(b) && i < |Kicks| && q.x == p.x
    ensures KickFrom(b, q, p, i) == if Collides(b, Kicked(q, i), 0, 0) then KickFrom(b, q, p, i + 1) else Kicked(q, i)
  {
  }

  class Session {
    var board: Grid
    var current: Option<Piece>
    var next: Option<Piece>
    var score: nat
    var level: nat
    var linesCleared: nat
    var gameOver: bool
    var isPaused: bool
    var dropCounter: int
    var dropInterval: int
    var lastTime: int

    /** The board and the progression counters are consistent. */
    ghost predicate Settled()
      reads this
    {
      && Shaped(board) && NoFullRow(board)
      && level == LevelFor(linesCleared) && dropInterval == IntervalFor(level)
    }

    /**
     * The session invariant: besides `Settled`, both pieces are pieces of the
     * game, there is a next piece whenever there is an active one, a game
     * can only be over once a piece was spawned, and while the game is not
     * over the active piece overlaps nothing.
     */
    ghost predicate Valid()
      reads this
    {
      && Settled()
      && (current.Some? ==> PieceOk(current.value) && next.Some?)
      && (next.Some? ==> PieceOk(next.value))
      && (gameOver ==> current.Some?)
      && (!gameOver && current.Some? ==> !Collides(board, current.value, 0, 0))
    }

    /**
     * The board, the next piece, the progression counters and the flags are
     * as before (the active piece, the gravity counter and the clock aside).
     */
    twostate predicate SameGame()
      reads this
    {
      && board == old(board) && next == old(next) && score == old(score) && level == old(level)
      && linesCleared == old(linesCleared) && gameOver == old(gameOver) && isPaused == old(isPaused)
      && dropInterval == old(dropInterval)
    }

    /** Nothing but the active piece changed. */
    twostate predicate OnlyCurrentChanged()
      reads this
    {
      SameGame() && dropCounter == old(dropCounter) && lastTime == old(lastTime)
    }

    /**
     * The effect of landing piece `p` on the game (the gravity counter and
     * the clock aside): `p` is locked into the board, full rows are removed
     * and scored at the level before the clear, the level follows the lines
     * cleared, the next piece becomes active, a new next piece is drawn from
     * template `draw`, and the game is over if the new active piece overlaps.
     */
    twostate predicate Landed(p: Piece, draw: TemplateIndex)
      reads this
    {
      && old(Shaped(board))
      && var lines := CountFull(Merged(old(board), p));
      && lines < |Rewards|
      && board == Compacted(Merged(old(board), p))
      && score == old(score) + Points(lines, old(level))
      && linesCleared == old(linesCleared) + lines
      && level == LevelFor(linesCleared) && dropInterval == IntervalFor(level)
      && current == Some(if old(next).Some? then old(next).value else RandomPiece(draw))
      && next == Some(RandomPiece(draw))
      && Shaped(board) && gameOver == (old(gameOver) || Collides(board, current.value, 0, 0))
      && isPaused == old(isPaused)
    }

    /** Whether moving by (dx, dy) lands the active piece: a downward move that collides. */
    twostate predicate MoveLands(dx: int, dy: int)
      reads this
    {
      && old(current).Some? && dy != 0 && old(Shaped(board))
      && Collides(old(board), Shifted(old(current).value, dx, dy), 0, 0)
    }

    /**
     * The effect of a move by (dx, dy) on the game (the gravity counter and
     * the clock aside): without an active piece nothing; if the shifted
     * piece fits, the piece moves there and nothing else changes; if it
     * collides, the piece keeps its old anchor, and a downward move lands it.
     */
    twostate predicate Moved(dx: int, dy: int, draw: TemplateIndex)
      reads this
    {
      if old(current).None? || !old(Shaped(board)) then
        current == old(current) && SameGame()
      else
        var p := old(current).value;
        if !Collides(old(board), Shifted(p, dx, dy), 0, 0) then
          current == Some(Shifted(p, dx, dy)) && SameGame()
        else if dy == 0 then
          current == old(current) && SameGame()
        else
          Landed(p, draw)
    }

    /**
     * A session as set up by the page: the initial counters, an empty board
     * and no pieces, after which the game is reset. `first` and `draw` are
     * the template indices of the first two random draws.
     */
    constructor (first: TemplateIndex, draw: TemplateIndex)
      ensures Valid() && !gameOver && !isPaused
      ensures board == EmptyBoard() && score == 0 && level == 1 && linesCleared == 0
      ensures current == Some(RandomPiece(first)) && next == Some(RandomPiece(draw))
      ensures dropCounter == 0 && dropInterval == 1000 && lastTime == 0
    {
      board := EmptyBoard();
      current, next := None, None;
      score, level, linesCleared := 0, 1, 0;
      gameOver, isPaused := false, false;
      dropCounter, dropInterval, lastTime := 0, 1000, 0;
      new;
      ResetGame(first, draw);
    }

    /**
     * Whether the active piece, shifted by (dx, dy), collides. Read only.
     */
    method Collision(dx: int, dy: int) returns (hit: bool)
      requires Shaped(board) && current.Some?
      ensures hit == Collides(board, current.value, dx, dy)
    {
      var p := current.value;
      for y := 0 to |p.shape|
        invariant forall r, c :: r < y ==> !CellHits(board, p, dx, dy, r, c)
      {
        for x := 0 to |p.shape[y]|
          invariant forall r, c :: r < y || (r == y && c < x) ==> !CellHits(board, p, dx, dy, r, c)
        {
          if p.shape[y][x] != 0 {
            var newX := p.x + x + dx;
            var newY := p.y + y + dy;
            if newX < 0 || newX >= Cols || newY >= Rows || (newY >= 0 && board[newY][newX] != 0) {
              assert CellHits(board, p, dx, dy, y, x);
              return true;
            }
          }
        }
      }
      return false;
    }

    /**
     * Writes the active piece's colour into the board cells under its filled
     * sub-cells on rows at or below the top; every other cell is untouched.
     */
    method MergePiece()
      requires Shaped(board) && current.Some? && InBounds(current.value)
      modifies this`board
      ensures board == Merged(old(board), current.value)
    {
      var p := current.value;
      ghost var b0 := board;
      for y := 0 to |p.shape|
        invariant Shaped(board)
        invariant forall r, c :: 0 <= r < Rows && 0 <= c < Cols ==>
          board[r][c] == if Covers(p, r, c) && r - p.y < y then p.colour else b0[r][c]
      {
        for x := 0 to |p.shape[y]|
          invariant Shaped(board)
          invariant forall r, c :: 0 <= r < Rows && 0 <= c < Cols ==>
            board[r][c] == if Covers(p, r, c) && (r - p.y < y || (r - p.y == y && c - p.x < x))
                           then p.colour else b0[r][c]
        {
          if p.shape[y][x] != 0 {
            var boardY := p.y + y;
            if boardY >= 0 {
              assert Filled(p.shape, y, x);
              board := board[boardY := board[boardY][p.x + x := p.colour]];
            }
          }
        }
      }
      var m := Merged(b0, p);
      forall r | 0 <= r < Rows
        ensures board[r] == m[r]
      {
        assert forall c :: 0 <= c < Cols ==> board[r][c] == m[r][c];
      }
    }

    /**
     * Removes every full row, scanning from the bottom: a full row is taken
     * out, an empty row goes in on top and the same index is examined again.
     * Then the clear is scored at the current level, the lines are counted,
     * and the level and gravity interval rise when the formula says so.
     */
    method ClearLines() returns (lines: nat)
      requires Shaped(board) && CountFull(board) < |Rewards|
      modifies this`board, this`score, this`linesCleared, this`level, this`dropInterval
      ensures board == Compacted(old(board)) && lines == CountFull(old(board))
      ensures score == old(score) + Points(lines, old(level))
      ensures linesCleared == old(linesCleared) + lines
      ensures if lines > 0 && LevelFor(linesCleared) > old(level)
              then level == LevelFor(linesCleared) && dropInterval == IntervalFor(level)
              else level == old(level) && dropInterval == old(dropInterval)
    {
      lines := RemoveFullRows();
      if lines > 0 {
        score := score + Points(lines, level);
        linesCleared := linesCleared + lines;
        var newLevel := LevelFor(linesCleared);
        if newLevel > level {
          level := newLevel;
          dropInterval := IntervalFor(level);
        }
      }
    }

    /**
     * The scan of the clear: from the bottom row up, a full row is taken
     * out, an empty row goes in on top and the same index is examined again.
     */
    method RemoveFullRows() returns (lines: nat)
      requires Shaped(board)
      modifies this`board
      ensures board == Compacted(old(board)) && lines == CountFull(old(board))
    {
      ghost var b0 := board;
      ghost var k := Rows;
      lines := 0;
      var y := Rows - 1;
      while y >= 0
        invariant -1 <= y < Rows && 0 <= k <= Rows
        invariant board == EmptyRows(lines) + b0[..k] + Kept(b0[k..])
        invariant lines == CountFull(b0[k..])
        invariant if k > 0 then y + 1 == lines + k else y + 1 <= lines
        decreases y + k + 1
      {
        KeptLength(b0[k..]);
        ScanRow(b0, k, lines, y);
        if Full(board[y]) {
          ScanRemove(b0, k, lines);
          board := [EmptyRow()] + board[..y] + board[y + 1..];
          lines := lines + 1;
          k := k - 1;
        } else {
          y := y - 1;
          if k > 0 {
            ScanKeep(b0, k, lines);
            k := k - 1;
          }
        }
      }
    }

    /**
     * Promotes the next piece (a fresh one from `fallback` if there is none)
     * to the active piece and draws a new next piece from `draw`; the game is
     * over if the new active piece overlaps where it appears.
     */
    method SpawnPiece(fallback: TemplateIndex, draw: TemplateIndex)
      requires Settled() && (next.Some? ==> PieceOk(next.value))
      modifies this`current, this`next, this`gameOver
      ensures Valid()
      ensures current == Some(if old(next).Some? then old(next).value else RandomPiece(fallback))
      ensures next == Some(RandomPiece(draw))
      ensures gameOver == (old(gameOver) || Collides(board, current.value, 0, 0))
    {
      FreshPieceOk(fallback);
      FreshPieceOk(draw);
      current := if next.Some? then next else Some(RandomPiece(fallback));
      next := Some(RandomPiece(draw));
      var hit := Collision(0, 0);
      if hit {
        gameOver := true;
      }
    }

    /**
     * Empties the board, zeroes the progression counters, clears both flags,
     * draws a next piece from `first` if there is none and spawns. The
     * gravity counter and the clock are left as they were.
     */
    method ResetGame(first: TemplateIndex, draw: TemplateIndex)
      requires Shaped(board) && (next.Some? ==> PieceOk(next.value))
      modifies this
      ensures Valid() && !gameOver && !isPaused
      ensures board == EmptyBoard() && score == 0 && level == 1 && linesCleared == 0
      ensures dropInterval == 1000
      ensures current == Some(if old(next).Some? then old(next).value else RandomPiece(first))
      ensures next == Some(RandomPiece(draw))
      ensures dropCounter == old(dropCounter) && lastTime == old(lastTime)
    {
      ClearBoard();
      score, level, linesCleared := 0, 1, 0;
      gameOver, isPaused := false, false;
      dropInterval := 1000;
      if next.None? {
        next := Some(RandomPiece(first));
      }
      FreshPieceOk(first);
      SpawnPiece(first, draw);
      EmptyBoardFits(current.value);
    }

    /** Sets every cell of the board to empty, row by row and cell by cell. */
    method ClearBoard()
      requires Shaped(board)
      modifies this`board
      ensures board == EmptyBoard()
    {
      for y := 0 to Rows
        invariant Shaped(board)
        invariant forall r, c :: 0 <= r < y && 0 <= c < Cols ==> board[r][c] == 0
      {
        for x := 0 to Cols
          invariant Shaped(board)
          invariant forall r, c :: 0 <= r < y && 0 <= c < Cols ==> board[r][c] == 0
          invariant forall c :: 0 <= c < x ==> board[y][c] == 0
        {
          board := board[y := board[y][x := 0]];
        }
      }
      forall r | 0 <= r < Rows
        ensures board[r] == EmptyBoard()[r]
      {
        assert forall c :: 0 <= c < Cols ==> board[r][c] == EmptyBoard()[r][c];
      }
    }

    /**
     * Locks the active piece where it is: merge it into the board, remove
     * and score full rows, spawn the next piece and restart the gravity
     * counter. The same four steps end a landing move and a hard drop.
     */
    method Lock(draw: TemplateIndex)
      requires Valid() && current.Some?
      modifies this
      ensures Valid()
      ensures Landed(old(current).value, draw)
      ensures dropCounter == 0 && lastTime == old(lastTime)
    {
      ghost var p := current.value;
      ghost var m := Merged(board, p);
      MergedFullRows(board, p);
      CompactedShape(m);
      MergePiece();
      var lines := ClearLines();
      LevelUpdateKeepsFormula(old(level), old(linesCleared), lines);
      assert Settled();
      ghost var cleared := board;
      ghost var sc, lc := score, linesCleared;
      SpawnPiece(draw, draw);
      assert board == cleared == Compacted(m) && score == sc && linesCleared == lc;
      dropCounter := 0;
    }

    /**
     * Moves the active piece by (dx, dy). The move is applied and, if the
     * piece then collides, its anchor is put back; a rejected downward move
     * locks the piece (see `Lock`), a rejected sideways move does nothing.
     */
    method MovePiece(dx: int, dy: int, draw: TemplateIndex)
      requires Valid()
      modifies this
      ensures Valid()
      ensures Moved(dx, dy, draw) && lastTime == old(lastTime)
      ensures dropCounter == if MoveLands(dx, dy) then 0 else old(dropCounter)
    {
      if current.None? {
        return;
      }
      var p := current.value;
      current := Some(Shifted(p, dx, dy));
      var hit := Collision(0, 0);
      if hit {
        current := Some(Shifted(current.value, -dx, -dy));
        assert current == Some(p);
        if dy != 0 {
          Lock(draw);
        }
      } else {
        FitsInBounds(board, current.value);
      }
    }

    /**
     * Turns the active piece a quarter turn in place. If the turned piece
     * collides, the kicks -1, +1, -2, +2 are tried in order and the first
     * that fits is kept; if none fits, the shape (and the anchor) are put back.
     */
    method RotatePiece()
      requires Valid()
      modifies this`current
      ensures Valid()
      ensures old(current).None? ==> current == old(current)
      ensures old(current).Some? ==> current == Some(RotationOutcome(board, old(current).value))
    {
      if current.None? {
        return;
      }
      var p := current.value;
      var originalShape := p.shape;
      var rotated := Rotated(p.shape);
      current := Some(p.(shape := rotated));
      var hit := Collision(0, 0);
      RotationOk(board, p);
      if hit {
        var fits := TryKicks(p);
        if !fits {
          current := Some(current.value.(shape := originalShape));
        }
      }
    }

    /**
     * The wall-kick loop of a rotation: moves the turned piece sideways by
     * each kick in order and stops at the first position that fits; if none
     * fits, the piece ends where it started.
     */
    method TryKicks(ghost p: Piece) returns (fits: bool)
      requires Shaped(board) && current.Some? && current.value.x == p.x
      modifies this`current
      ensures fits == (KickFrom(board, old(current).value, p, 0) != p)
      ensures current == Some(if fits then KickFrom(board, old(current).value, p, 0) else old(current).value)
    {
      ghost var q := current.value;
      for i := 0 to |Kicks|
        invariant current == Some(q)
        invariant KickFrom(board, q, p, 0) == KickFrom(board, q, p, i)
      {
        current := Some(current.value.(x := current.value.x + Kicks[i]));
        assert current.value == Kicked(q, i);
        var stillHit := Collision(0, 0);
        KickStep(board, q, p, i);
        if !stillHit {
          assert Kicked(q, i).x != p.x;
          return true;
        }
        var back := current.value.(x := current.value.x - Kicks[i]);
        assert back.x == q.x && back.shape == q.shape && back.y == q.y && back.colour == q.colour;
        current := Some(back);
      }
      return false;
    }

    /**
     * Drops the active piece row by row while the row below is free, then
     * locks it there (see `Lock`).
     */
    method HardDrop(draw: TemplateIndex)
      requires Valid() && current.Some?
      modifies this
      ensures Valid()
      ensures Landed(Landing(old(board), old(current).value), draw)
      ensures dropCounter == 0 && lastTime == old(lastTime)
    {
      ghost var p0 := current.value;
      var hit := Collision(0, 1);
      while !hit
        invariant Valid() && current.Some? && OnlyCurrentChanged()
        invariant Landing(board, current.value) == Landing(board, p0)
        invariant hit == Collides(board, current.value, 0, 1)
        decreases Rows - current.value.y
      {
        var p := current.value;
        StepAboveBottom(board, p);
        ShiftCollides(board, p, 0, 1);
        current := Some(p.(y := p.y + 1));
        assert current.value == Shifted(p, 0, 1);
        FitsInBounds(board, current.value);
        hit := Collision(0, 1);
      }
      Lock(draw);
    }

    /**
     * One frame of the game loop at time `time` (milliseconds): nothing while
     * paused or over; otherwise the elapsed time since the last frame is added
     * to the gravity counter, and once the counter exceeds the drop interval
     * the piece moves down one row and the counter restarts.
     */
    method Tick(time: int, draw: TemplateIndex)
      requires Valid()
      modifies this
      ensures Valid()
      ensures old(isPaused || gameOver) ==> unchanged(this)
      ensures !old(isPaused || gameOver) ==> (
        && lastTime == time
        && var counter := old(dropCounter) + (time - old(lastTime));
        if counter > old(dropInterval) then Moved(0, 1, draw) && dropCounter == 0
        else current == old(current) && SameGame() && dropCounter == counter)
    {
      if isPaused || gameOver {
        return;
      }
      var deltaTime := time - lastTime;
      lastTime := time;
      dropCounter := dropCounter + deltaTime;
      if dropCounter > dropInterval {
        MovePiece(0, 1, draw);
        dropCounter := 0;
      }
    }

    /**
     * The keyboard handler: nothing while the game is over or paused;
     * otherwise left and right arrows move sideways, the down arrow moves
     * down one row, the up arrow rotates and space hard-drops. Other keys
     * are ignored.
     */
    method KeyPressed(key: int, draw: TemplateIndex)
      requires Valid() && (key == KeyHardDrop ==> current.Some?)
      modifies this
      ensures Valid()
      ensures old(gameOver || isPaused) ==> unchanged(this)
      ensures !old(gameOver || isPaused) ==>
        if key == KeyLeft then Moved(-1, 0, draw) && dropCounter == old(dropCounter) && lastTime == old(lastTime)
        else if key == KeyRight then Moved(1, 0, draw) && dropCounter == old(dropCounter) && lastTime == old(lastTime)
        else if key == KeyDown then
          Moved(0, 1, draw) && lastTime == old(lastTime)
          && dropCounter == if MoveLands(0, 1) then 0 else old(dropCounter)
        else if key == KeyRotate then
          OnlyCurrentChanged()
          && current == if old(current).None? then old(current) else Some(RotationOutcome(board, old(current).value))
        else if key == KeyHardDrop then
          Landed(Landing(old(board), old(current).value), draw) && dropCounter == 0 && lastTime == old(lastTime)
        else unchanged(this)
    {
      if gameOver || isPaused {
        return;
      }
      if key == KeyLeft {
        MovePiece(-1, 0, draw);
      } else if key == KeyRight {
        MovePiece(1, 0, draw);
      } else if key == KeyDown {
        MovePiece(0, 1, draw);
      } else if key == KeyRotate {
        RotatePiece();
      } else if key == KeyHardDrop {
        HardDrop(draw);
      }
    }

    /**
     * The start button: a finished game is reset first (drawing from
     * `first` and `draw`); then play resumes with the clock restarted.
     */
    method StartGame(first: TemplateIndex, draw: TemplateIndex)
      requires Valid()
      modifies this
      ensures Valid() && !isPaused && lastTime == 0
      ensures old(gameOver) ==> (
        && !gameOver && board == EmptyBoard() && score == 0 && level == 1
        && linesCleared == 0 && dropInterval == 1000 && dropCounter == old(dropCounter)
        && old(next).Some? && current == old(next) && next == Some(RandomPiece(draw)))
      ensures !old(gameOver) ==> (
        && current == old(current) && next == old(next) && board == old(board)
        && score == old(score) && level == old(level) && linesCleared == old(linesCleared)
        && !gameOver && dropInterval == old(dropInterval) && dropCounter == old(dropCounter))
    {
      if gameOver {
        ResetGame(first, draw);
      }
      isPaused := false;
      lastTime := 0;
    }

    /** The pause button: flips the pause flag; resuming a live game restarts the clock. */
    method TogglePause()
      requires Valid()
      modifies this`isPaused, this`lastTime
      ensures Valid() && isPaused == !old(isPaused)
      ensures lastTime == if !isPaused && !gameOver then 0 else old(lastTime)
    {
      isPaused := !isPaused;
      if !isPaused && !gameOver {
        lastTime := 0;
      }
    }
  }
}
