/**
 * The piece controller's pure side: the collision predicate, and the
 * positions that rotation (with wall kicks) and hard drop reach.
 */
module Controller {
  import opened Catalog
  import opened Board

  /** Filled sub-cell (r, c) of `p`, shifted by (dx, dy), lands on a blocked cell. */
  predicate CellHits(b: Grid, p: Piece, dx: int, dy: int, r: int, c: int)
    requires Shaped(b)
  {
    Filled(p.shape, r, c) && Blocked(b, p.x + c + dx, p.y + r + dy)
  }

  /**
   * `p` shifted by (dx, dy) collides: some filled sub-cell leaves the
   * columns, reaches the bottom or lands on an occupied cell of a row at or
   * below the top.
   */
  ghost predicate Collides(b: Grid, p: Piece, dx: int, dy: int)
    requires Shaped(b)
  {
    exists r, c :: CellHits(b, p, dx, dy, r, c)
  }

  /** `p` with its anchor moved by (dx, dy). */
  function Shifted(p: Piece, dx: int, dy: int): Piece {
    p.(x := p.x + dx, y := p.y + dy)
  }

  /** Testing a shift is the same as testing the shifted piece in place. */
  lemma ShiftCollides(b: Grid, p: Piece, dx: int, dy: int)
    requires Shaped(b)
    ensures Collides(b, p, dx, dy) == Collides(b, Shifted(p, dx, dy), 0, 0)
  {
    var q := Shifted(p, dx, dy);
    forall r, c ensures CellHits(b, p, dx, dy, r, c) == CellHits(b, q, 0, 0, r, c) {
    }
  }

  /** A piece that does not collide lies within the columns and above the bottom. */
  lemma FitsInBounds(b: Grid, p: Piece)
    requires Shaped(b) && !Collides(b, p, 0, 0)
    ensures InBounds(p)
  {
    forall r, c | Filled(p.shape, r, c)
      ensures 0 <= p.x + c < Cols && p.y + r < Rows
    {
      assert !CellHits(b, p, 0, 0, r, c);
    }
  }

  /** On the empty board a piece within the columns and above the bottom overlaps nothing. */
  lemma EmptyBoardFits(p: Piece)
    requires InBounds(p)
    ensures !Collides(EmptyBoard(), p, 0, 0)
  {
    forall r, c ensures !CellHits(EmptyBoard(), p, 0, 0, r, c) {
    }
  }

  // ----- hard drop -----

  /** One more row down is free only while a filled sub-cell is above the bottom row. */
  lemma StepAboveBottom(b: Grid, p: Piece)
    requires Shaped(b) && HasFilled(p.shape) && !Collides(b, p, 0, 1)
    ensures p.y + 1 < Rows
  {
    var r, c :| Filled(p.shape, r, c);
    assert !CellHits(b, p, 0, 1, r, c);
  }

  /**
   * Where a hard drop stops: the piece moves down row by row while the next
   * row is free. It keeps its column and shape, never rises, every row it
   * passes leaves the next one free, and one more row down would collide.
   */
  ghost function Landing(b: Grid, p: Piece): (q: Piece)
    requires Shaped(b) && HasFilled(p.shape)
    ensures q == p.(y := q.y) && q.y >= p.y
    ensures Collides(b, q, 0, 1)
    ensures forall k :: p.y <= k < q.y ==> !Collides(b, p.(y := k), 0, 1)
    decreases Rows - p.y
  {
    if Collides(b, p, 0, 1) then p
    else
      StepAboveBottom(b, p);
      Landing(b, p.(y := p.y + 1))
  }

  /** A piece that fits still fits where the hard drop stops it. */
  lemma LandingFits(b: Grid, p: Piece)
    requires Shaped(b) && HasFilled(p.shape) && !Collides(b, p, 0, 0)
    ensures !Collides(b, Landing(b, p), 0, 0)
  {
    var q := Landing(b, p);
    if q.y > p.y {
      var above := p.(y := q.y - 1);
      assert !Collides(b, above, 0, 1);
      ShiftCollides(b, above, 0, 1);
      assert Shifted(above, 0, 1) == q;
    } else {
      assert q == p;
    }
  }

  // ----- rotation with wall kicks -----

  /** The horizontal offsets tried, in order, when a rotated piece collides. */
  const Kicks: seq<int> := [-1, 1, -2, 2]

  /** `q` moved sideways by the kick at index j. */
  function Kicked(q: Piece, j: int): Piece
    requires 0 <= j < |Kicks|
  {
    q.(x := q.x + Kicks[j])
  }

  /**
   * The outcome of trying the kicks from index i on: the first kicked
   * position that does not collide, or `p` itself (the rotation is undone)
   * when every remaining kick collides. `q` is `p` turned in place.
   */
  ghost function KickFrom(b: Grid, q: Piece, p: Piece, i: nat): (r: Piece)
    requires Shaped(b) && i <= |Kicks| && q.x == p.x
    ensures (r == p) == forall j :: i <= j < |Kicks| ==> Collides(b, Kicked(q, j), 0, 0)
    ensures r != p ==> exists j :: (i <= j < |Kicks| && r == Kicked(q, j) &&
      !Collides(b, r, 0, 0) && forall k :: i <= k < j ==> Collides(b, Kicked(q, k), 0, 0))
    decreases |Kicks| - i
  {
    if i == |Kicks| then p
    else if !Collides(b, Kicked(q, i), 0, 0) then Kicked(q, i)
    else KickFrom(b, q, p, i + 1)
  }

  /**
   * The outcome of a rotation request: the quarter-turned piece in place if
   * it fits, otherwise the first fitting kick, otherwise `p` unchanged.
   */
  ghost function RotationOutcome(b: Grid, p: Piece): Piece
    requires Shaped(b) && Rectangular(p.shape)
  {
    var q := p.(shape := Rotated(p.shape));
    if !Collides(b, q, 0, 0) then q else KickFrom(b, q, p, 0)
  }

  /**
   * Rotation never changes the row; it either yields the turned shape at a
   * position that fits, offset by no kick or by the first kick that fits,
   * or, when the turned shape collides in place and under every kick, it
   * leaves the piece exactly as it was.
   */
  lemma RotationOutcomeSpec(b: Grid, p: Piece)
    requires Shaped(b) && Rectangular(p.shape)
    ensures var r := RotationOutcome(b, p);
      var q := p.(shape := Rotated(p.shape));
      && r.y == p.y && r.colour == p.colour
      && (!Collides(b, q, 0, 0) ==> r == q)
      && (Collides(b, q, 0, 0) ==>
            (r == p <==> forall j :: 0 <= j < |Kicks| ==> Collides(b, Kicked(q, j), 0, 0)))
      && (r == p || (r.shape == Rotated(p.shape) && !Collides(b, r, 0, 0)))
  {
    var q := p.(shape := Rotated(p.shape));
    if Collides(b, q, 0, 0) {
      var r := KickFrom(b, q, p, 0);
      if r != p {
        var j :| 0 <= j < |Kicks| && r == Kicked(q, j) && !Collides(b, r, 0, 0);
        assert r.shape == q.shape && r.y == q.y;
      }
    }
  }
}
