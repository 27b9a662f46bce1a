/**
 * The piece catalog: the seven tetromino templates, the piece record, the
 * rotation of a shape matrix and the construction of a freshly drawn piece.
 */
module Catalog {

  /** Width and height of the playfield, in cells. */
  const Cols: int := 10
  const Rows: int := 20

  /** A shape is a matrix of sub-cells; a nonzero entry is a filled sub-cell. */
  type Shape = seq<seq<int>>

  /**
   * A piece: its shape, its colour id (nonzero, so that a locked cell reads
   * as occupied) and the board position of the shape's top-left corner.
   */
  datatype Piece = Piece(shape: Shape, colour: int, x: int, y: int)

  /** A template of the catalog: a shape and a colour. */
  datatype Template = Template(shape: Shape, colour: int)

  /** The index of a template, the value the random draw produces. */
  type TemplateIndex = i: int | 0 <= i < 7

  /**
   * The seven templates in catalog order (I, T, L, J, O, S, Z). The source
   * colours them with the hex strings #00ffff, #ff00ff, #ff9900, #0000ff,
   * #ffff00, #00ff00 and #ff0000; here colour id k + 1 stands for the k-th.
   */
  const Templates: seq<Template> := [
    Template([[1, 1, 1, 1]], 1),
    Template([[1, 1, 1], [0, 1, 0]], 2),
    Template([[1, 1, 1], [1, 0, 0]], 3),
    Template([[1, 1, 1], [0, 0, 1]], 4),
    Template([[1, 1], [1, 1]], 5),
    Template([[0, 1, 1], [1, 1, 0]], 6),
    Template([[1, 1, 0], [0, 1, 1]], 7)
  ]

  /** A non-empty matrix whose rows all have the length of the first, non-zero, row. */
  predicate Rectangular(s: Shape) {
    |s| > 0 && |s[0]| > 0 && forall i :: 0 <= i < |s| ==> |s[i]| == |s[0]|
  }

  /** Whether `s[r][c]` is a filled sub-cell. */
  predicate Filled(s: Shape, r: int, c: int) {
    0 <= r < |s| && 0 <= c < |s[r]| && s[r][c] != 0
  }

  /** At least one sub-cell is filled. */
  ghost predicate HasFilled(s: Shape) {
    exists r, c :: Filled(s, r, c)
  }

  /** What every shape of the game satisfies: a rectangle of at most 4 by 4 with a filled sub-cell. */
  ghost predicate WellFormed(s: Shape) {
    Rectangular(s) && |s| <= 4 && |s[0]| <= 4 && HasFilled(s)
  }

  /**
   * The quarter turn used by rotation: the result has the dimensions of `s`
   * swapped, and its cell [y][x] is the cell [rows - 1 - x][y] of `s`
   * (transpose, then reverse each row).
   */
  function Rotated(s: Shape): (r: Shape)
    requires Rectangular(s)
    ensures Rectangular(r) && |r| == |s[0]| && |r[0]| == |s|
    ensures forall y, x :: 0 <= y < |r| && 0 <= x < |s| ==> r[y][x] == s[|s| - 1 - x][y]
  {
    seq(|s[0]|, y requires 0 <= y < |s[0]| =>
      seq(|s|, x requires 0 <= x < |s| => s[|s| - 1 - x][y]))
  }

  /** A quarter turn keeps a shape of the game a shape of the game. */
  lemma RotatedWellFormed(s: Shape)
    requires WellFormed(s)
    ensures WellFormed(Rotated(s))
  {
    var r, c :| Filled(s, r, c);
    var t := Rotated(s);
    assert t[c][|s| - 1 - r] == s[r][c];
    assert Filled(t, c, |s| - 1 - r);
  }

  /** Two quarter turns are a half turn: cell [y][x] comes from [rows - 1 - y][cols - 1 - x]. */
  lemma HalfTurn(s: Shape)
    requires Rectangular(s)
    ensures var t := Rotated(Rotated(s));
      && Rectangular(t) && |t| == |s| && |t[0]| == |s[0]|
      && forall y, x :: 0 <= y < |s| && 0 <= x < |s[0]| ==> t[y][x] == s[|s| - 1 - y][|s[0]| - 1 - x]
  {
    var q := Rotated(s);
    var t := Rotated(q);
    forall y, x | 0 <= y < |s| && 0 <= x < |s[0]|
      ensures t[y][x] == s[|s| - 1 - y][|s[0]| - 1 - x]
    {
      assert t[y][x] == q[|q| - 1 - x][y];
    }
  }

  /** Four quarter turns give the original shape back: rotation never loses or invents a cell. */
  lemma FourTurnsIdentity(s: Shape)
    requires Rectangular(s)
    ensures Rotated(Rotated(Rotated(Rotated(s)))) == s
  {
    var h := Rotated(Rotated(s));
    HalfTurn(s);
    HalfTurn(h);
    var t := Rotated(Rotated(h));
    forall y | 0 <= y < |s|
      ensures t[y] == s[y]
    {
      forall x | 0 <= x < |s[0]|
        ensures t[y][x] == s[y][x]
      {
        assert t[y][x] == h[|h| - 1 - y][|h[0]| - 1 - x];
      }
    }
  }

  /** Every template has a shape of the game and a nonzero colour. */
  lemma TemplatesWellFormed(i: TemplateIndex)
    ensures WellFormed(Templates[i].shape) && Templates[i].colour == i + 1
  {
    assert Filled(Templates[i].shape, 0, 1);
  }

  /**
   * A freshly drawn piece: a copy of template `i`, centred horizontally
   * (left margin `floor((Cols - width) / 2)`) on the top row. The random
   * choice of `i` is made by the caller.
   */
  function RandomPiece(i: TemplateIndex): (p: Piece)
    ensures WellFormed(p.shape) && p.shape == Templates[i].shape && p.colour == i + 1
    ensures p.y == 0 && 0 <= p.x && p.x + |p.shape[0]| <= Cols
    ensures 0 <= (Cols - |p.shape[0]| - p.x) - p.x <= 1
  {
    TemplatesWellFormed(i);
    var t := Templates[i];
    Piece(t.shape, t.colour, (Cols - |t.shape[0]|) / 2, 0)
  }
}
