/**
 * The board: a Rows x Cols grid of cells, 0 for an empty cell and a colour id
 * for an occupied one. This module holds the pure descriptions of what the
 * session's board operations compute: the collision boundary of a cell,
 * the locking of a piece, and the removal of full rows.
 */
module Board {
  import opened Catalog

  type Grid = seq<seq<int>>

  /** The board has the playfield's fixed dimensions. */
  predicate Shaped(b: Grid) {
    |b| == Rows && forall r :: 0 <= r < |b| ==> |b[r]| == Cols
  }

  /**
   * The collision boundary of one cell: outside the columns, at or below
   * the bottom row, or an occupied cell of the board. A row above the top
   * of the board (negative) is open.
   */
  predicate Blocked(b: Grid, col: int, row: int)
    requires Shaped(b)
  {
    col < 0 || col >= Cols || row >= Rows || (row >= 0 && b[row][col] != 0)
  }

  /** A row is full when every one of its cells is occupied. */
  predicate Full(row: seq<int>) {
    forall c :: 0 <= c < |row| ==> row[c] != 0
  }

  predicate NoFullRow(b: Grid) {
    forall r :: 0 <= r < |b| ==> !Full(b[r])
  }

  /** A fresh empty row. */
  function EmptyRow(): (row: seq<int>)
    ensures |row| == Cols && forall c :: 0 <= c < Cols ==> row[c] == 0
  {
    seq(Cols, _ => 0)
  }

  /** `n` empty rows. */
  function EmptyRows(n: nat): (rows: Grid)
    ensures |rows| == n && forall r :: 0 <= r < n ==> rows[r] == EmptyRow()
  {
    seq(n, _ => EmptyRow())
  }

  /** The board at the start of a game. */
  function EmptyBoard(): (b: Grid)
    ensures Shaped(b) && NoFullRow(b)
    ensures forall r, c :: 0 <= r < Rows && 0 <= c < Cols ==> b[r][c] == 0
  {
    assert !Full(EmptyRow()) by { assert EmptyRow()[0] == 0; }
    EmptyRows(Rows)
  }

  // ----- removing full rows -----

  /** The rows of `s` that are not full, in their original order. */
  function Kept(s: Grid): Grid {
    if s == [] then [] else (if Full(s[0]) then [] else [s[0]]) + Kept(s[1..])
  }

  /** The number of full rows of `s`, wherever they are. */
  function CountFull(s: Grid): nat {
    if s == [] then 0 else (if Full(s[0]) then 1 else 0) + CountFull(s[1..])
  }

  /** The indices of the full rows of `s`. */
  ghost function FullIndices(s: Grid): set<int> {
    set r | 0 <= r < |s| && Full(s[r])
  }

  lemma {:induction false} CountFullSnoc(s: Grid, row: seq<int>)
    ensures CountFull(s + [row]) == CountFull(s) + if Full(row) then 1 else 0
  {
    if s == [] {
      assert [] + [row] == [row];
      assert [row][1..] == [];
    } else {
      assert (s + [row])[0] == s[0];
      assert (s + [row])[1..] == s[1..] + [row];
      CountFullSnoc(s[1..], row);
    }
  }

  /** `CountFull` counts every full row, adjacent or not: it is the number of full-row indices. */
  lemma {:induction false} CountFullIsCardinality(s: Grid)
    ensures CountFull(s) == |FullIndices(s)|
  {
    if s != [] {
      var n := |s| - 1;
      var init := s[..n];
      assert s == init + [s[n]];
      CountFullIsCardinality(init);
      CountFullSnoc(init, s[n]);
      var a := FullIndices(init);
      assert n !in a;
      if Full(s[n]) {
        assert FullIndices(s) == a + {n};
      } else {
        assert FullIndices(s) == a;
      }
    }
  }

  /**
   * The board after every full row is removed: the remaining rows keep their
   * order and sink to the bottom, and one empty row per removed row is
   * inserted on top.
   */
  function Compacted(b: Grid): Grid {
    EmptyRows(CountFull(b)) + Kept(b)
  }

  /** Every row is either kept or counted as full. */
  lemma {:induction false} KeptLength(s: Grid)
    ensures |Kept(s)| + CountFull(s) == |s|
  {
    if s != [] {
      KeptLength(s[1..]);
    }
  }

  /** The kept rows are rows of `s`, none of them full. */
  lemma {:induction false} KeptRows(s: Grid)
    ensures forall i :: 0 <= i < |Kept(s)| ==> !Full(Kept(s)[i]) && Kept(s)[i] in s
  {
    if s != [] {
      KeptRows(s[1..]);
      var head := if Full(s[0]) then [] else [s[0]];
      assert Kept(s) == head + Kept(s[1..]);
      forall i | 0 <= i < |Kept(s)|
        ensures !Full(Kept(s)[i]) && Kept(s)[i] in s
      {
        if i >= |head| {
          assert Kept(s)[i] == Kept(s[1..])[i - |head|];
          assert Kept(s[1..])[i - |head|] in s[1..];
        }
      }
    }
  }

  /** A board without full rows has nothing to remove. */
  lemma {:induction false} KeptAllWhenNoneFull(s: Grid)
    requires NoFullRow(s)
    ensures Kept(s) == s && CountFull(s) == 0
  {
    if s != [] {
      assert !Full(s[0]);
      KeptAllWhenNoneFull(s[1..]);
    }
  }

  /**
   * Removing full rows keeps the board's dimensions and leaves no full row;
   * the first `CountFull(b)` rows are empty and the rest are `Kept(b)`.
   */
  lemma CompactedShape(b: Grid)
    requires Shaped(b)
    ensures Shaped(Compacted(b)) && NoFullRow(Compacted(b))
    ensures Compacted(b)[..CountFull(b)] == EmptyRows(CountFull(b))
    ensures Compacted(b)[CountFull(b)..] == Kept(b)
  {
    KeptLength(b);
    KeptRows(b);
    var k := CountFull(b);
    var c := Compacted(b);
    assert !Full(EmptyRow()) by { assert EmptyRow()[0] == 0; }
    forall r | 0 <= r < |c|
      ensures |c[r]| == Cols && !Full(c[r])
    {
      if r >= k {
        assert c[r] == Kept(b)[r - k];
        assert c[r] in b;
      }
    }
    assert c[..k] == EmptyRows(k);
    assert c[k..] == Kept(b);
  }

  // The bottom-up scan that removes full rows works on a board of the form
  // EmptyRows(lines) + b0[..k] + Kept(b0[k..]): the rows of the original
  // board b0 from index k on are done, `lines` of them were full.

  /** The row the scan examines is the last unexamined row of b0, or an inserted empty row. */
  lemma ScanRow(b0: Grid, k: nat, lines: nat, y: int)
    requires k <= |b0| && 0 <= y < lines + k && (k > 0 ==> y == lines + k - 1)
    ensures (EmptyRows(lines) + b0[..k] + Kept(b0[k..]))[y] == if k > 0 then b0[k - 1] else EmptyRow()
    ensures k == 0 ==> !Full(EmptyRow())
  {
    assert EmptyRow()[0] == 0;
  }

  /** Removing the full row b0[k - 1] and inserting an empty row on top keeps the scan's form. */
  lemma ScanRemove(b0: Grid, k: nat, lines: nat)
    requires 0 < k <= |b0| && Full(b0[k - 1])
    ensures var board := EmptyRows(lines) + b0[..k] + Kept(b0[k..]);
      var y := lines + k - 1;
      [EmptyRow()] + board[..y] + board[y + 1..] == EmptyRows(lines + 1) + b0[..k - 1] + Kept(b0[k - 1..])
    ensures CountFull(b0[k - 1..]) == CountFull(b0[k..]) + 1
  {
    var board := EmptyRows(lines) + b0[..k] + Kept(b0[k..]);
    var y := lines + k - 1;
    assert b0[k - 1..][0] == b0[k - 1] && b0[k - 1..][1..] == b0[k..];
    assert board[..y] == EmptyRows(lines) + b0[..k - 1];
    assert board[y + 1..] == Kept(b0[k..]);
    assert [EmptyRow()] + EmptyRows(lines) == EmptyRows(lines + 1);
  }

  /** Keeping the non-full row b0[k - 1] keeps the scan's form one row higher. */
  lemma ScanKeep(b0: Grid, k: nat, lines: nat)
    requires 0 < k <= |b0| && !Full(b0[k - 1])
    ensures EmptyRows(lines) + b0[..k] + Kept(b0[k..]) == EmptyRows(lines) + b0[..k - 1] + Kept(b0[k - 1..])
    ensures CountFull(b0[k - 1..]) == CountFull(b0[k..])
  {
    assert b0[k - 1..][0] == b0[k - 1] && b0[k - 1..][1..] == b0[k..];
    assert b0[..k] == b0[..k - 1] + [b0[k - 1]];
  }

  /** Removing full rows a second time changes nothing. */
  lemma CompactedIdempotent(b: Grid)
    requires Shaped(b)
    ensures Compacted(Compacted(b)) == Compacted(b)
  {
    CompactedShape(b);
    KeptAllWhenNoneFull(Compacted(b));
  }

  /** The number of occupied cells of a row, and of a board. */
  function RowOccupied(row: seq<int>): nat {
    if row == [] then 0 else (if row[0] != 0 then 1 else 0) + RowOccupied(row[1..])
  }

  function Occupied(b: Grid): nat {
    if b == [] then 0 else RowOccupied(b[0]) + Occupied(b[1..])
  }

  lemma {:induction false} FullRowOccupied(row: seq<int>)
    requires Full(row)
    ensures RowOccupied(row) == |row|
  {
    if row != [] {
      FullRowOccupied(row[1..]);
    }
  }

  lemma {:induction false} OccupiedAppend(a: Grid, b: Grid)
    ensures Occupied(a + b) == Occupied(a) + Occupied(b)
  {
    if a != [] {
      var ab := a + b;
      assert ab[0] == a[0] && ab[1..] == a[1..] + b;
      OccupiedAppend(a[1..], b);
    } else {
      assert a + b == b;
    }
  }

  lemma {:induction false} EmptyRowsOccupied(n: nat)
    ensures Occupied(EmptyRows(n)) == 0
  {
    if n > 0 {
      assert EmptyRows(n)[1..] == EmptyRows(n - 1);
      EmptyRowsOccupied(n - 1);
      EmptyRowOccupied(Cols);
      assert EmptyRows(n)[0] == seq(Cols, _ => 0);
    }
  }

  lemma {:induction false} EmptyRowOccupied(n: nat)
    ensures RowOccupied(seq(n, _ => 0)) == 0
  {
    if n > 0 {
      assert seq(n, _ => 0)[1..] == seq(n - 1, _ => 0);
      EmptyRowOccupied(n - 1);
    }
  }

  lemma {:induction false} KeptOccupied(s: Grid)
    requires forall r :: 0 <= r < |s| ==> |s[r]| == Cols
    ensures Occupied(Kept(s)) + Cols * CountFull(s) == Occupied(s)
  {
    if s != [] {
      KeptOccupied(s[1..]);
      var head := if Full(s[0]) then [] else [s[0]];
      OccupiedAppend(head, Kept(s[1..]));
      if Full(s[0]) {
        FullRowOccupied(s[0]);
      } else {
        assert Occupied(head) == RowOccupied(s[0]) by { assert head[1..] == []; }
      }
    }
  }

  /**
   * Removing full rows frees exactly the cells of those rows: the occupied
   * count drops by one row width per removed row.
   */
  lemma CompactedOccupied(b: Grid)
    requires Shaped(b)
    ensures Occupied(Compacted(b)) == Occupied(b) - Cols * CountFull(b)
  {
    OccupiedAppend(EmptyRows(CountFull(b)), Kept(b));
    EmptyRowsOccupied(CountFull(b));
    KeptOccupied(b);
  }

  /**
   * If every full row of `s` lies at an index in [lo, hi), at most
   * hi - lo rows are full.
   */
  lemma {:induction false} CountFullWithin(s: Grid, lo: nat, hi: int)
    requires forall r :: 0 <= r < |s| && Full(s[r]) ==> lo <= r < hi
    ensures CountFull(s) <= if hi > lo then hi - lo else 0
  {
    if s != [] {
      var lo' := if lo > 0 then lo - 1 else 0;
      forall r | 0 <= r < |s[1..]| && Full(s[1..][r])
        ensures lo' <= r < hi - 1
      {
        assert s[1..][r] == s[r + 1];
      }
      CountFullWithin(s[1..], lo', hi - 1);
    }
  }

  // ----- locking a piece -----

  /** Whether board cell (row, col) lies under a filled sub-cell of `p` on a row at or below the top. */
  predicate Covers(p: Piece, row: int, col: int) {
    row >= 0 && Filled(p.shape, row - p.y, col - p.x)
  }

  /** Every filled sub-cell of `p` is within the columns and above the bottom. */
  ghost predicate InBounds(p: Piece) {
    forall r, c :: Filled(p.shape, r, c) ==> 0 <= p.x + c < Cols && p.y + r < Rows
  }

  /**
   * The board after locking `p`: the cells under its filled sub-cells on
   * rows at or below the top take its colour; every other cell is as before.
   */
  function Merged(b: Grid, p: Piece): (m: Grid)
    requires Shaped(b)
    ensures Shaped(m)
    ensures forall r, c :: 0 <= r < Rows && 0 <= c < Cols ==>
      m[r][c] == if Covers(p, r, c) then p.colour else b[r][c]
  {
    seq(Rows, r requires 0 <= r < Rows =>
      seq(Cols, c requires 0 <= c < Cols => if Covers(p, r, c) then p.colour else b[r][c]))
  }

  /**
   * Locking a piece with at most h rows into a board without full rows makes
   * at most h rows full, so one lock clears at most 4 lines.
   */
  lemma MergedFullRows(b: Grid, p: Piece)
    requires Shaped(b) && NoFullRow(b)
    ensures CountFull(Merged(b, p)) <= |p.shape|
  {
    var m := Merged(b, p);
    var lo := if p.y > 0 then p.y else 0;
    forall r | 0 <= r < |m| && !(lo <= r < p.y + |p.shape|)
      ensures m[r] == b[r]
    {
      forall c | 0 <= c < Cols ensures m[r][c] == b[r][c] {
        assert !Covers(p, r, c);
      }
    }
    CountFullWithin(m, lo, p.y + |p.shape|);
  }

  // ----- occupied cells across a lock -----

  /** 1 for an occupied cell, 0 for an empty one. */
  function Nonzero(v: int): nat {
    if v != 0 then 1 else 0
  }

  /** Whether entry i of `row` is occupied, 0 outside the row. */
  function CellAt(row: seq<int>, i: int): nat {
    if 0 <= i < |row| then Nonzero(row[i]) else 0
  }

  /** The occupied count of row i of `g`, 0 outside the grid. */
  function RowAt(g: Grid, i: int): nat {
    if 0 <= i < |g| then RowOccupied(g[i]) else 0
  }

  lemma {:induction false} RowOccupiedSuffix(row: seq<int>, k: nat)
    requires k <= |row|
    ensures RowOccupied(row[k..]) <= RowOccupied(row)
  {
    if k > 0 {
      assert row[1..][k - 1..] == row[k..];
      RowOccupiedSuffix(row[1..], k - 1);
    }
  }

  lemma {:induction false} OccupiedSuffix(g: Grid, k: nat)
    requires k <= |g|
    ensures Occupied(g[k..]) <= Occupied(g)
  {
    if k > 0 {
      assert g[1..][k - 1..] == g[k..];
      OccupiedSuffix(g[1..], k - 1);
    }
  }

  /**
   * If every entry of `m` is occupied only where `a` is or where `s`,
   * shifted right by x, is, then `m` has at most the occupied entries of
   * `a` and `s` together.
   */
  lemma {:induction false} RowBound(m: seq<int>, a: seq<int>, s: seq<int>, x: int)
    requires |m| == |a|
    requires forall c :: 0 <= c < |m| ==> Nonzero(m[c]) <= Nonzero(a[c]) + CellAt(s, c - x)
    ensures RowOccupied(m) <= RowOccupied(a) + RowOccupied(s)
    decreases |m|, if x < 0 then 1 else 0
  {
    if m == [] {
    } else if x < 0 {
      if -x >= |s| {
        RowBound(m, a, [], 0);
      } else {
        var t := s[-x..];
        forall c | 0 <= c < |m| ensures CellAt(t, c) == CellAt(s, c - x) {
          if c < |t| { assert t[c] == s[c - x]; }
        }
        RowBound(m, a, t, 0);
        RowOccupiedSuffix(s, -x);
      }
    } else {
      var t := if x == 0 && s != [] then s[1..] else s;
      var x' := if x > 0 then x - 1 else 0;
      forall c | 0 <= c < |m[1..]|
        ensures Nonzero(m[1..][c]) <= Nonzero(a[1..][c]) + CellAt(t, c - x')
      {
        assert Nonzero(m[c + 1]) <= Nonzero(a[c + 1]) + CellAt(s, c + 1 - x);
        if x == 0 && s != [] {
          assert c < |t| ==> t[c] == s[c + 1];
        }
      }
      RowBound(m[1..], a[1..], t, x');
      assert Nonzero(m[0]) <= Nonzero(a[0]) + CellAt(s, -x);
    }
  }

  /**
   * The same bound row by row: if every row of `m` has at most the occupied
   * cells of the matching row of `b` plus those of row r - y of `s`, then
   * `m` has at most the occupied cells of `b` and `s` together.
   */
  lemma {:induction false} GridBound(m: Grid, b: Grid, s: Grid, y: int)
    requires |m| == |b|
    requires forall r :: 0 <= r < |m| ==> RowOccupied(m[r]) <= RowOccupied(b[r]) + RowAt(s, r - y)
    ensures Occupied(m) <= Occupied(b) + Occupied(s)
    decreases |m|, if y < 0 then 1 else 0
  {
    if m == [] {
    } else if y < 0 {
      if -y >= |s| {
        GridBound(m, b, [], 0);
      } else {
        var t := s[-y..];
        forall r | 0 <= r < |m| ensures RowAt(t, r) == RowAt(s, r - y) {
          if r < |t| { assert t[r] == s[r - y]; }
        }
        GridBound(m, b, t, 0);
        OccupiedSuffix(s, -y);
      }
    } else {
      var t := if y == 0 && s != [] then s[1..] else s;
      var y' := if y > 0 then y - 1 else 0;
      forall r | 0 <= r < |m[1..]|
        ensures RowOccupied(m[1..][r]) <= RowOccupied(b[1..][r]) + RowAt(t, r - y')
      {
        assert RowOccupied(m[r + 1]) <= RowOccupied(b[r + 1]) + RowAt(s, r + 1 - y);
        if y == 0 && s != [] {
          assert r < |t| ==> t[r] == s[r + 1];
        }
      }
      GridBound(m[1..], b[1..], t, y');
      assert RowOccupied(m[0]) <= RowOccupied(b[0]) + RowAt(s, -y);
    }
  }

  /**
   * Locking a piece occupies at most as many new cells as the piece has
   * filled sub-cells: sub-cells above the top are dropped, and a sub-cell
   * over an already occupied cell adds nothing.
   */
  lemma MergedOccupied(b: Grid, p: Piece)
    requires Shaped(b)
    ensures Occupied(Merged(b, p)) <= Occupied(b) + Occupied(p.shape)
  {
    var m := Merged(b, p);
    forall r | 0 <= r < Rows
      ensures RowOccupied(m[r]) <= RowOccupied(b[r]) + RowAt(p.shape, r - p.y)
    {
      var s := if 0 <= r - p.y < |p.shape| then p.shape[r - p.y] else [];
      forall c | 0 <= c < Cols ensures Nonzero(m[r][c]) <= Nonzero(b[r][c]) + CellAt(s, c - p.x) {
        if Covers(p, r, c) {
          assert s[c - p.x] != 0;
        }
      }
      RowBound(m[r], b[r], s, p.x);
    }
    GridBound(m, b, p.shape, p.y);
  }

  /**
   * Locking a piece and then removing full rows leaves at most the board's
   * occupied cells plus the piece's filled sub-cells, less one row width per
   * removed row.
   */
  lemma LockOccupied(b: Grid, p: Piece)
    requires Shaped(b)
    ensures Occupied(Compacted(Merged(b, p)))
      <= Occupied(b) + Occupied(p.shape) - Cols * CountFull(Merged(b, p))
  {
    MergedOccupied(b, p);
    CompactedOccupied(Merged(b, p));
  }
}
