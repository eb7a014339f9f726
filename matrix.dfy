/**
 * Clockwise quarter-turn of a rectangular piece matrix, as both the bot and
 * the client compute it: an r x c matrix becomes a c x r matrix with
 * rotated[c][r - 1 - row] = shape[row][c].
 */
module Matrix {
  import opened Grid

  /** A non-empty rectangular matrix (every row as long as the first). */
  ghost predicate IsMatrix(s: Shape) {
    |s| > 0 && |s[0]| > 0 && forall r | 0 <= r < |s| :: |s[r]| == |s[0]|
  }

  /**
   * The first n entries of column c read from the bottom row up: row c of
   * the quarter-turn. Built by recursion rather than as a comprehension, so
   * that a fact `Rotated(p) == p` does not make the solver rewrite cells of
   * p without end.
   */
  function TurnedRow(s: Shape, c: int, n: nat): (row: seq<int>)
    requires IsMatrix(s) && 0 <= c < |s[0]| && n <= |s|
    ensures |row| == n
  {
    if n == 0 then [] else TurnedRow(s, c, n - 1) + [s[|s| - n][c]]
  }

  function TurnedRows(s: Shape, m: nat): (t: Shape)
    requires IsMatrix(s) && m <= |s[0]|
    ensures |t| == m && forall c | 0 <= c < m :: |t[c]| == |s|
  {
    if m == 0 then [] else TurnedRows(s, m - 1) + [TurnedRow(s, m - 1, |s|)]
  }

  /** One clockwise quarter-turn: an r x c matrix becomes a c x r matrix. */
  function Rotated(s: Shape): (t: Shape)
    requires IsMatrix(s)
    ensures IsMatrix(t) && |t| == |s[0]| && |t[0]| == |s|
  {
    TurnedRows(s, |s[0]|)
  }

  lemma {:induction false} TurnedRowCells(s: Shape, c: int, n: nat)
    requires IsMatrix(s) && 0 <= c < |s[0]| && n <= |s|
    ensures forall k | 0 <= k < n :: TurnedRow(s, c, n)[k] == s[|s| - 1 - k][c]
  {
    if n > 0 {
      TurnedRowCells(s, c, n - 1);
    }
  }

  lemma {:induction false} TurnedRowsCells(s: Shape, m: nat)
    requires IsMatrix(s) && m <= |s[0]|
    ensures forall c | 0 <= c < m :: TurnedRows(s, m)[c] == TurnedRow(s, c, |s|)
  {
    if m > 0 {
      TurnedRowsCells(s, m - 1);
    }
  }

  /** The defining cell relation of the quarter-turn: rotated[c][r - 1 - row] == shape[row][c]. */
  lemma RotatedCells(s: Shape)
    requires IsMatrix(s)
    ensures var t := Rotated(s);
      forall row, c | 0 <= row < |s| && 0 <= c < |s[0]| :: t[c][|s| - 1 - row] == s[row][c]
  {
    var t := Rotated(s);
    TurnedRowsCells(s, |s[0]|);
    forall row, c | 0 <= row < |s| && 0 <= c < |s[0]|
      ensures t[c][|s| - 1 - row] == s[row][c]
    {
      TurnedRowCells(s, c, |s|);
    }
  }

  /** The shape after n successive quarter-turns. */
  function RotN(s: Shape, n: nat): (t: Shape)
    requires IsMatrix(s)
    ensures IsMatrix(t)
  {
    if n == 0 then s else Rotated(RotN(s, n - 1))
  }

  /** Two quarter-turns turn the matrix upside down and mirror it. */
  lemma HalfTurn(s: Shape)
    requires IsMatrix(s)
    ensures var t := Rotated(Rotated(s));
      |t| == |s| && |t[0]| == |s[0]| &&
      forall r, c | 0 <= r < |s| && 0 <= c < |s[0]| :: t[r][c] == s[|s| - 1 - r][|s[0]| - 1 - c]
  {
    var n, m := |s|, |s[0]|;
    var t1 := Rotated(s);
    var t := Rotated(t1);
    RotatedCells(s);
    RotatedCells(t1);
    forall r, c | 0 <= r < n && 0 <= c < m
      ensures t[r][c] == s[n - 1 - r][m - 1 - c]
    {
      assert t[r][c] == t1[m - 1 - c][r];
      assert t1[m - 1 - c][r] == s[n - 1 - r][m - 1 - c];
    }
  }

  /** Two half-turns cancel out. */
  lemma HalfTurnTwice(s: Shape)
    requires IsMatrix(s)
    ensures Rotated(Rotated(Rotated(Rotated(s)))) == s
  {
    var h := Rotated(Rotated(s));
    HalfTurn(s);
    HalfTurn(h);
    var t := Rotated(Rotated(h));
    var n, m := |s|, |s[0]|;
    forall r, c | 0 <= r < n && 0 <= c < m
      ensures t[r][c] == s[r][c]
    {
      assert t[r][c] == h[n - 1 - r][m - 1 - c];
    }
    SameCells(t, s);
  }

  /** Two matrices of the same dimensions with the same cells are equal. */
  lemma SameCells(a: Shape, b: Shape)
    requires IsMatrix(a) && IsMatrix(b) && |a| == |b| && |a[0]| == |b[0]|
    requires forall r, c | 0 <= r < |a| && 0 <= c < |a[0]| :: a[r][c] == b[r][c]
    ensures a == b
  {
    forall r | 0 <= r < |a|
      ensures a[r] == b[r]
    {
      assert |a[r]| == |b[r]|;
    }
  }

  /** Four quarter-turns give back the original matrix. */
  lemma FullTurn(s: Shape)
    requires IsMatrix(s)
    ensures RotN(s, 4) == s
  {
    assert RotN(s, 1) == Rotated(s) by { assert RotN(s, 0) == s; }
    assert RotN(s, 2) == Rotated(Rotated(s));
    assert RotN(s, 3) == Rotated(RotN(s, 2));
    assert RotN(s, 4) == Rotated(Rotated(RotN(s, 2)));
    HalfTurnTwice(s);
  }

  /** Turning a piece neither creates nor loses blocks. */
  lemma RotatedHasBlock(s: Shape)
    requires IsMatrix(s) && HasBlock(s)
    ensures HasBlock(Rotated(s))
  {
    var r, c :| 0 <= r < |s| && 0 <= c < |s[r]| && s[r][c] != 0;
    var t := Rotated(s);
    RotatedCells(s);
    assert t[c][|s| - 1 - r] == s[r][c];
  }

  lemma {:induction false} RotNHasBlock(s: Shape, n: nat)
    requires IsMatrix(s) && HasBlock(s)
    ensures HasBlock(RotN(s, n))
  {
    if n > 0 {
      RotNHasBlock(s, n - 1);
      RotatedHasBlock(RotN(s, n - 1));
    }
  }
}
