/**
 * The bot's candidate enumeration (tetris_bot.py, `get_possible_moves_for_piece`):
 * for each of four rotation passes and each column from -2 to 9, the move is
 * kept when the piece, placed at row 0, does not collide. A pass whose
 * quarter-turn leaves the shape unchanged is skipped, and the shape then
 * stays as it was for the following passes.
 */
module BotMoves {
  import opened Grid
  import opened Matrix

  /** `(rotations, x)`: how many quarter-turns, then which column. */
  datatype Move = Move(rotations: int, x: int)

  /** The leftmost column tried; columns run up to `Cols - 1`. */
  const MinX: int := -2

  /** The shape held by the piece during rotation pass r. */
  function PassShape(s: Shape, r: nat): (t: Shape)
    requires IsMatrix(s)
    ensures IsMatrix(t)
  {
    if r == 0 then s
    else var p := PassShape(s, r - 1); if Rotated(p) == p then p else Rotated(p)
  }

  /** Pass r is skipped: its quarter-turn would not change the shape. */
  predicate Skipped(s: Shape, r: nat)
    requires IsMatrix(s)
  {
    r > 0 && Rotated(PassShape(s, r - 1)) == PassShape(s, r - 1)
  }

  /** The moves of one pass for the first n columns, from `MinX` on. */
  function ColumnMoves(g: Cells, t: Shape, r: int, n: nat): seq<Move>
    requires WellFormed(g)
  {
    if n == 0 then []
    else ColumnMoves(g, t, r, n - 1) + (if !Collides(g, t, MinX + n - 1, 0) then [Move(r, MinX + n - 1)] else [])
  }

  /** What one rotation pass does: skip, or try every column with a shape. */
  datatype Pass = Skip | Try(shape: Shape)

  /** The four passes of the enumeration for a piece of shape s. */
  function Passes(s: Shape): (ps: seq<Pass>)
    requires IsMatrix(s)
    ensures |ps| == 4
  {
    seq(4, r requires 0 <= r < 4 => if Skipped(s, r) then Skip else Try(PassShape(s, r)))
  }

  /** The moves one pass collects. */
  function PassMoves(g: Cells, p: Pass, r: int): seq<Move>
    requires WellFormed(g)
  {
    match p
    case Skip => []
    case Try(t) => ColumnMoves(g, t, r, Cols - MinX)
  }

  /** The moves of the first k passes. */
  function MovesUpTo(g: Cells, ps: seq<Pass>, k: nat): seq<Move>
    requires WellFormed(g) && k <= |ps|
  {
    if k == 0 then [] else MovesUpTo(g, ps, k - 1) + PassMoves(g, ps[k - 1], k - 1)
  }

  /** The list `get_possible_moves_for_piece` returns. */
  function Candidates(g: Cells, s: Shape): seq<Move>
    requires WellFormed(g) && IsMatrix(s)
  {
    MovesUpTo(g, Passes(s), 4)
  }

  lemma {:induction false} ColumnMovesIff(g: Cells, t: Shape, r: int, n: nat, m: Move)
    requires WellFormed(g)
    ensures m in ColumnMoves(g, t, r, n) <==>
      m.rotations == r && MinX <= m.x < MinX + n && !Collides(g, t, m.x, 0)
  {
    if n > 0 {
      ColumnMovesIff(g, t, r, n - 1, m);
    }
  }

  lemma {:induction false} MovesUpToIff(g: Cells, ps: seq<Pass>, k: nat, m: Move)
    requires WellFormed(g) && k <= |ps|
    ensures m in MovesUpTo(g, ps, k) <==>
      0 <= m.rotations < k && ps[m.rotations].Try? && MinX <= m.x < Cols &&
      !Collides(g, ps[m.rotations].shape, m.x, 0)
  {
    if k > 0 {
      MovesUpToIff(g, ps, k - 1, m);
      var earlier := MovesUpTo(g, ps, k - 1);
      var pass := PassMoves(g, ps[k - 1], k - 1);
      assert MovesUpTo(g, ps, k) == earlier + pass;
      PassMovesIff(g, ps[k - 1], k - 1, m);
      if m.rotations == k - 1 {
        assert m !in earlier;
      } else {
        assert m !in pass;
      }
    }
  }

  lemma PassMovesIff(g: Cells, p: Pass, r: int, m: Move)
    requires WellFormed(g)
    ensures m in PassMoves(g, p, r) <==>
      m.rotations == r && p.Try? && MinX <= m.x < Cols && !Collides(g, p.shape, m.x, 0)
  {
    if p.Try? {
      ColumnMovesIff(g, p.shape, r, Cols - MinX, m);
    }
  }

  /** A shape that some of its own quarter-turns leave unchanged is left unchanged by every quarter-turn. */
  lemma SkipMeansFixed(s: Shape, r: nat)
    requires IsMatrix(s) && 0 < r < 4
    ensures Rotated(RotN(s, r - 1)) == RotN(s, r - 1) ==> Rotated(s) == s
  {
    FullTurn(s);
    var a, b, c := RotN(s, 1), RotN(s, 2), RotN(s, 3);
    assert a == Rotated(s) by { assert RotN(s, 0) == s; }
    assert b == Rotated(a) && c == Rotated(b) && s == Rotated(c);
    if r == 2 && Rotated(a) == a {
      assert c == a;
    }
  }

  lemma {:induction false} FixedPasses(s: Shape, r: nat)
    requires IsMatrix(s) && Rotated(s) == s
    ensures PassShape(s, r) == s && (r > 0 <==> Skipped(s, r))
  {
    if r > 0 {
      FixedPasses(s, r - 1);
    }
  }

  lemma {:induction false} TurningPasses(s: Shape, r: nat)
    requires IsMatrix(s) && Rotated(s) != s && r < 4
    ensures PassShape(s, r) == RotN(s, r) && !Skipped(s, r)
  {
    if r > 0 {
      TurningPasses(s, r - 1);
      SkipMeansFixed(s, r);
    }
  }

  /**
   * A move is a candidate exactly when its rotation count is 0..3 (only 0 for
   * a shape a quarter-turn leaves unchanged), its column is -2..9, and the
   * piece turned that many times does not collide at row 0 of that column.
   */
  lemma CandidatesIff(g: Cells, s: Shape, m: Move)
    requires WellFormed(g) && IsMatrix(s)
    ensures m in Candidates(g, s) <==>
      0 <= m.rotations < 4 && (m.rotations == 0 || Rotated(s) != s) &&
      MinX <= m.x < Cols && !Collides(g, RotN(s, m.rotations), m.x, 0)
  {
    MovesUpToIff(g, Passes(s), 4, m);
    if 0 <= m.rotations < 4 {
      if Rotated(s) == s {
        FixedPasses(s, m.rotations);
      } else {
        TurningPasses(s, m.rotations);
      }
      if Rotated(s) == s && m.rotations == 0 {
        assert RotN(s, 0) == s;
      }
    }
  }

  /** The square piece. */
  const Square: Shape := [[1, 1], [1, 1]]

  lemma SquareQuarterTurn()
    ensures IsMatrix(Square) && Rotated(Square) == Square
  {
    var t := Rotated(Square);
    RotatedCells(Square);
    assert t[0] == Square[0] && t[1] == Square[1];
  }

  lemma SquareOnEmpty(x: int)
    ensures Collides(EmptyGrid(), Square, x, 0) <==> !(0 <= x <= Cols - 2)
  {
    var g := EmptyGrid();
    CollidesIff(g, Square, x, 0);
    if x < 0 {
      assert Square[0][0] != 0 && Blocks(g, x + 0, 0 + 0);
    } else if x > Cols - 2 {
      assert Square[0][1] != 0 && Blocks(g, x + 1, 0 + 0);
    } else {
      assert !Blocks(g, x + 0, 0 + 0) && !Blocks(g, x + 1, 0 + 0) && !Blocks(g, x + 0, 0 + 1) && !Blocks(g, x + 1, 0 + 1);
    }
  }

  lemma {:induction false} SquareColumns(n: nat)
    requires n <= Cols - MinX
    ensures ColumnMoves(EmptyGrid(), Square, 0, n) ==
      seq(if n <= -MinX then 0 else if n <= Cols - 1 - MinX then n + MinX else Cols - 1, i => Move(0, i))
  {
    if n > 0 {
      SquareColumns(n - 1);
      SquareOnEmpty(MinX + n - 1);
    }
  }

  /**
   * The square on an empty grid: exactly nine moves, all without rotation,
   * at columns 0 to 8; every later pass is skipped.
   */
  lemma SquareCandidates()
    ensures Candidates(EmptyGrid(), Square) == seq(Cols - 1, i => Move(0, i))
  {
    SquareQuarterTurn();
    SquareColumns(Cols - MinX);
    var g := EmptyGrid();
    assert PassShape(Square, 0) == Square;
    assert PassShape(Square, 1) == Square;
    assert PassShape(Square, 2) == Square;
    var ps := Passes(Square);
    assert ps[0] == Try(Square) && ps[1] == Skip && ps[2] == Skip && ps[3] == Skip;
    assert MovesUpTo(g, ps, 1) == ColumnMoves(g, Square, 0, Cols - MinX);
    assert MovesUpTo(g, ps, 2) == MovesUpTo(g, ps, 1);
    assert MovesUpTo(g, ps, 3) == MovesUpTo(g, ps, 1);
    assert MovesUpTo(g, ps, 4) == MovesUpTo(g, ps, 1);
  }
}
