/**
 * The placement bot (tetris_bot.py, class `TetrisBot`): its tier settings,
 * the grid and pieces it is handed, the candidate enumeration that turns a
 * piece in place and restores it, and `find_best_move` with its random
 * draws passed in as parameters.
 */
module Bot {
  import opened Options
  import opened Grid
  import opened Matrix
  import opened BotSim
  import opened BotConfig
  import opened BotEval
  import opened BotMoves
  import opened BotChoice

  /** A falling piece as the bot receives it; the bot turns `shape` in place while enumerating. */
  class Piece {
    var shape: Shape
    var x: int
    var y: int
    var shapeIdx: int

    constructor(shape: Shape, x: int, y: int, shapeIdx: int)
      ensures this.shape == shape && this.x == x && this.y == y && this.shapeIdx == shapeIdx
    {
      this.shape := shape;
      this.x := x;
      this.y := y;
      this.shapeIdx := shapeIdx;
    }

    function View(): PieceView
      reads this
    {
      PieceView(shape, shapeIdx)
    }
  }

  /** The `for _ in range(rotations)` loop of `find_best_move`. */
  method TurnShape(s: Shape, n: int) returns (t: Shape)
    requires IsMatrix(s) && n >= 0
    ensures t == RotN(s, n)
  {
    t := s;
    for i := 0 to n
      invariant t == RotN(s, i)
    {
      t := RotateShape(t);
    }
  }

  /** The drop loop of `find_best_move`: from row 0, step down while one more step does not collide. */
  method DropFromTop(g: Cells, t: Shape, x: int, idx: int) returns (test: Placement)
    requires WellFormed(g) && HasBlock(t)
    ensures test == Placement(t, x, DropY(g, t, x, 0), idx)
  {
    var y := 0;
    var hit := CheckCollision(g, Placement(t, x, y, idx), 0, 1);
    while !hit
      invariant y < Rows && DropY(g, t, x, y) == DropY(g, t, x, 0)
      invariant hit == Collides(g, t, x, y + 1)
      decreases Rows - y
    {
      DropStep(g, t, x, y);
      assert DropY(g, t, x, y + 1) == DropY(g, t, x, 0);
      y := y + 1;
      hit := CheckCollision(g, Placement(t, x, y, idx), 0, 1);
    }
    test := Placement(t, x, y, idx);
  }

  /**
   * One simulated move on a copy of the grid: the piece turned
   * `m.rotations` times, put at column `m.x`, dropped from row 0, written in,
   * and full rows cleared.
   */
  method SimulateMove(g: Cells, v: PieceView, m: Move) returns (h: Cells, lines: nat)
    requires WellFormed(g) && Playable(v) && m.rotations >= 0
    ensures h == Compacted(Landed(g, v, m)) && lines == CountFull(Landed(g, v, m))
    ensures WellFormed(h)
  {
    var shape := TurnShape(v.shape, m.rotations);
    RotNHasBlock(v.shape, m.rotations);
    var test := DropFromTop(g, shape, m.x, v.shapeIdx);
    var placed := PlacePiece(g, test);
    h, lines := ClearLines(placed);
  }

  /** The inner loop of `get_possible_moves_for_piece`: the columns -2 .. 9 where shape t fits at row 0. */
  method TryColumns(g: Cells, t: Shape, idx: int, rotation: int) returns (found: seq<Move>)
    requires WellFormed(g)
    ensures found == ColumnMoves(g, t, rotation, Cols - MinX)
  {
    found := [];
    for x := MinX to Cols
      invariant found == ColumnMoves(g, t, rotation, x - MinX)
    {
      var hit := CheckCollision(g, Placement(t, x, 0, idx), 0, 0);
      if !hit {
        found := found + [Move(rotation, x)];
      }
    }
  }

  /** The look-ahead loop: the best plain score over the moves `ms` of piece v on grid h. */
  method BestPlainScore(w: Weights, h: Cells, v: PieceView, ms: seq<Move>) returns (best: ExtScore)
    requires WellFormed(h) && Playable(v) && ValidMoves(ms)
    ensures best == BestOf(PlainScores(w, h, v, ms))
  {
    ghost var sc := PlainScores(w, h, v, ms);
    best := NegInf;
    for j := 0 to |ms|
      invariant best == BestOf(sc[..j])
    {
      var h2, lines2 := SimulateMove(h, v, ms[j]);
      var score := EvaluatePosition(w, h2, lines2);
      assert Finite(score) == sc[j];
      BestOfStep(sc, j);
      best := MaxScore(best, Finite(score));
    }
    assert sc[..|ms|] == sc;
  }

  class TetrisBot {
    const difficulty: Difficulty
    const settings: Settings
    const weights: Weights
    var grid: Cells
    var current: Piece?
    var next: Piece?
    var score: int
    var linesCleared: int
    var level: int

    /**
     * The grid keeps its format, the pieces it is handed are whole matrices
     * with a block, and the current and next piece are different objects.
     */
    ghost predicate Valid()
      reads this, current, next
    {
      && WellFormed(grid)
      && (current != null ==> current != next)
      && (current != null ==> Playable(current.View()))
      && (next != null ==> Playable(next.View()))
    }

    function NextView(): Option<PieceView>
      reads this, next
    {
      if next == null then None else Some(next.View())
    }

    /** A bot of the given tier: an empty 20 x 10 grid, no pieces, the tier's settings and weights. */
    constructor(d: Difficulty)
      ensures difficulty == d && settings == SettingsFor(d) && weights == WeightsFor(d)
      ensures grid == EmptyGrid() && current == null && next == null
      ensures score == 0 && linesCleared == 0 && level == 1
      ensures Valid()
    {
      difficulty := d;
      settings := SettingsFor(d);
      weights := WeightsFor(d);
      grid := EmptyGrid();
      current := null;
      next := null;
      score := 0;
      linesCleared := 0;
      level := 1;
    }

    /** `set_grid` stores a deep copy: a value here. */
    method SetGrid(g: Cells)
      modifies this`grid
      ensures grid == g
    {
      grid := g;
    }

    method SetPieces(currentPiece: Piece?, nextPiece: Piece?)
      modifies this`current, this`next
      ensures current == currentPiece && next == nextPiece
    {
      current := currentPiece;
      next := nextPiece;
    }

    /**
     * `get_possible_moves_for_piece`: turns `piece.shape` once per pass
     * (skipping a pass whose turn changes nothing), collects the columns
     * where it fits at row 0, and puts the original shape back.
     */
    method GetPossibleMovesForPiece(g: Cells, piece: Piece) returns (moves: seq<Move>)
      requires WellFormed(g) && IsMatrix(piece.shape)
      modifies piece`shape
      ensures moves == Candidates(g, old(piece.shape))
      ensures piece.shape == old(piece.shape)
    {
      moves := [];
      var original := piece.shape;
      for rotation := 0 to 4
        invariant piece.shape == PassShape(original, if rotation == 0 then 0 else rotation - 1)
        invariant moves == MovesUpTo(g, Passes(original), rotation)
      {
        if rotation > 0 {
          var testShape := RotateShape(piece.shape);
          if testShape == piece.shape {
            continue;
          }
          piece.shape := testShape;
        }
        var found := TryColumns(g, piece.shape, piece.shapeIdx, rotation);
        moves := moves + found;
      }
      piece.shape := original;
    }

    /** `get_possible_moves`: the candidates of the current piece on the bot's grid, none without a piece. */
    method GetPossibleMoves() returns (moves: seq<Move>)
      requires Valid()
      modifies (if current == null then {} else {current})`shape
      ensures current == null ==> moves == []
      ensures current != null ==> moves == Candidates(grid, old(current.shape)) && current.shape == old(current.shape)
    {
      if current == null {
        return [];
      }
      moves := GetPossibleMovesForPiece(grid, current);
    }

    /**
     * `find_best_move` with its random draws as parameters: `errorDraw` is
     * the `random.random()` compared with the tier's error rate, `errorPick`
     * and `tiePick` choose an index (modulo the list length) where the source
     * calls `random.choice`.
     */
    method FindBestMove(errorDraw: real, errorPick: nat, tiePick: nat) returns (best: Option<Move>)
      requires Valid()
      modifies (if current == null then {} else {current})`shape, (if next == null then {} else {next})`shape
      ensures current != null ==> current.shape == old(current.shape)
      ensures next != null ==> next.shape == old(next.shape)
      ensures best == if current == null then None
        else Chosen(settings, weights, grid, old(current.View()), old(NextView()), errorDraw, errorPick, tiePick)
    {
      if current == null {
        return None;
      }
      var cur := current.View();
      var cands := GetPossibleMoves();
      best := ChooseMove(cur, cands, errorDraw, errorPick, tiePick);
    }

    /** The choice that ends `find_best_move`, once the candidates of the current piece are known. */
    method ChooseMove(cur: PieceView, cands: seq<Move>, errorDraw: real, errorPick: nat, tiePick: nat)
      returns (best: Option<Move>)
      requires Valid() && Playable(cur) && cands == Candidates(grid, cur.shape)
      modifies (if next == null then {} else {next})`shape
      ensures next != null ==> next.shape == old(next.shape)
      ensures best == Chosen(settings, weights, grid, cur, old(NextView()), errorDraw, errorPick, tiePick)
    {
      if |cands| == 0 {
        return None;
      }
      if errorDraw < settings.errorRate {
        return Some(cands[errorPick % |cands|]);
      }
      ghost var nv := NextView();
      CandidatesValid(grid, cur.shape);
      var bestScore, bestMoves := SelectAmong(cur, cands);
      assert CandidateScores(weights, settings.lookAhead, grid, cur, nv)
        == MoveScores(weights, settings.lookAhead, grid, cur, nv, cands);
      ChosenFromSelection(settings, weights, grid, cur, nv, errorDraw, errorPick, tiePick, bestMoves);
      best := Some(bestMoves[tiePick % |bestMoves|]);
    }

    /** The loop of `find_best_move` over the candidates: the running top score and the moves tied at it. */
    method SelectAmong(cur: PieceView, cands: seq<Move>) returns (bestScore: ExtScore, bestMoves: seq<Move>)
      requires Valid() && Playable(cur) && ValidMoves(cands)
      modifies (if next == null then {} else {next})`shape
      ensures next != null ==> next.shape == old(next.shape)
      ensures (bestScore, bestMoves) == Selection(cands, MoveScores(weights, settings.lookAhead, grid, cur, old(NextView()), cands))
    {
      ghost var nv := NextView();
      ghost var sc := MoveScores(weights, settings.lookAhead, grid, cur, nv, cands);
      bestScore := NegInf;
      bestMoves := [];
      for i := 0 to |cands|
        invariant (bestScore, bestMoves) == Selection(cands[..i], sc[..i])
        invariant NextView() == nv && Valid()
      {
        var moveScore := ScoreMove(cur, cands[i]);
        assert moveScore == sc[i];
        SelectionPrefix(cands, sc, i);
        if Above(moveScore, bestScore) {
          bestScore := moveScore;
          bestMoves := [cands[i]];
        } else if moveScore == bestScore {
          bestMoves := bestMoves + [cands[i]];
        }
      }
      assert cands[..|cands|] == cands && sc[..|sc|] == sc;
    }

    /** The score `find_best_move` gives one candidate of the current piece. */
    method ScoreMove(cur: PieceView, m: Move) returns (s: ExtScore)
      requires Valid() && Playable(cur) && m.rotations >= 0
      modifies (if next == null then {} else {next})`shape
      ensures next != null ==> next.shape == old(next.shape)
      ensures Valid() && NextView() == old(NextView())
      ensures s == MoveScore(weights, settings.lookAhead, grid, cur, old(NextView()), m)
    {
      var h, lines := SimulateMove(grid, cur, m);
      var base := EvaluatePosition(weights, h, lines);
      s := Finite(base);
      if settings.lookAhead && next != null {
        var bestNext := BestNextScore(h, next);
        s := AddHalf(base, bestNext);
      }
    }

    /** The look-ahead of `find_best_move`: the next piece's candidates on grid h, and the best plain score among them. */
    method BestNextScore(h: Cells, piece: Piece) returns (bestNext: ExtScore)
      requires WellFormed(h) && Playable(piece.View())
      modifies piece`shape
      ensures piece.shape == old(piece.shape)
      ensures bestNext == BestNext(weights, h, piece.View())
    {
      var nv := piece.View();
      var nextMoves := GetPossibleMovesForPiece(h, piece);
      CandidatesValid(h, nv.shape);
      bestNext := BestPlainScore(weights, h, nv, nextMoves);
    }
  }
}
