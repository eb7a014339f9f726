/**
 * The bot's move scoring and selection (tetris_bot.py, `find_best_move`):
 * scores are reals extended with the `float('-inf')` the source starts
 * from, and the selection keeps every move tied with the running maximum.
 */
module BotChoice {
  import opened Grid
  import opened Matrix
  import opened BotSim
  import opened BotEval
  import opened BotConfig
  import opened BotMoves
  import opened Options

  /** A score: minus infinity or a finite real. */
  datatype ExtScore = NegInf | Finite(value: real)

  /** Strictly greater, with minus infinity below every finite score. */
  predicate Above(a: ExtScore, b: ExtScore) {
    a.Finite? && (b.NegInf? || a.value > b.value)
  }

  /** Python's `max(a, b)`, which keeps `a` unless `b` is greater. */
  function MaxScore(a: ExtScore, b: ExtScore): (m: ExtScore)
    ensures !Above(a, m) && !Above(b, m) && (m == a || m == b)
  {
    if Above(b, a) then b else a
  }

  /** `base + 0.5 * next`, where adding minus infinity gives minus infinity. */
  function AddHalf(base: real, next: ExtScore): (r: ExtScore)
    ensures r.NegInf? <==> next.NegInf?
    ensures next.Finite? ==> r.value - base == next.value / 2.0
  {
    if next.NegInf? then NegInf else Finite(base + 0.5 * next.value)
  }

  /** The running maximum starting from minus infinity. */
  function BestOf(sc: seq<ExtScore>): (b: ExtScore)
    ensures forall i | 0 <= i < |sc| :: !Above(sc[i], b)
    ensures |sc| == 0 ==> b == NegInf
    ensures |sc| > 0 ==> b in sc
  {
    if |sc| == 0 then NegInf else MaxScore(BestOf(sc[..|sc| - 1]), sc[|sc| - 1])
  }

  /** One more step of the running maximum. */
  lemma BestOfStep(sc: seq<ExtScore>, j: int)
    requires 0 <= j < |sc|
    ensures BestOf(sc[..j + 1]) == MaxScore(BestOf(sc[..j]), sc[j])
  {
    assert sc[..j + 1][..j] == sc[..j];
  }

  // ---------------------------------------------------------------------
  // Simulating one move.

  /** What the bot knows about a piece: its shape and its index in the shape table. */
  datatype PieceView = PieceView(shape: Shape, shapeIdx: int)

  ghost predicate Playable(v: PieceView) {
    IsMatrix(v.shape) && HasBlock(v.shape)
  }

  /** The grid after the piece turned `m.rotations` times drops from row 0 of column `m.x` and is written in. */
  function Landed(g: Cells, v: PieceView, m: Move): (h: Cells)
    requires WellFormed(g) && Playable(v) && m.rotations >= 0
    ensures WellFormed(h)
  {
    var t := RotN(v.shape, m.rotations);
    RotNHasBlock(v.shape, m.rotations);
    Placed(g, t, m.x, DropY(g, t, m.x, 0), v.shapeIdx + 1)
  }

  /** The evaluation of the move alone: the landed grid after clearing, and the rows cleared. */
  function PlainScore(w: Weights, g: Cells, v: PieceView, m: Move): real
    requires WellFormed(g) && Playable(v) && m.rotations >= 0
  {
    var h := Landed(g, v, m);
    CompactedShape(h);
    Evaluate(w, Compacted(h), CountFull(h))
  }

  ghost predicate ValidMoves(ms: seq<Move>) {
    forall i | 0 <= i < |ms| :: ms[i].rotations >= 0
  }

  lemma CandidatesValid(g: Cells, s: Shape)
    requires WellFormed(g) && IsMatrix(s)
    ensures ValidMoves(Candidates(g, s))
  {
    forall i | 0 <= i < |Candidates(g, s)|
      ensures Candidates(g, s)[i].rotations >= 0
    {
      CandidatesIff(g, s, Candidates(g, s)[i]);
    }
  }

  /** The plain scores of a list of moves. */
  function PlainScores(w: Weights, g: Cells, v: PieceView, ms: seq<Move>): (sc: seq<ExtScore>)
    requires WellFormed(g) && Playable(v) && ValidMoves(ms)
    ensures |sc| == |ms| && forall i | 0 <= i < |ms| :: sc[i] == Finite(PlainScore(w, g, v, ms[i]))
  {
    seq(|ms|, i requires 0 <= i < |ms| => Finite(PlainScore(w, g, v, ms[i])))
  }

  /** The best plain score of the next piece on grid g, minus infinity when it has no candidate. */
  function BestNext(w: Weights, g: Cells, v: PieceView): ExtScore
    requires WellFormed(g) && Playable(v)
  {
    CandidatesValid(g, v.shape);
    BestOf(PlainScores(w, g, v, Candidates(g, v.shape)))
  }

  /**
   * The score of a move as `find_best_move` computes it: the plain score,
   * plus half the best next-piece score on the resulting grid when looking ahead.
   */
  function MoveScore(w: Weights, lookAhead: bool, g: Cells, cur: PieceView, next: Option<PieceView>, m: Move): ExtScore
    requires WellFormed(g) && Playable(cur) && (next.Some? ==> Playable(next.value)) && m.rotations >= 0
  {
    var base := PlainScore(w, g, cur, m);
    if lookAhead && next.Some? then
      var h := Landed(g, cur, m);
      CompactedShape(h);
      AddHalf(base, BestNext(w, Compacted(h), next.value))
    else Finite(base)
  }

  /** The score of every candidate of the current piece, in candidate order. */
  function CandidateScores(w: Weights, lookAhead: bool, g: Cells, cur: PieceView, next: Option<PieceView>): (sc: seq<ExtScore>)
    requires WellFormed(g) && Playable(cur) && (next.Some? ==> Playable(next.value))
    ensures |sc| == |Candidates(g, cur.shape)|
  {
    CandidatesValid(g, cur.shape);
    MoveScores(w, lookAhead, g, cur, next, Candidates(g, cur.shape))
  }

  /** The score of each of the moves `ms`, in order. */
  function MoveScores(w: Weights, lookAhead: bool, g: Cells, cur: PieceView, next: Option<PieceView>, ms: seq<Move>): (sc: seq<ExtScore>)
    requires WellFormed(g) && Playable(cur) && (next.Some? ==> Playable(next.value)) && ValidMoves(ms)
    ensures |sc| == |ms|
  {
    seq(|ms|, i requires 0 <= i < |ms| => MoveScore(w, lookAhead, g, cur, next, ms[i]))
  }

  // ---------------------------------------------------------------------
  // Selection.

  /** The moves whose score equals b, in order. */
  function Tied(ms: seq<Move>, sc: seq<ExtScore>, b: ExtScore): (t: seq<Move>)
    requires |ms| == |sc|
    ensures |t| <= |ms|
  {
    if |ms| == 0 then []
    else Tied(ms[..|ms| - 1], sc[..|sc| - 1], b) + (if sc[|sc| - 1] == b then [ms[|ms| - 1]] else [])
  }

  lemma {:induction false} TiedIff(ms: seq<Move>, sc: seq<ExtScore>, b: ExtScore, m: Move)
    requires |ms| == |sc|
    ensures m in Tied(ms, sc, b) <==> exists i | 0 <= i < |ms| :: ms[i] == m && sc[i] == b
  {
    if |ms| > 0 {
      var n := |ms| - 1;
      TiedIff(ms[..n], sc[..n], b, m);
      if m in Tied(ms[..n], sc[..n], b) {
        var i :| 0 <= i < n && ms[..n][i] == m && sc[..n][i] == b;
        assert ms[i] == m && sc[i] == b;
      }
      if exists i | 0 <= i < |ms| :: ms[i] == m && sc[i] == b {
        var i :| 0 <= i < |ms| && ms[i] == m && sc[i] == b;
        if i < n {
          assert ms[..n][i] == m && sc[..n][i] == b;
        }
      }
    }
  }

  lemma {:induction false} TiedNone(ms: seq<Move>, sc: seq<ExtScore>, b: ExtScore)
    requires |ms| == |sc|
    requires forall i | 0 <= i < |sc| :: !Above(sc[i], b) && sc[i] != b
    ensures Tied(ms, sc, b) == []
  {
    if |ms| > 0 {
      TiedNone(ms[..|ms| - 1], sc[..|sc| - 1], b);
    }
  }

  /**
   * The loop over the candidates: the best score so far (starting at minus
   * infinity) and the moves that reach it; a strictly better score restarts
   * the list, an equal one joins it.
   */
  function Selection(ms: seq<Move>, sc: seq<ExtScore>): (r: (ExtScore, seq<Move>))
    requires |ms| == |sc|
    ensures r.0 == BestOf(sc) && r.1 == Tied(ms, sc, r.0)
  {
    if |ms| == 0 then (NegInf, [])
    else
      var n := |ms| - 1;
      var (best, moves) := Selection(ms[..n], sc[..n]);
      SelectionStep(ms, sc, best, moves);
      if Above(sc[n], best) then (sc[n], [ms[n]])
      else if sc[n] == best then (best, moves + [ms[n]])
      else (best, moves)
  }

  lemma SelectionStep(ms: seq<Move>, sc: seq<ExtScore>, best: ExtScore, moves: seq<Move>)
    requires |ms| == |sc| > 0
    requires var n := |ms| - 1; best == BestOf(sc[..n]) && moves == Tied(ms[..n], sc[..n], best)
    ensures var n := |ms| - 1;
      && (Above(sc[n], best) ==> sc[n] == BestOf(sc) && [ms[n]] == Tied(ms, sc, sc[n]))
      && (!Above(sc[n], best) ==> best == BestOf(sc))
      && (sc[n] == best ==> moves + [ms[n]] == Tied(ms, sc, best))
      && (sc[n] != best ==> moves == Tied(ms, sc, best))
  {
    var n := |ms| - 1;
    if Above(sc[n], best) {
      forall i | 0 <= i < n
        ensures !Above(sc[..n][i], sc[n]) && sc[..n][i] != sc[n]
      {
      }
      TiedNone(ms[..n], sc[..n], sc[n]);
    }
  }

  /** The selection over one more move extends the selection over the prefix. */
  lemma SelectionPrefix(ms: seq<Move>, sc: seq<ExtScore>, i: int)
    requires |ms| == |sc| && 0 <= i < |ms|
    ensures var (best, moves) := Selection(ms[..i], sc[..i]);
      Selection(ms[..i + 1], sc[..i + 1]) ==
        if Above(sc[i], best) then (sc[i], [ms[i]])
        else if sc[i] == best then (best, moves + [ms[i]])
        else (best, moves)
  {
    assert ms[..i + 1][..i] == ms[..i] && sc[..i + 1][..i] == sc[..i];
  }

  /** Every selected move is a move that reaches the top score. */
  lemma SelectionTop(ms: seq<Move>, sc: seq<ExtScore>, m: Move)
    requires |ms| == |sc|
    requires m in Selection(ms, sc).1
    ensures exists i | 0 <= i < |ms| :: ms[i] == m && sc[i] == Selection(ms, sc).0
  {
    TiedIff(ms, sc, Selection(ms, sc).0, m);
  }

  /** With at least one candidate, some move is always selected, every one of them with the best score. */
  lemma SelectionNonEmpty(ms: seq<Move>, sc: seq<ExtScore>)
    requires |ms| == |sc| > 0
    ensures var (best, moves) := Selection(ms, sc);
      |moves| > 0 && forall m | m in moves :: m in ms
  {
    var (best, moves) := Selection(ms, sc);
    var i :| 0 <= i < |sc| && sc[i] == best;
    TiedIff(ms, sc, best, ms[i]);
    forall m | m in moves
      ensures m in ms
    {
      TiedIff(ms, sc, best, m);
    }
  }

  // ---------------------------------------------------------------------
  // The choice of `find_best_move`.

  /**
   * The move chosen for `cur` on g: none without candidates; a candidate
   * picked at random (index `errorPick`) when the draw falls under the
   * error rate; otherwise one (index `tiePick`) of the moves tied at the
   * top score.
   */
  function Chosen(s: Settings, w: Weights, g: Cells, cur: PieceView, next: Option<PieceView>,
                  errorDraw: real, errorPick: nat, tiePick: nat): Option<Move>
    requires WellFormed(g) && Playable(cur) && (next.Some? ==> Playable(next.value))
  {
    var cands := Candidates(g, cur.shape);
    if |cands| == 0 then None
    else if errorDraw < s.errorRate then Some(cands[errorPick % |cands|])
    else
      var sc := CandidateScores(w, s.lookAhead, g, cur, next);
      SelectionNonEmpty(cands, sc);
      var tied := Selection(cands, sc).1;
      Some(tied[tiePick % |tied|])
  }

  /** Past the early exits, the chosen move is the tied move at index `tiePick` modulo their number. */
  lemma ChosenFromSelection(s: Settings, w: Weights, g: Cells, cur: PieceView, next: Option<PieceView>,
                            errorDraw: real, errorPick: nat, tiePick: nat, tied: seq<Move>)
    requires WellFormed(g) && Playable(cur) && (next.Some? ==> Playable(next.value))
    requires |Candidates(g, cur.shape)| > 0 && errorDraw >= s.errorRate
    requires tied == Selection(Candidates(g, cur.shape), CandidateScores(w, s.lookAhead, g, cur, next)).1
    ensures |tied| > 0 && Chosen(s, w, g, cur, next, errorDraw, errorPick, tiePick) == Some(tied[tiePick % |tied|])
  {
    SelectionNonEmpty(Candidates(g, cur.shape), CandidateScores(w, s.lookAhead, g, cur, next));
  }

  /** A move is chosen exactly when the piece has a candidate, and the chosen move is one. */
  lemma ChosenIsCandidate(s: Settings, w: Weights, g: Cells, cur: PieceView, next: Option<PieceView>,
                          errorDraw: real, errorPick: nat, tiePick: nat)
    requires WellFormed(g) && Playable(cur) && (next.Some? ==> Playable(next.value))
    ensures var r := Chosen(s, w, g, cur, next, errorDraw, errorPick, tiePick);
      && (r.None? <==> |Candidates(g, cur.shape)| == 0)
      && (r.Some? ==> r.value in Candidates(g, cur.shape))
  {
    var cands := Candidates(g, cur.shape);
    if |cands| > 0 && errorDraw >= s.errorRate {
      var sc := CandidateScores(w, s.lookAhead, g, cur, next);
      var tied := Selection(cands, sc).1;
      ChosenFromSelection(s, w, g, cur, next, errorDraw, errorPick, tiePick, tied);
      SelectionNonEmpty(cands, sc);
    }
  }

  /**
   * Above the error rate the chosen move reaches the top score: it is a
   * candidate whose score no candidate beats.
   */
  lemma ChosenIsBest(s: Settings, w: Weights, g: Cells, cur: PieceView, next: Option<PieceView>,
                     errorDraw: real, errorPick: nat, tiePick: nat)
    requires WellFormed(g) && Playable(cur) && (next.Some? ==> Playable(next.value))
    requires errorDraw >= s.errorRate && |Candidates(g, cur.shape)| > 0
    ensures var cands := Candidates(g, cur.shape);
      var sc := CandidateScores(w, s.lookAhead, g, cur, next);
      var r := Chosen(s, w, g, cur, next, errorDraw, errorPick, tiePick);
      exists i | 0 <= i < |cands| :: cands[i] == r.value && forall j | 0 <= j < |cands| :: !Above(sc[j], sc[i])
  {
    var cands := Candidates(g, cur.shape);
    var sc := CandidateScores(w, s.lookAhead, g, cur, next);
    var tied := Selection(cands, sc).1;
    ChosenFromSelection(s, w, g, cur, next, errorDraw, errorPick, tiePick, tied);
    SelectionTop(cands, sc, tied[tiePick % |tied|]);
  }
}
