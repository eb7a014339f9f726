/**
 * The bot's heuristic evaluator (tetris_bot.py, `evaluate_position`): seven
 * integer metrics of a post-clear grid and their weighted sum. Each metric
 * has a specification function here and a loop in `EvaluatePosition` proved
 * to compute it.
 */
module BotEval {
  import opened Grid
  import opened BotConfig

  datatype Metrics = Metrics(
    maxHeight: int, holes: int, bumpiness: int, completeLines: int,
    edgeTouch: int, wellDepth: int, overhang: int)

  /** The weighted linear sum that `evaluate_position` returns. */
  function Score(w: Weights, m: Metrics): real {
    w.height * m.maxHeight as real
    + w.holes * m.holes as real
    + w.bumpiness * m.bumpiness as real
    + w.completeLines * m.completeLines as real
    + w.edgeTouch * m.edgeTouch as real
    + w.wellDepth * m.wellDepth as real
    + w.overhang * m.overhang as real
  }

  /** With the other metrics fixed, more holes always give a lower score, in every tier. */
  lemma MoreHolesScoreLower(d: Difficulty, m: Metrics, extra: int)
    requires extra > 0
    ensures Score(WeightsFor(d), m.(holes := m.holes + extra)) < Score(WeightsFor(d), m)
  {
    var w := WeightsFor(d);
    assert w.holes * (m.holes + extra) as real == w.holes * m.holes as real + w.holes * extra as real;
    assert w.holes * extra as real < 0.0;
  }

  // ---------------------------------------------------------------------
  // Column heights.

  /** The first row at or below y whose cell in column x is occupied (Rows if none). */
  function TopRow(g: Cells, x: int, y: int): (t: int)
    requires WellFormed(g) && 0 <= x < Cols && 0 <= y <= Rows
    ensures y <= t <= Rows
    ensures forall k | y <= k < t :: g[k][x] == 0
    ensures t < Rows ==> g[t][x] != 0
    decreases Rows - y
  {
    if y == Rows then Rows else if g[y][x] != 0 then y else TopRow(g, x, y + 1)
  }

  /** 20 minus the index of the topmost block of column x, or 0 for an empty column. */
  function ColumnHeight(g: Cells, x: int): (h: int)
    requires WellFormed(g) && 0 <= x < Cols
    ensures 0 <= h <= Rows
  {
    Rows - TopRow(g, x, 0)
  }

  /** A column's height is 20 minus the index of its topmost block, 0 when it has none. */
  lemma ColumnHeightTop(g: Cells, x: int)
    requires WellFormed(g) && 0 <= x < Cols
    ensures var h := ColumnHeight(g, x);
      && (h == 0 <==> forall k | 0 <= k < Rows :: g[k][x] == 0)
      && (h > 0 ==> g[Rows - h][x] != 0 && forall k | 0 <= k < Rows - h :: g[k][x] == 0)
  {
  }

  function Heights(g: Cells): (hs: seq<int>)
    requires WellFormed(g)
    ensures |hs| == Cols
  {
    seq(Cols, x requires 0 <= x < Cols => ColumnHeight(g, x))
  }

  /** Python's `max` of a non-empty list. */
  function MaxOf(s: seq<int>): (m: int)
    requires |s| > 0
  {
    if |s| == 1 then s[0]
    else var m := MaxOf(s[..|s| - 1]); if s[|s| - 1] > m then s[|s| - 1] else m
  }

  lemma {:induction false} MaxOfIsMax(s: seq<int>)
    requires |s| > 0
    ensures MaxOf(s) in s && forall k | 0 <= k < |s| :: s[k] <= MaxOf(s)
  {
    if |s| > 1 {
      var p := s[..|s| - 1];
      MaxOfIsMax(p);
      assert forall k | 0 <= k < |p| :: s[k] == p[k];
    }
  }

  // ---------------------------------------------------------------------
  // Holes: empty cells below the topmost block of their column.

  predicate IsHole(g: Cells, x: int, y: int)
    requires WellFormed(g) && 0 <= x < Cols && 0 <= y < Rows
  {
    g[y][x] == 0 && TopRow(g, x, 0) < y
  }

  /** Holes among the first n rows of column x. */
  function ColumnHoles(g: Cells, x: int, n: int): (k: int)
    requires WellFormed(g) && 0 <= x < Cols && 0 <= n <= Rows
    ensures 0 <= k <= n
  {
    if n == 0 then 0 else ColumnHoles(g, x, n - 1) + (if IsHole(g, x, n - 1) then 1 else 0)
  }

  /** Holes in the first m columns. */
  function HolesUpTo(g: Cells, m: int): (k: int)
    requires WellFormed(g) && 0 <= m <= Cols
    ensures 0 <= k <= m * Rows
  {
    if m == 0 then 0 else HolesUpTo(g, m - 1) + ColumnHoles(g, m - 1, Rows)
  }

  // ---------------------------------------------------------------------
  // Bumpiness, edge contact, wells and overhangs.

  /** Sum of |hs[x] - hs[x + 1]| over the first m adjacent pairs. */
  function BumpUpTo(hs: seq<int>, m: int): (b: int)
    requires 0 <= m < |hs|
    requires forall x | 0 <= x < |hs| :: 0 <= hs[x] <= Rows
    ensures 0 <= b <= m * Rows
  {
    if m == 0 then 0
    else BumpUpTo(hs, m - 1) + (if hs[m - 1] >= hs[m] then hs[m - 1] - hs[m] else hs[m] - hs[m - 1])
  }

  /** Occupied cells of the two border columns among the first n rows. */
  function EdgeUpTo(g: Cells, n: int): (e: int)
    requires WellFormed(g) && 0 <= n <= Rows
    ensures 0 <= e <= 2 * n
  {
    if n == 0 then 0
    else EdgeUpTo(g, n - 1) + (if g[n - 1][0] != 0 then 1 else 0) + (if g[n - 1][Cols - 1] != 0 then 1 else 0)
  }

  /**
   * The well depth of column x: the grid walls count as height 20; a column
   * lower than both neighbours by more than one adds the gap to the lower
   * neighbour.
   */
  function WellAt(hs: seq<int>, x: int): (d: int)
    requires |hs| == Cols && 0 <= x < Cols
    requires forall k | 0 <= k < Cols :: 0 <= hs[k] <= Rows
    ensures 0 <= d <= Rows
    ensures d > 0 <==> hs[x] < (if x == 0 then Rows else hs[x - 1]) - 1 && hs[x] < (if x == Cols - 1 then Rows else hs[x + 1]) - 1
  {
    var left := if x == 0 then Rows else hs[x - 1];
    var right := if x == Cols - 1 then Rows else hs[x + 1];
    if hs[x] < left - 1 && hs[x] < right - 1 then (if left < right then left else right) - hs[x] else 0
  }

  function WellUpTo(hs: seq<int>, m: int): (d: int)
    requires |hs| == Cols && 0 <= m <= Cols
    requires forall k | 0 <= k < Cols :: 0 <= hs[k] <= Rows
    ensures 0 <= d <= m * Rows
  {
    if m == 0 then 0 else WellUpTo(hs, m - 1) + WellAt(hs, m - 1)
  }

  /** An empty cell with an empty cell below and blocks on both sides. */
  predicate IsOverhang(g: Cells, y: int, x: int)
    requires WellFormed(g) && 0 <= y < Rows - 1 && 1 <= x < Cols - 1
  {
    g[y][x] == 0 && g[y + 1][x] == 0 && g[y][x - 1] != 0 && g[y][x + 1] != 0
  }

  /** Overhangs in row y among columns 1 .. m - 1. */
  function OverhangRow(g: Cells, y: int, m: int): (k: int)
    requires WellFormed(g) && 0 <= y < Rows - 1 && 1 <= m <= Cols - 1
    ensures 0 <= k <= m - 1
  {
    if m == 1 then 0 else OverhangRow(g, y, m - 1) + (if IsOverhang(g, y, m - 1) then 1 else 0)
  }

  /** Overhangs in the first n rows (the bottom row and the border columns never count). */
  function OverhangUpTo(g: Cells, n: int): (k: int)
    requires WellFormed(g) && 0 <= n <= Rows - 1
    ensures 0 <= k <= n * (Cols - 2)
  {
    if n == 0 then 0 else OverhangUpTo(g, n - 1) + OverhangRow(g, n - 1, Cols - 1)
  }

  /** The seven metrics of a post-clear grid and the number of rows cleared. */
  function MetricsOf(g: Cells, lines: int): (m: Metrics)
    requires WellFormed(g)
  {
    var hs := Heights(g);
    Metrics(MaxOf(hs), HolesUpTo(g, Cols), BumpUpTo(hs, Cols - 1), lines,
            EdgeUpTo(g, Rows), WellUpTo(hs, Cols), OverhangUpTo(g, Rows - 1))
  }

  function Evaluate(w: Weights, g: Cells, lines: int): real
    requires WellFormed(g)
  {
    Score(w, MetricsOf(g, lines))
  }

  /** Every metric stays within the bounds the 20 x 10 grid allows. */
  lemma MetricsBounds(g: Cells, lines: int)
    requires WellFormed(g)
    ensures var m := MetricsOf(g, lines);
      && 0 <= m.maxHeight <= Rows
      && (m.maxHeight == 0 <==> g == EmptyGrid())
      && 0 <= m.holes <= Cols * Rows
      && 0 <= m.bumpiness <= (Cols - 1) * Rows
      && 0 <= m.edgeTouch <= 2 * Rows
      && 0 <= m.wellDepth <= Cols * Rows
      && 0 <= m.overhang <= (Rows - 1) * (Cols - 2)
      && m.completeLines == lines
  {
    MaxOfIsMax(Heights(g));
    MaxHeightZero(g);
    EmptyGridIff(g);
  }

  /** The tallest column has height 0 exactly when no cell is occupied. */
  lemma MaxHeightZero(g: Cells)
    requires WellFormed(g)
    ensures MaxOf(Heights(g)) == 0 <==> forall y, x | 0 <= y < Rows && 0 <= x < Cols :: g[y][x] == 0
  {
    var hs := Heights(g);
    MaxOfIsMax(hs);
    if MaxOf(hs) == 0 {
      forall y, x | 0 <= y < Rows && 0 <= x < Cols
        ensures g[y][x] == 0
      {
        assert hs[x] <= 0;
        ColumnHeightTop(g, x);
      }
    } else {
      var x :| 0 <= x < Cols && hs[x] == MaxOf(hs);
      ColumnHeightTop(g, x);
      assert g[Rows - hs[x]][x] != 0;
    }
  }

  // ---------------------------------------------------------------------
  // The evaluator itself, loop for loop.

  /** `evaluate_position`: the seven metrics, each computed by its own loop, and their weighted sum. */
  method EvaluatePosition(w: Weights, g: Cells, lines: int) returns (score: real)
    requires WellFormed(g)
    ensures score == Evaluate(w, g, lines)
  {
    var heights := ColumnHeights(g);
    var maxHeight := MaxOf(heights);
    var holes := CountHoles(g);
    var bumpiness := Bumpiness(heights);
    var edgeTouch := EdgeTouch(g);
    var wellDepth := WellDepth(heights);
    var overhang := Overhangs(g);
    score := Score(w, Metrics(maxHeight, holes, bumpiness, lines, edgeTouch, wellDepth, overhang));
  }

  /** The column-height scan: the first occupied row from the top of each column. */
  method ColumnHeights(g: Cells) returns (heights: seq<int>)
    requires WellFormed(g)
    ensures heights == Heights(g)
  {
    heights := seq(Cols, _ => 0);
    for x := 0 to Cols
      invariant |heights| == Cols
      invariant forall k | 0 <= k < x :: heights[k] == ColumnHeight(g, k)
    {
      var y := 0;
      while y < Rows && g[y][x] == 0
        invariant 0 <= y <= Rows
        invariant forall k | 0 <= k < y :: g[k][x] == 0
      {
        y := y + 1;
      }
      if y < Rows {
        heights := heights[x := Rows - y];
      } else {
        heights := heights[x := 0];
      }
    }
  }

  /** The hole scan: a cell counts once a block has been seen above it in its column. */
  method CountHoles(g: Cells) returns (holes: int)
    requires WellFormed(g)
    ensures holes == HolesUpTo(g, Cols)
  {
    holes := 0;
    for x := 0 to Cols
      invariant holes == HolesUpTo(g, x)
    {
      var blockFound := false;
      for y := 0 to Rows
        invariant blockFound == (TopRow(g, x, 0) < y)
        invariant holes == HolesUpTo(g, x) + ColumnHoles(g, x, y)
      {
        if g[y][x] != 0 {
          blockFound := true;
        } else if blockFound && g[y][x] == 0 {
          holes := holes + 1;
        }
      }
    }
  }

  method Bumpiness(heights: seq<int>) returns (bumpiness: int)
    requires |heights| == Cols && forall k | 0 <= k < Cols :: 0 <= heights[k] <= Rows
    ensures bumpiness == BumpUpTo(heights, Cols - 1)
  {
    bumpiness := 0;
    for x := 0 to Cols - 1
      invariant bumpiness == BumpUpTo(heights, x)
    {
      bumpiness := bumpiness + Abs(heights[x] - heights[x + 1]);
    }
  }

  method EdgeTouch(g: Cells) returns (edgeTouch: int)
    requires WellFormed(g)
    ensures edgeTouch == EdgeUpTo(g, Rows)
  {
    edgeTouch := 0;
    for y := 0 to Rows
      invariant edgeTouch == EdgeUpTo(g, y)
    {
      if g[y][0] != 0 {
        edgeTouch := edgeTouch + 1;
      }
      if g[y][Cols - 1] != 0 {
        edgeTouch := edgeTouch + 1;
      }
    }
  }

  method WellDepth(heights: seq<int>) returns (wellDepth: int)
    requires |heights| == Cols && forall k | 0 <= k < Cols :: 0 <= heights[k] <= Rows
    ensures wellDepth == WellUpTo(heights, Cols)
  {
    wellDepth := 0;
    for x := 0 to Cols
      invariant wellDepth == WellUpTo(heights, x)
    {
      var leftHeight := if x == 0 then Rows else heights[x - 1];
      var rightHeight := if x == Cols - 1 then Rows else heights[x + 1];
      if heights[x] < leftHeight - 1 && heights[x] < rightHeight - 1 {
        wellDepth := wellDepth + (if leftHeight < rightHeight then leftHeight else rightHeight) - heights[x];
      }
    }
  }

  method Overhangs(g: Cells) returns (overhang: int)
    requires WellFormed(g)
    ensures overhang == OverhangUpTo(g, Rows - 1)
  {
    overhang := 0;
    for y := 0 to Rows - 1
      invariant overhang == OverhangUpTo(g, y)
    {
      for x := 1 to Cols - 1
        invariant overhang == OverhangUpTo(g, y) + OverhangRow(g, y, x)
      {
        if g[y][x] == 0 && g[y + 1][x] == 0 {
          if g[y][x - 1] != 0 && g[y][x + 1] != 0 {
            overhang := overhang + 1;
          }
        }
      }
    }
  }

  function Abs(n: int): (a: int)
    ensures a >= 0 && (a == n || a == -n)
  {
    if n >= 0 then n else -n
  }
}
