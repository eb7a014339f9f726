/**
 * The multiplayer client's own game: tetrominoes kept as plain matrices
 * that turn by a quarter, a player grid that the piece is locked into,
 * full rows removed the way the client removes them, junk rows pushed in
 * from the bottom when an opponent clears lines, and the messages the
 * game hands to the network layer.
 */
module Client {
  import opened Grid
  import opened Matrix

  /** The seven shapes of the client, in its order I, O, T, L, J, S, Z. */
  const Shapes: seq<Shape> := [
    [[1, 1, 1, 1]],
    [[1, 1], [1, 1]],
    [[1, 1, 1], [0, 1, 0]],
    [[1, 1, 1], [1, 0, 0]],
    [[1, 1, 1], [0, 0, 1]],
    [[1, 1, 0], [0, 1, 1]],
    [[0, 1, 1], [1, 1, 0]]
  ]

  /** New pieces appear at column GRID_WIDTH // 2 - 1 of the top row. */
  const SpawnX: int := Cols / 2 - 1
  const SpawnY: int := 0

  /** The cell value of the gray blocks in a junk row. */
  const Junk: int := 8

  /** Every shape is a matrix with a block, at most four cells wide. */
  lemma ShapeFacts(i: int)
    requires 0 <= i < 7
    ensures |Shapes| == 7
    ensures IsMatrix(Shapes[i]) && HasBlock(Shapes[i]) && |Shapes[i]| <= 2 && |Shapes[i][0]| <= 4
  {
    var s := Shapes[i];
    assert s[0][1] != 0;
  }

  /** Every block of `s`, anchored at column x, lies inside the board's columns. */
  ghost predicate ColumnsFit(s: Shape, x: int) {
    forall r, c | 0 <= r < |s| && 0 <= c < |s[r]| && s[r][c] != 0 :: 0 <= x + c < Cols
  }

  /** A piece that does not collide lies inside the board's columns. */
  lemma FreeFits(g: Cells, s: Shape, x: int, y: int)
    requires WellFormed(g) && !Collides(g, s, x, y)
    ensures ColumnsFit(s, x)
  {
    forall r, c | 0 <= r < |s| && 0 <= c < |s[r]| && s[r][c] != 0
      ensures 0 <= x + c < Cols
    {
      FreeBlock(g, s, x, y, r, c);
    }
  }

  /** A freshly spawned piece lies inside the board's columns. */
  lemma SpawnFits(i: int)
    requires 0 <= i < 7
    ensures ColumnsFit(Shapes[i], SpawnX)
  {
    ShapeFacts(i);
  }

  /** A freshly spawned piece fits the columns and collides with nothing on an empty board. */
  lemma SpawnOnEmptyBoard(i: int)
    requires 0 <= i < 7
    ensures ColumnsFit(Shapes[i], SpawnX) && !Collides(EmptyGrid(), Shapes[i], SpawnX, SpawnY)
  {
    ShapeFacts(i);
    SpawnFits(i);
    EmptyBoardFree(Shapes[i], SpawnX, SpawnY);
  }

  /** A piece inside the columns and entirely above the board collides with nothing. */
  lemma AboveBoardFree(g: Cells, s: Shape, x: int, y: int)
    requires WellFormed(g) && ColumnsFit(s, x)
    ensures y + |s| <= 0 ==> !Collides(g, s, x, y)
  {
    CollidesIff(g, s, x, y);
    if y + |s| <= 0 {
      forall r, c | 0 <= r < |s| && 0 <= c < |s[r]| && s[r][c] != 0
        ensures !Blocks(g, x + c, y + r)
      {
      }
    }
  }

  /** A piece inside the columns and entirely on the board collides with nothing on an empty board. */
  lemma EmptyBoardFree(s: Shape, x: int, y: int)
    requires ColumnsFit(s, x) && 0 <= y && y + |s| <= Rows
    ensures !Collides(EmptyGrid(), s, x, y)
  {
    var g := EmptyGrid();
    CollidesIff(g, s, x, y);
    forall r, c | 0 <= r < |s| && 0 <= c < |s[r]| && s[r][c] != 0
      ensures !Blocks(g, x + c, y + r)
    {
      assert g[y + r][x + c] == 0;
    }
  }

  /**
   * The row a piece that collides rises to when it is pushed up one row at
   * a time: the lowest row at or above y where it collides with nothing.
   */
  function RaisedY(g: Cells, s: Shape, x: int, y: int): (top: int)
    requires WellFormed(g) && ColumnsFit(s, x)
    ensures top <= y && !Collides(g, s, x, top)
    ensures forall k | top < k <= y :: Collides(g, s, x, k)
    decreases y + |s|
  {
    AboveBoardFree(g, s, x, y);
    if !Collides(g, s, x, y) then y else RaisedY(g, s, x, y - 1)
  }

  /** The landing row of a piece with a block that falls from a free position. */
  function RestingY(g: Cells, s: Shape, x: int, y: int): int
    requires WellFormed(g) && HasBlock(s) && !Collides(g, s, x, y)
  {
    FloorCollidesIf(g, s, x, y);
    DropY(g, s, x, y)
  }

  // ---------------------------------------------------------------------
  // Positions.

  /** The grid positions of the first n cells of `row` that hold a block, placed at (x, y). */
  function RowPositions(row: seq<int>, x: int, y: int, n: nat): seq<(int, int)>
    requires n <= |row|
  {
    if n == 0 then []
    else RowPositions(row, x, y, n - 1) + (if row[n - 1] != 0 then [(x + n - 1, y)] else [])
  }

  /** The grid positions of the blocks of the first n rows of `s`, in row-major order. */
  function ShapePositions(s: Shape, x: int, y: int, n: nat): seq<(int, int)>
    requires n <= |s|
  {
    if n == 0 then []
    else ShapePositions(s, x, y, n - 1) + RowPositions(s[n - 1], x, y + n - 1, |s[n - 1]|)
  }

  /** One (x + c, y + r) per block of `s`, row by row and left to right. */
  function Positions(s: Shape, x: int, y: int): seq<(int, int)> {
    ShapePositions(s, x, y, |s|)
  }

  lemma {:induction false} RowPositionsIff(row: seq<int>, x: int, y: int, n: nat, p: (int, int))
    requires n <= |row|
    ensures p in RowPositions(row, x, y, n) <==> p.1 == y && 0 <= p.0 - x < n && row[p.0 - x] != 0
  {
    if n > 0 {
      RowPositionsIff(row, x, y, n - 1, p);
    }
  }

  lemma {:induction false} ShapePositionsIff(s: Shape, x: int, y: int, n: nat, p: (int, int))
    requires n <= |s|
    ensures p in ShapePositions(s, x, y, n) <==> 0 <= p.1 - y < n && Occupied(s, p.1 - y, p.0 - x)
  {
    if n > 0 {
      ShapePositionsIff(s, x, y, n - 1, p);
      RowPositionsIff(s[n - 1], x, y + n - 1, |s[n - 1]|, p);
    }
  }

  /** A position is listed exactly when it lies under a block of the piece. */
  lemma PositionsIff(s: Shape, x: int, y: int, p: (int, int))
    ensures p in Positions(s, x, y) <==> Occupied(s, p.1 - y, p.0 - x)
  {
    ShapePositionsIff(s, x, y, |s|, p);
  }

  // ---------------------------------------------------------------------
  // Removing full rows, as the client does it.

  /** The indices below n of the full rows of `g`, in increasing order. */
  function FullIndices(g: Cells, n: nat): (ix: seq<int>)
    requires n <= |g|
    ensures forall k | 0 <= k < |ix| :: 0 <= ix[k] < n
  {
    if n == 0 then [] else FullIndices(g, n - 1) + (if IsFull(g[n - 1]) then [n - 1] else [])
  }

  lemma {:induction false} FullIndicesIff(g: Cells, n: nat, i: int)
    requires n <= |g|
    ensures i in FullIndices(g, n) <==> 0 <= i < n && IsFull(g[i])
  {
    if n > 0 {
      FullIndicesIff(g, n - 1, i);
    }
  }

  lemma {:induction false} FullIndicesCount(g: Cells, n: nat)
    requires n <= |g|
    ensures |FullIndices(g, n)| == CountFull(g[..n])
  {
    if n > 0 {
      FullIndicesCount(g, n - 1);
      assert g[..n][..n - 1] == g[..n - 1];
    }
  }

  /** `pop(i)` followed by `insert(0, empty row)`. */
  function PopInsert(g: Cells, i: int): (h: Cells)
    requires 0 <= i < |g|
    ensures |h| == |g|
  {
    [EmptyRow()] + g[..i] + g[i + 1..]
  }

  /** Apply `PopInsert` for each index of `lines`, from the last one to the first. */
  function PopInsertAll(g: Cells, lines: seq<int>): (h: Cells)
    requires forall k | 0 <= k < |lines| :: 0 <= lines[k] < |g|
    ensures |h| == |g|
    decreases |lines|
  {
    if lines == [] then g
    else PopInsertAll(PopInsert(g, lines[|lines| - 1]), lines[..|lines| - 1])
  }

  /** Splitting off the last index handled: the one handled first. */
  lemma PopInsertAllLast(g: Cells, lines: seq<int>, k: int)
    requires 0 <= k < |lines| && forall j | 0 <= j < |lines| :: 0 <= lines[j] < |g|
    ensures PopInsertAll(g, lines[..k + 1]) == PopInsertAll(PopInsert(g, lines[k]), lines[..k])
  {
    assert lines[..k + 1][..k] == lines[..k];
  }

  /** The grid the client's `clear_lines` leaves behind. */
  function ClientCleared(g: Cells): (h: Cells)
    requires WellFormed(g)
    ensures |h| == Rows
  {
    PopInsertAll(g, FullIndices(g, Rows))
  }

  lemma PopInsertWellFormed(g: Cells, i: int)
    requires WellFormed(g) && 0 <= i < Rows
    ensures WellFormed(PopInsert(g, i))
  {
    var h := PopInsert(g, i);
    forall k | 0 <= k < Rows
      ensures |h[k]| == Cols
    {
      if k == 0 {
      } else if k <= i {
        assert h[k] == g[k - 1];
      } else {
        assert h[k] == g[k];
      }
    }
  }

  lemma {:induction false} PopInsertAllWellFormed(g: Cells, lines: seq<int>)
    requires WellFormed(g) && forall k | 0 <= k < |lines| :: 0 <= lines[k] < Rows
    ensures WellFormed(PopInsertAll(g, lines))
    decreases |lines|
  {
    if lines != [] {
      PopInsertWellFormed(g, lines[|lines| - 1]);
      PopInsertAllWellFormed(PopInsert(g, lines[|lines| - 1]), lines[..|lines| - 1]);
    }
  }

  /** With no full row, `clear_lines` changes nothing. */
  lemma NoFullRowUnchanged(g: Cells)
    requires WellFormed(g) && CountFull(g) == 0
    ensures ClientCleared(g) == g
  {
    FullIndicesCount(g, Rows);
    assert g[..Rows] == g;
  }

  /** A full row between two runs of non-full rows is the only row compaction drops. */
  lemma NonFullSplice(a: seq<Row>, x: Row, b: seq<Row>)
    requires IsFull(x) && NonFull(a) == a && NonFull(b) == b
    ensures NonFull(a + [x] + b) == a + b
  {
    var ax := a + [x];
    NonFullAppend(a, [x]);
    NonFullSingle(x);
    assert NonFull(ax) == a by {
      assert NonFull(a) + [] == a;
    }
    NonFullAppend(ax, b);
  }

  /** The rows above and below the only full row are left as they are by compaction. */
  lemma OthersKept(g: Cells, i: int)
    requires 0 <= i < |g|
    requires forall k | 0 <= k < |g| && k != i :: !IsFull(g[k])
    ensures NonFull(g[..i]) == g[..i] && NonFull(g[i + 1..]) == g[i + 1..]
  {
    var a, b := g[..i], g[i + 1..];
    forall k | 0 <= k < |a|
      ensures !IsFull(a[k])
    {
      assert a[k] == g[k];
    }
    forall k | 0 <= k < |b|
      ensures !IsFull(b[k])
    {
      assert b[k] == g[i + 1 + k];
    }
    NoFullRowsKept(a);
    NoFullRowsKept(b);
  }

  /** Dropping the only full row of `g` is what removing all its full rows does. */
  lemma NonFullWithout(g: Cells, i: int)
    requires 0 <= i < |g| && IsFull(g[i])
    requires forall k | 0 <= k < |g| && k != i :: !IsFull(g[k])
    ensures NonFull(g) == g[..i] + g[i + 1..]
  {
    var a, b := g[..i], g[i + 1..];
    OthersKept(g, i);
    assert g == a + [g[i]] + b;
    NonFullSplice(a, g[i], b);
  }

  /** With exactly one full row, `clear_lines` removes it the way full compaction does. */
  lemma OneFullRowCompacts(g: Cells)
    requires WellFormed(g) && CountFull(g) == 1
    ensures ClientCleared(g) == Compacted(g)
  {
    FullIndicesCount(g, Rows);
    assert g[..Rows] == g;
    var ix := FullIndices(g, Rows);
    var i := ix[0];
    FullIndicesIff(g, Rows, i);
    assert ix == [i] && ix[..0] == [];
    assert PopInsertAll(g, ix) == PopInsertAll(PopInsert(g, i), []);
    forall k | 0 <= k < Rows && k != i
      ensures !IsFull(g[k])
    {
      FullIndicesIff(g, Rows, k);
    }
    NonFullWithout(g, i);
    assert EmptyRows(1) == [EmptyRow()];
  }

  /** `PopInsert` at an index above row 19 leaves row 19 where it was. */
  lemma PopInsertKeepsBottom(g: Cells, i: int)
    requires |g| == Rows && 0 <= i < Rows - 1
    ensures PopInsert(g, i)[Rows - 1] == g[Rows - 1]
  {
  }

  lemma {:induction false} PopInsertAllKeepsBottom(g: Cells, lines: seq<int>)
    requires |g| == Rows && forall k | 0 <= k < |lines| :: 0 <= lines[k] < Rows - 1
    ensures PopInsertAll(g, lines)[Rows - 1] == g[Rows - 1]
    decreases |lines|
  {
    if lines != [] {
      PopInsertKeepsBottom(g, lines[|lines| - 1]);
      PopInsertAllKeepsBottom(PopInsert(g, lines[|lines| - 1]), lines[..|lines| - 1]);
    }
  }

  /**
   * When the two bottom rows are both full, `clear_lines` reports two rows
   * but leaves a full row at the bottom: after row 19 is popped, row 18 has
   * moved to index 19, and the second pop removes the row above it.
   */
  lemma BottomPairLeavesFullRow(g: Cells)
    requires WellFormed(g) && IsFull(g[Rows - 2]) && IsFull(g[Rows - 1])
    ensures CountFull(g) >= 2
    ensures IsFull(ClientCleared(g)[Rows - 1])
    ensures ClientCleared(g) != Compacted(g)
  {
    var ix := FullIndices(g, Rows);
    var rest := FullIndices(g, Rows - 2);
    assert FullIndices(g, Rows - 1) == rest + [Rows - 2];
    assert ix == rest + [Rows - 2] + [Rows - 1];
    FullIndicesCount(g, Rows);
    assert g[..Rows] == g;
    var g1 := PopInsert(g, Rows - 1);
    assert g1[Rows - 1] == g[Rows - 2];
    var g2 := PopInsert(g1, Rows - 2);
    assert g2[Rows - 1] == g[Rows - 2];
    assert ix[..|ix| - 1] == rest + [Rows - 2];
    assert ClientCleared(g) == PopInsertAll(g1, rest + [Rows - 2]);
    assert (rest + [Rows - 2])[..|rest|] == rest;
    assert PopInsertAll(g1, rest + [Rows - 2]) == PopInsertAll(g2, rest);
    PopInsertAllKeepsBottom(g2, rest);
    CompactedShape(g);
  }

  // ---------------------------------------------------------------------
  // Junk rows.

  /** A junk row: gray blocks everywhere except the gap column. */
  function JunkRow(gap: int): (row: Row)
    ensures |row| == Cols
  {
    seq(Cols, j => if j == gap then 0 else Junk)
  }

  function JunkRows(gaps: seq<int>): (rows: seq<Row>)
    ensures |rows| == |gaps|
  {
    seq(|gaps|, k requires 0 <= k < |gaps| => JunkRow(gaps[k]))
  }

  /** The rows after one junk row per gap is pushed in at the bottom and as many top rows are dropped. */
  function JunkPushed(g: Cells, gaps: seq<int>): (h: Cells)
    requires |g| > 0
    ensures |h| == |g|
  {
    (g + JunkRows(gaps))[|gaps|..]
  }

  /** A junk row with its gap on the board holds one hole and can never be a full row. */
  lemma JunkRowNotFull(gap: int)
    requires 0 <= gap < Cols
    ensures !IsFull(JunkRow(gap)) && JunkRow(gap)[gap] == 0
    ensures forall j | 0 <= j < Cols && j != gap :: JunkRow(gap)[j] == Junk
  {
    assert JunkRow(gap)[gap] == 0;
  }

  /**
   * Pushing n <= 20 junk rows moves the old rows up by n, dropping the top n,
   * and the bottom n rows are the junk rows in the order they came in.
   */
  lemma JunkPushedRows(g: Cells, gaps: seq<int>)
    requires WellFormed(g) && |gaps| <= Rows
    ensures var h := JunkPushed(g, gaps);
      WellFormed(h) &&
      (forall k | 0 <= k < Rows - |gaps| :: h[k] == g[k + |gaps|]) &&
      (forall k | Rows - |gaps| <= k < Rows :: h[k] == JunkRow(gaps[k - (Rows - |gaps|)]))
  {
  }

  /** Pushing junk rows keeps the 20 x 10 format, however many rows are pushed. */
  lemma JunkPushedWellFormed(g: Cells, gaps: seq<int>)
    requires WellFormed(g)
    ensures WellFormed(JunkPushed(g, gaps))
  {
    var all := g + JunkRows(gaps);
    var h := JunkPushed(g, gaps);
    forall k | 0 <= k < Rows
      ensures |h[k]| == Cols
    {
      assert h[k] == all[k + |gaps|];
    }
  }

  /** One more junk row: drop the top row of the previous result and append the new row. */
  lemma JunkPushedStep(g: Cells, gaps: seq<int>, i: int)
    requires |g| > 0 && 0 <= i < |gaps|
    ensures JunkPushed(g, gaps[..i + 1]) == JunkPushed(g, gaps[..i])[1..] + [JunkRow(gaps[i])]
  {
    var a := JunkPushed(g, gaps[..i + 1]);
    var b := JunkPushed(g, gaps[..i])[1..] + [JunkRow(gaps[i])];
    assert JunkRows(gaps[..i + 1]) == JunkRows(gaps[..i]) + [JunkRow(gaps[i])];
    assert |a| == |b|;
    forall k | 0 <= k < |a|
      ensures a[k] == b[k]
    {
    }
  }

  /** A junk row built cell by cell: 8 everywhere except the gap. */
  method JunkLine(gap: int) returns (line: Row)
    ensures line == JunkRow(gap)
  {
    line := seq(Cols, _ => 0);
    for j := 0 to Cols
      invariant |line| == Cols
      invariant forall k | 0 <= k < Cols :: line[k] == if k < j && k != gap then Junk else 0
    {
      if j != gap {
        line := line[j := Junk];
      }
    }
    assert forall k | 0 <= k < Cols :: line[k] == JunkRow(gap)[k];
  }

  // ---------------------------------------------------------------------
  // Score and level.

  /** Points for n rows cleared at once at a given level: n * n * 100 * level. */
  function ClearPoints(n: int, level: int): int {
    n * n * 100 * level
  }

  /** Rows cleared together are worth at least as much as the same rows cleared one at a time. */
  lemma ClearPointsTogether(n: int, level: int)
    requires n >= 1 && level >= 1
    ensures ClearPoints(n, level) >= n * ClearPoints(1, level)
    ensures n >= 2 ==> ClearPoints(n, level) > n * ClearPoints(1, level)
  {
    var u := 100 * level;
    assert ClearPoints(n, level) == n * (n * u);
    assert n * ClearPoints(1, level) == n * u;
    assert n * u <= n * (n * u) by {
      assert n * (n * u) - n * u == n * ((n - 1) * u);
    }
    if n >= 2 {
      assert n * ((n - 1) * u) > 0;
    }
  }

  /** The level after `total` cleared rows: max(1, total // 10 + 1), never capped. */
  function ClientLevel(total: int): int {
    if total / 10 + 1 < 1 then 1 else total / 10 + 1
  }

  /** The level starts at 1, never drops as rows are cleared, and rises by one every ten rows. */
  lemma ClientLevelGrows(a: int, b: int)
    requires 0 <= a <= b
    ensures ClientLevel(0) == 1 && 1 <= ClientLevel(a) <= ClientLevel(b)
    ensures ClientLevel(a + 10) == ClientLevel(a) + 1
  {
  }

  // ---------------------------------------------------------------------
  // Pieces.

  /** A falling piece: its shape index, its current matrix and its anchor. */
  class Tetromino {
    const shapeIdx: int
    var shape: Shape
    var x: int
    var y: int

    ghost predicate Valid()
      reads this
    {
      0 <= shapeIdx < 7 && IsMatrix(shape) && HasBlock(shape)
    }

    /** `Tetromino(x, y, shape_idx)`, with the index that would otherwise be drawn at random as a parameter. */
    constructor(x0: int, y0: int, idx: int)
      requires 0 <= idx < 7
      ensures Valid() && shapeIdx == idx && shape == Shapes[idx] && x == x0 && y == y0
    {
      ShapeFacts(idx);
      shapeIdx := idx;
      shape := Shapes[idx];
      x := x0;
      y := y0;
    }

    /** `rotate`: a new matrix, the clockwise quarter-turn of the shape; the piece itself is left alone. */
    method Rotate() returns (rotated: Shape)
      requires Valid()
      ensures rotated == Rotated(shape)
    {
      var rows, cols := |shape|, |shape[0]|;
      rotated := seq(cols, _ => seq(rows, _ => 0));
      for r := 0 to rows
        invariant |rotated| == cols && forall c | 0 <= c < cols :: |rotated[c]| == rows
        invariant forall c, k | 0 <= c < cols && 0 <= k < rows ::
          rotated[c][k] == if rows - 1 - k < r then shape[rows - 1 - k][c] else 0
      {
        for c := 0 to cols
          invariant |rotated| == cols && forall c' | 0 <= c' < cols :: |rotated[c']| == rows
          invariant forall c', k | 0 <= c' < cols && 0 <= k < rows ::
            rotated[c'][k] == if Before(rows - 1 - k, c', r, c) then shape[rows - 1 - k][c'] else 0
        {
          rotated := rotated[c := rotated[c][rows - 1 - r := shape[r][c]]];
        }
      }
      RotatedCells(shape);
      assert forall c | 0 <= c < cols :: rotated[c] == Rotated(shape)[c];
    }

    /** `get_positions`: the grid position of every block, row by row, left to right. */
    method GetPositions() returns (positions: seq<(int, int)>)
      ensures positions == Positions(shape, x, y)
    {
      positions := [];
      for r := 0 to |shape|
        invariant positions == ShapePositions(shape, x, y, r)
      {
        for c := 0 to |shape[r]|
          invariant positions == ShapePositions(shape, x, y, r) + RowPositions(shape[r], x, y + r, c)
        {
          if shape[r][c] != 0 {
            positions := positions + [(x + c, y + r)];
          }
        }
      }
    }
  }

  // ---------------------------------------------------------------------
  // The game.

  /** The game modes: alone, against a networked player, or against the local bot. */
  datatype Mode = Single | Multiplayer | BotMode

  /** The messages the game hands to the server connection. */
  datatype Outgoing = ClearLinesMsg(lines: int) | GameOverMsg(score: int) | ReadyForNewGameMsg

  /**
   * The game state of the client (drawing, timing and sockets aside). The
   * messages it sends are appended to `outbox`; `connected` is whether
   * the connection to the server was made, fixed at construction since
   * connecting and disconnecting are not part of the model.
   */
  class TetrisGame {
    var playerGrid: Cells
    var opponentGrid: Cells
    var current: Tetromino
    var next: Tetromino
    var gameOver: bool
    var score: int
    var opponentScore: int
    var level: int
    var linesCleared: int
    const mode: Mode
    const connected: bool
    var outbox: seq<Outgoing>

    /**
     * The grid keeps its format, the two pieces are distinct, whole
     * matrices and stay inside the columns, the falling piece is free
     * while the game runs, and the level follows the rows cleared.
     */
    ghost predicate Valid()
      reads this, current, next
    {
      WellFormed(playerGrid) && current != next && current.Valid() && next.Valid() &&
      ColumnsFit(current.shape, current.x) && ColumnsFit(next.shape, next.x) &&
      (!gameOver ==> !Collides(playerGrid, current.shape, current.x, current.y)) &&
      0 <= linesCleared && level == ClientLevel(linesCleared) && 0 <= score
    }

    /** `TetrisGame.__init__`, with the two shape indices it draws as parameters. */
    constructor(m: Mode, isConnected: bool, idx1: int, idx2: int)
      requires 0 <= idx1 < 7 && 0 <= idx2 < 7
      ensures Valid() && fresh(current) && fresh(next)
      ensures playerGrid == EmptyGrid() && opponentGrid == EmptyGrid()
      ensures current.shapeIdx == idx1 && current.x == SpawnX && current.y == SpawnY
      ensures next.shapeIdx == idx2 && next.x == SpawnX && next.y == SpawnY
      ensures !gameOver && score == 0 && opponentScore == 0 && level == 1 && linesCleared == 0
      ensures mode == m && connected == isConnected && outbox == []
    {
      playerGrid := EmptyGrid();
      opponentGrid := EmptyGrid();
      current := new Tetromino(SpawnX, SpawnY, idx1);
      next := new Tetromino(SpawnX, SpawnY, idx2);
      gameOver := false;
      score := 0;
      opponentScore := 0;
      level := 1;
      linesCleared := 0;
      mode := m;
      connected := isConnected;
      outbox := [];
      new;
      SpawnOnEmptyBoard(idx1);
      SpawnFits(idx2);
    }

    /** `check_collision`: does some block of the falling piece sit on a blocking position? */
    method CheckCollision() returns (hit: bool)
      requires WellFormed(playerGrid)
      ensures hit == Collides(playerGrid, current.shape, current.x, current.y)
    {
      var positions := current.GetPositions();
      ghost var g, s, x, y := playerGrid, current.shape, current.x, current.y;
      CollidesIff(g, s, x, y);
      for i := 0 to |positions|
        invariant forall j | 0 <= j < i :: !Blocks(g, positions[j].0, positions[j].1)
      {
        var (px, py) := positions[i];
        if px < 0 || px >= Cols || py >= Rows || (py >= 0 && playerGrid[py][px] != 0) {
          PositionsIff(s, x, y, positions[i]);
          assert s[py - y][px - x] != 0 && Blocks(g, x + (px - x), y + (py - y));
          return true;
        }
      }
      forall r, c | 0 <= r < |s| && 0 <= c < |s[r]| && s[r][c] != 0
        ensures !Blocks(g, x + c, y + r)
      {
        PositionsIff(s, x, y, (x + c, y + r));
        var j :| 0 <= j < |positions| && positions[j] == (x + c, y + r);
      }
      return false;
    }

    /** `move_piece(dx, dy)`: shift the piece, and shift it back if it then collides. */
    method MovePiece(dx: int, dy: int) returns (moved: bool)
      requires Valid()
      modifies current`x, current`y
      ensures Valid() && current.shape == old(current.shape)
      ensures moved == !Collides(playerGrid, current.shape, old(current.x) + dx, old(current.y) + dy)
      ensures current.x == (if moved then old(current.x) + dx else old(current.x))
      ensures current.y == (if moved then old(current.y) + dy else old(current.y))
    {
      current.x := current.x + dx;
      current.y := current.y + dy;
      var hit := CheckCollision();
      if hit {
        current.x := current.x - dx;
        current.y := current.y - dy;
        return false;
      }
      FreeFits(playerGrid, current.shape, current.x, current.y);
      return true;
    }

    /** `rotate_piece`: turn the piece a quarter, and turn it back if it then collides. */
    method RotatePiece()
      requires Valid()
      modifies current`shape
      ensures Valid()
      ensures var t := Rotated(old(current.shape));
        current.shape == if Collides(playerGrid, t, current.x, current.y) then old(current.shape) else t
    {
      var original := current.shape;
      var turned := current.Rotate();
      current.shape := turned;
      var hit := CheckCollision();
      if hit {
        current.shape := original;
      } else {
        RotatedHasBlock(original);
        FreeFits(playerGrid, current.shape, current.x, current.y);
      }
    }

    /** `drop_piece`: move down while the move succeeds; the piece ends on its landing row. */
    method DropPiece()
      requires Valid() && !gameOver
      modifies current`x, current`y
      ensures Valid() && current.x == old(current.x)
      ensures current.y == RestingY(playerGrid, current.shape, current.x, old(current.y))
    {
      ghost var g, s, x, y0 := playerGrid, current.shape, current.x, current.y;
      FloorCollidesIf(g, s, x, y0);
      var moved := MovePiece(0, 1);
      if moved {
        DropStep(g, s, x, y0);
      }
      while moved
        invariant Valid() && current.x == x && current.shape == s
        invariant current.y < Rows && !Collides(g, s, x, current.y)
        invariant DropY(g, s, x, current.y) == DropY(g, s, x, y0)
        invariant !moved ==> Collides(g, s, x, current.y + 1)
        decreases Rows - current.y + (if moved then 1 else 0)
      {
        moved := MovePiece(0, 1);
        FloorCollidesIf(g, s, x, current.y);
        if moved {
          DropStep(g, s, x, current.y - 1);
        }
      }
    }
  
    /** The first loop of `clear_lines`: the indices of the full rows, top to bottom. */
    method FullRows() returns (lines: seq<int>)
      requires WellFormed(playerGrid)
      ensures lines == FullIndices(playerGrid, Rows)
    {
      lines := [];
      for i := 0 to |playerGrid|
        invariant lines == FullIndices(playerGrid, i)
      {
        if IsFull(playerGrid[i]) {
          lines := lines + [i];
        }
      }
    }

    /**
     * `clear_lines`: collect the indices of the full rows top to bottom,
     * then, from the last index to the first, pop that row and insert an
     * empty row at the top. Returns how many rows were full.
     */
    method ClearLines() returns (cleared: int)
      requires WellFormed(playerGrid)
      modifies this`playerGrid
      ensures WellFormed(playerGrid)
      ensures cleared == CountFull(old(playerGrid)) && playerGrid == ClientCleared(old(playerGrid))
    {
      ghost var g := playerGrid;
      var lines := FullRows();
      FullIndicesCount(g, Rows);
      assert g[..Rows] == g;
      var k := |lines|;
      assert lines[..k] == lines;
      while k > 0
        invariant 0 <= k <= |lines| && WellFormed(playerGrid)
        invariant PopInsertAll(playerGrid, lines[..k]) == ClientCleared(g)
      {
        k := k - 1;
        PopInsertAllLast(playerGrid, lines, k);
        PopRow(lines[k]);
      }
      cleared := |lines|;
    }

    /** `self.player_grid.pop(line)` followed by `self.player_grid.insert(0, [0] * 10)`. */
    method PopRow(line: int)
      requires WellFormed(playerGrid) && 0 <= line < Rows
      modifies this`playerGrid
      ensures WellFormed(playerGrid) && playerGrid == PopInsert(old(playerGrid), line)
    {
      PopInsertWellFormed(playerGrid, line);
      var rest := playerGrid[..line] + playerGrid[line + 1..];
      playerGrid := [EmptyRow()] + rest;
    }

    /** The first part of `lock_piece`: write shape_idx + 1 into every on-board cell under the piece. */
    method WritePiece()
      requires Valid() && !gameOver
      modifies this`playerGrid
      ensures playerGrid == Placed(old(playerGrid), current.shape, current.x, current.y, current.shapeIdx + 1)
    {
      ghost var g, s, x, y := playerGrid, current.shape, current.x, current.y;
      var v := current.shapeIdx + 1;
      var positions := current.GetPositions();
      for i := 0 to |positions|
        invariant WellFormed(playerGrid)
        invariant forall row, col | 0 <= row < Rows && 0 <= col < Cols ::
          playerGrid[row][col] == if (col, row) in positions[..i] then v else g[row][col]
      {
        var (px, py) := positions[i];
        assert positions[..i + 1] == positions[..i] + [(px, py)];
        if py >= 0 {
          PositionsIff(s, x, y, positions[i]);
          FreeBlock(g, s, x, y, py - y, px - x);
          playerGrid := playerGrid[py := playerGrid[py][px := v]];
        }
      }
      assert positions[..|positions|] == positions;
      PlacedCells(g, s, x, y, v);
      var h := Placed(g, s, x, y, v);
      forall row | 0 <= row < Rows
        ensures playerGrid[row] == h[row]
      {
        forall col | 0 <= col < Cols
          ensures playerGrid[row][col] == h[row][col]
        {
          PositionsIff(s, x, y, (col, row));
        }
      }
    }

    /**
     * `add_junk_lines(num_lines)`: drop the top row and append a junk row,
     * once per gap (the gaps that would be drawn at random are parameters),
     * then raise the piece one row at a time while it collides.
     */
    method AddJunkLines(numLines: int, gaps: seq<int>)
      requires Valid() && |gaps| == (if numLines > 0 then numLines else 0)
      modifies this`playerGrid, current`y
      ensures Valid()
      ensures playerGrid == JunkPushed(old(playerGrid), gaps)
      ensures current.y == RaisedY(playerGrid, current.shape, current.x, old(current.y))
    {
      ghost var g0 := playerGrid;
      var i := 0;
      while i < numLines
        invariant 0 <= i <= |gaps| && current.y == old(current.y)
        invariant playerGrid == JunkPushed(g0, gaps[..i])
      {
        JunkPushedStep(g0, gaps, i);
        playerGrid := playerGrid[1..];
        var line := JunkLine(gaps[i]);
        playerGrid := playerGrid + [line];
        i := i + 1;
      }
      assert gaps[..i] == gaps;
      JunkPushedWellFormed(g0, gaps);
      ghost var s, x, y0 := current.shape, current.x, current.y;
      var hit := CheckCollision();
      while hit
        invariant playerGrid == JunkPushed(g0, gaps)
        invariant WellFormed(playerGrid) && current.shape == s && current.x == x && ColumnsFit(s, x)
        invariant current.Valid() && next.Valid() && current != next
        invariant hit == Collides(playerGrid, s, x, current.y)
        invariant RaisedY(playerGrid, s, x, current.y) == RaisedY(playerGrid, s, x, y0)
        decreases current.y + |s|
      {
        AboveBoardFree(playerGrid, s, x, current.y);
        current.y := current.y - 1;
        hit := CheckCollision();
      }
    }

    /** The bot-mode part of `lock_piece`: the opponent's grid takes one junk row per gap. */
    method PushOpponentJunk(gaps: seq<int>)
      requires |opponentGrid| > 0
      modifies this`opponentGrid
      ensures opponentGrid == JunkPushed(old(opponentGrid), gaps)
    {
      ghost var g0 := opponentGrid;
      for i := 0 to |gaps|
        invariant opponentGrid == JunkPushed(g0, gaps[..i])
      {
        JunkPushedStep(g0, gaps, i);
        opponentGrid := opponentGrid[1..];
        var line := JunkLine(gaps[i]);
        opponentGrid := opponentGrid + [line];
      }
      assert gaps[..|gaps|] == gaps;
    }
  
    /**
     * `lock_piece`: write the piece into the grid, clear full rows, add
     * n * n * 100 * level points for n cleared rows (at the level before
     * the update), report the rows to the server in multiplayer mode or push
     * junk rows into the bot's grid in bot mode, recompute the level,
     * promote the next piece, spawn a new one of index `newIdx`, and end the
     * game when the promoted piece collides. `gaps` stands for the random
     * gaps of the bot's junk rows.
     */
    method LockPiece(newIdx: int, gaps: seq<int>)
      requires Valid() && !gameOver && 0 <= newIdx < 7
      requires mode == BotMode ==> |opponentGrid| > 0 && |gaps| >= Rows
      modifies this
      ensures Valid()
      ensures var placed := Placed(old(playerGrid), old(current.shape), old(current.x), old(current.y), old(current.shapeIdx) + 1);
        var n := CountFull(placed);
        var sent := n > 0 && mode == Multiplayer && connected;
        var attack := n > 0 && mode == BotMode;
        playerGrid == ClientCleared(placed) &&
        linesCleared == old(linesCleared) + n &&
        score == old(score) + ClearPoints(n, old(level)) &&
        level == ClientLevel(linesCleared) &&
        opponentGrid == (if attack then JunkPushed(old(opponentGrid), gaps[..n]) else old(opponentGrid)) &&
        opponentScore == old(opponentScore) + (if attack then n * 50 else 0) &&
        outbox == old(outbox) + (if sent then [ClearLinesMsg(n)] else []) +
          (if gameOver && connected then [GameOverMsg(score)] else [])
      ensures current == old(next) && fresh(next)
      ensures next.shapeIdx == newIdx && next.shape == Shapes[newIdx] && next.x == SpawnX && next.y == SpawnY
      ensures gameOver == Collides(playerGrid, current.shape, current.x, current.y)
    {
      ghost var placed := Placed(playerGrid, current.shape, current.x, current.y, current.shapeIdx + 1);
      WritePiece();
      assert playerGrid == placed;
      var n := ClearLines();
      ghost var cleared := playerGrid;
      assert n == CountFull(placed) && cleared == ClientCleared(placed) && WellFormed(cleared);
      Tally(n, gaps);
      Promote(newIdx);
      assert playerGrid == cleared;
    }

    /**
     * The middle of `lock_piece`: for n > 0 cleared rows, count them, add
     * their points at the current level, and tell the opponent (a message
     * in multiplayer mode, n junk rows and 50 points per row in bot mode);
     * then recompute the level.
     */
    method Tally(n: int, gaps: seq<int>)
      requires 0 <= n && 0 <= linesCleared && 1 <= level
      requires n > 0 && mode == BotMode ==> |opponentGrid| > 0 && n <= |gaps|
      modifies this`linesCleared, this`score, this`level, this`opponentGrid, this`opponentScore, this`outbox
      ensures linesCleared == old(linesCleared) + n && level == ClientLevel(linesCleared)
      ensures score == old(score) + ClearPoints(n, old(level)) && score >= old(score)
      ensures opponentGrid == (if n > 0 && mode == BotMode then JunkPushed(old(opponentGrid), gaps[..n]) else old(opponentGrid))
      ensures opponentScore == old(opponentScore) + (if n > 0 && mode == BotMode then n * 50 else 0)
      ensures outbox == old(outbox) + (if n > 0 && mode == Multiplayer && connected then [ClearLinesMsg(n)] else [])
    {
      if n > 0 {
        ClearPointsTogether(n, level);
        linesCleared := linesCleared + n;
        score := score + n * n * 100 * level;
        if mode == Multiplayer && connected {
          outbox := outbox + [ClearLinesMsg(n)];
        } else if mode == BotMode {
          PushOpponentJunk(gaps[..n]);
          opponentScore := opponentScore + n * 50;
        }
      }
      level := ClientLevel(linesCleared);
    }

    /**
     * The end of `lock_piece`: the next piece becomes the falling one, a
     * new piece of index `newIdx` is spawned, and the game is over when the
     * promoted piece collides (a connected client then reports its score).
     */
    method Promote(newIdx: int)
      requires WellFormed(playerGrid) && !gameOver && next.Valid() && ColumnsFit(next.shape, next.x) && 0 <= newIdx < 7
      modifies this`current, this`next, this`gameOver, this`outbox
      ensures current == old(next) && fresh(next) && next.Valid() && ColumnsFit(next.shape, next.x)
      ensures next.shapeIdx == newIdx && next.shape == Shapes[newIdx] && next.x == SpawnX && next.y == SpawnY
      ensures gameOver == Collides(playerGrid, current.shape, current.x, current.y)
      ensures outbox == old(outbox) + (if gameOver && connected then [GameOverMsg(score)] else [])
    {
      current := next;
      next := new Tetromino(SpawnX, SpawnY, newIdx);
      SpawnFits(newIdx);
      var hit := CheckCollision();
      if hit {
        gameOver := true;
        if connected {
          outbox := outbox + [GameOverMsg(score)];
        }
      }
    }

    /**
     * `reset_game`: empty grids, two new pieces, zeroed counters; in
     * multiplayer mode a connected client asks the server for a new game.
     */
    method ResetGame(idx1: int, idx2: int)
      requires 0 <= idx1 < 7 && 0 <= idx2 < 7
      modifies this
      ensures Valid() && fresh(current) && fresh(next)
      ensures playerGrid == EmptyGrid() && opponentGrid == EmptyGrid()
      ensures current.shapeIdx == idx1 && current.x == SpawnX && current.y == SpawnY
      ensures next.shapeIdx == idx2 && next.x == SpawnX && next.y == SpawnY
      ensures !gameOver && score == 0 && opponentScore == 0 && level == 1 && linesCleared == 0
      ensures outbox == old(outbox) + (if mode == Multiplayer && connected then [ReadyForNewGameMsg] else [])
    {
      ResetState(idx1, idx2);
      if mode == Multiplayer && connected {
        outbox := outbox + [ReadyForNewGameMsg];
      }
    }

    /** The assignments of `reset_game` (and of `__init__`): empty grids, two new pieces, zeroed counters. */
    method ResetState(idx1: int, idx2: int)
      requires 0 <= idx1 < 7 && 0 <= idx2 < 7
      modifies this`playerGrid, this`opponentGrid, this`current, this`next, this`gameOver
      modifies this`score, this`opponentScore, this`level, this`linesCleared
      ensures Valid() && fresh(current) && fresh(next)
      ensures playerGrid == EmptyGrid() && opponentGrid == EmptyGrid()
      ensures current.shapeIdx == idx1 && current.x == SpawnX && current.y == SpawnY
      ensures next.shapeIdx == idx2 && next.x == SpawnX && next.y == SpawnY
      ensures !gameOver && score == 0 && opponentScore == 0 && level == 1 && linesCleared == 0
    {
      playerGrid := EmptyGrid();
      opponentGrid := EmptyGrid();
      current := new Tetromino(SpawnX, SpawnY, idx1);
      next := new Tetromino(SpawnX, SpawnY, idx2);
      gameOver := false;
      score := 0;
      opponentScore := 0;
      level := 1;
      linesCleared := 0;
      SpawnOnEmptyBoard(idx1);
      SpawnFits(idx2);
    }
  }
}
