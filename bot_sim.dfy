/**
 * The placement simulator of the bot (tetris_bot.py): rotation, collision,
 * writing a piece into a grid, clearing full rows and the landing height of
 * a dropped piece. The bot always works on deep copies, so grids and test
 * pieces are values here.
 */
module BotSim {
  import opened Grid
  import opened Matrix

  /** A deep copy of a piece: its current shape, its anchor and its identity. */
  datatype Placement = Placement(shape: Shape, x: int, y: int, shapeIdx: int)

  /** `rotate_shape`: one clockwise quarter-turn into a freshly built matrix. */
  method RotateShape(shape: Shape) returns (rotated: Shape)
    requires IsMatrix(shape)
    ensures |rotated| == |shape[0]| && forall c | 0 <= c < |rotated| :: |rotated[c]| == |shape|
    ensures rotated == Rotated(shape)
  {
    var rows, cols := |shape|, |shape[0]|;
    rotated := seq(cols, _ => seq(rows, _ => 0));
    var r := 0;
    while r < rows
      invariant 0 <= r <= rows
      invariant |rotated| == cols && forall c | 0 <= c < cols :: |rotated[c]| == rows
      invariant forall c, k | 0 <= c < cols && 0 <= k < rows ::
        rotated[c][k] == if rows - 1 - k < r then shape[rows - 1 - k][c] else 0
    {
      var c := 0;
      while c < cols
        invariant 0 <= c <= cols
        invariant |rotated| == cols && forall c' | 0 <= c' < cols :: |rotated[c']| == rows
        invariant forall c', k | 0 <= c' < cols && 0 <= k < rows ::
          rotated[c'][k] == if Before(rows - 1 - k, c', r, c) then shape[rows - 1 - k][c'] else 0
      {
        rotated := rotated[c := rotated[c][rows - 1 - r := shape[r][c]]];
        c := c + 1;
      }
      r := r + 1;
    }
    RotatedCells(shape);
    assert forall c | 0 <= c < cols :: rotated[c] == Rotated(shape)[c];
  }

  /**
   * `check_collision`: does the piece, shifted by (dx, dy), put a block on a
   * blocking position of the grid?
   */
  method CheckCollision(g: Cells, p: Placement, dx: int, dy: int) returns (hit: bool)
    requires WellFormed(g)
    ensures hit == Collides(g, p.shape, p.x + dx, p.y + dy)
  {
    var ax, ay := p.x + dx, p.y + dy;
    CollidesIff(g, p.shape, ax, ay);
    var y := 0;
    while y < |p.shape|
      invariant 0 <= y <= |p.shape|
      invariant forall r, c | 0 <= r < y && 0 <= c < |p.shape[r]| :: !(p.shape[r][c] != 0 && Blocks(g, ax + c, ay + r))
    {
      var row := p.shape[y];
      var x := 0;
      while x < |row|
        invariant 0 <= x <= |row|
        invariant forall r, c | 0 <= r < y && 0 <= c < |p.shape[r]| :: !(p.shape[r][c] != 0 && Blocks(g, ax + c, ay + r))
        invariant forall c | 0 <= c < x :: !(row[c] != 0 && Blocks(g, ax + c, ay + y))
      {
        if row[x] != 0 {
          var gridX, gridY := p.x + x + dx, p.y + y + dy;
          if gridX < 0 || gridX >= Cols || gridY >= Rows || (gridY >= 0 && g[gridY][gridX] != 0) {
            assert Blocks(g, ax + x, ay + y);
            return true;
          }
        }
        x := x + 1;
      }
      y := y + 1;
    }
    return false;
  }

  /**
   * `place_piece`: writes shape_idx + 1 into every on-board cell under a
   * block of the piece; blocks off the board are dropped, every other cell
   * keeps its value.
   */
  method PlacePiece(g: Cells, p: Placement) returns (h: Cells)
    requires WellFormed(g)
    ensures WellFormed(h)
    ensures forall row, col | 0 <= row < Rows && 0 <= col < Cols ::
      h[row][col] == if Occupied(p.shape, row - p.y, col - p.x) then p.shapeIdx + 1 else g[row][col]
    ensures h == Placed(g, p.shape, p.x, p.y, p.shapeIdx + 1)
  {
    var v := p.shapeIdx + 1;
    h := g;
    PlacedUpToStart(g, p.shape, p.x, p.y, v);
    var y := 0;
    while y < |p.shape|
      invariant 0 <= y <= |p.shape| && WellFormed(h)
      invariant h == PlacedUpTo(g, p.shape, p.x, p.y, v, y, 0)
    {
      var row := p.shape[y];
      var x := 0;
      while x < |row|
        invariant 0 <= x <= |row| && WellFormed(h)
        invariant h == PlacedUpTo(g, p.shape, p.x, p.y, v, y, x)
      {
        if row[x] != 0 {
          var gridX, gridY := p.x + x, p.y + y;
          if 0 <= gridX < Cols && 0 <= gridY < Rows {
            PlacedUpToWrite(g, p.shape, p.x, p.y, v, y, x);
            h := h[gridY := h[gridY][gridX := v]];
          } else {
            PlacedUpToSkip(g, p.shape, p.x, p.y, v, y, x);
          }
        } else {
          PlacedUpToSkip(g, p.shape, p.x, p.y, v, y, x);
        }
        x := x + 1;
      }
      PlacedUpToNextRow(g, p.shape, p.x, p.y, v, y);
      y := y + 1;
    }
    PlacedCells(g, p.shape, p.x, p.y, v);
  }

  /**
   * `clear_lines`: a single top-to-bottom scan; a full row is popped and an
   * empty row is pushed on top. The row that slides into index y was already
   * scanned, so every full row of the input is removed.
   */
  method ClearLines(g: Cells) returns (h: Cells, cleared: nat)
    requires WellFormed(g)
    ensures cleared == CountFull(g)
    ensures h == Compacted(g)
    ensures WellFormed(h) && forall k | 0 <= k < Rows :: !IsFull(h[k])
  {
    h, cleared := g, 0;
    for y := 0 to Rows
      invariant |h| == Rows
      invariant h[..y] == EmptyRows(cleared) + NonFull(g[..y]) && h[y..] == g[y..]
      invariant cleared == CountFull(g[..y])
    {
      ScanStep(g, y, cleared, h);
      if IsFull(h[y]) {
        h := h[..y] + h[y + 1..];
        h := [EmptyRow()] + h;
        cleared := cleared + 1;
      }
    }
    assert g[..Rows] == g && h[..Rows] == h;
    CompactedShape(g);
  }

  /** One step of the forward scan keeps "cleared rows, then scanned survivors, then the rest". */
  lemma ScanStep(g: Cells, y: int, n: nat, h: Cells)
    requires |g| == Rows && 0 <= y < Rows && |h| == Rows
    requires n == CountFull(g[..y]) && h[..y] == EmptyRows(n) + NonFull(g[..y]) && h[y..] == g[y..]
    ensures h[y] == g[y]
    ensures IsFull(g[y]) ==>
      var h' := [EmptyRow()] + (h[..y] + h[y + 1..]);
      |h'| == Rows && h'[..y + 1] == EmptyRows(n + 1) + NonFull(g[..y + 1]) && h'[y + 1..] == g[y + 1..]
      && n + 1 == CountFull(g[..y + 1])
    ensures !IsFull(g[y]) ==>
      h[..y + 1] == EmptyRows(n) + NonFull(g[..y + 1]) && h[y + 1..] == g[y + 1..] && n == CountFull(g[..y + 1])
  {
    assert h[y] == h[y..][0];
    ScanCounts(g, y);
    assert h[y + 1..] == h[y..][1..];
    if IsFull(g[y]) {
      ScanFull(h, y, n);
    } else {
      assert h[..y + 1] == h[..y] + [h[y]];
    }
  }

  lemma ScanCounts(g: Cells, y: int)
    requires 0 <= y < |g|
    ensures NonFull(g[..y + 1]) == NonFull(g[..y]) + (if IsFull(g[y]) then [] else [g[y]])
    ensures CountFull(g[..y + 1]) == CountFull(g[..y]) + (if IsFull(g[y]) then 1 else 0)
  {
    assert g[..y + 1][..y] == g[..y];
  }

  lemma ScanFull(h: Cells, y: int, n: nat)
    requires 0 <= y < |h|
    ensures var h' := [EmptyRow()] + (h[..y] + h[y + 1..]);
      |h'| == |h| && h'[..y + 1] == [EmptyRow()] + h[..y] && h'[y + 1..] == h[y + 1..]
    ensures EmptyRows(n + 1) == [EmptyRow()] + EmptyRows(n)
  {
  }
}
