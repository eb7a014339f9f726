/**
 * The standalone game (block.py): a fixed table of 4 x 4 rotation states,
 * a board that detects collisions, locks pieces and clears rows bottom-up
 * in place, pieces that move and rotate with wall kicks, and the steps of
 * the game loop that settle a piece, score it and spawn the next one.
 */
module Block {
  import opened Options
  import opened Grid

  // ---------------------------------------------------------------------
  // The shape table.

  /** `shapes`: the four rotation states of the I, O, T, S, Z, J and L pieces, in that order. */
  const ShapeTable: seq<seq<Shape>> := [
    [[[0, 0, 0, 0], [1, 1, 1, 1], [0, 0, 0, 0], [0, 0, 0, 0]],
     [[0, 0, 1, 0], [0, 0, 1, 0], [0, 0, 1, 0], [0, 0, 1, 0]],
     [[0, 0, 0, 0], [0, 0, 0, 0], [1, 1, 1, 1], [0, 0, 0, 0]],
     [[0, 1, 0, 0], [0, 1, 0, 0], [0, 1, 0, 0], [0, 1, 0, 0]]],
    [[[0, 0, 0, 0], [0, 1, 1, 0], [0, 1, 1, 0], [0, 0, 0, 0]],
     [[0, 0, 0, 0], [0, 1, 1, 0], [0, 1, 1, 0], [0, 0, 0, 0]],
     [[0, 0, 0, 0], [0, 1, 1, 0], [0, 1, 1, 0], [0, 0, 0, 0]],
     [[0, 0, 0, 0], [0, 1, 1, 0], [0, 1, 1, 0], [0, 0, 0, 0]]],
    [[[0, 0, 0, 0], [0, 1, 0, 0], [1, 1, 1, 0], [0, 0, 0, 0]],
     [[0, 0, 0, 0], [0, 1, 0, 0], [0, 1, 1, 0], [0, 1, 0, 0]],
     [[0, 0, 0, 0], [0, 0, 0, 0], [1, 1, 1, 0], [0, 1, 0, 0]],
     [[0, 0, 0, 0], [0, 1, 0, 0], [1, 1, 0, 0], [0, 1, 0, 0]]],
    [[[0, 0, 0, 0], [0, 1, 1, 0], [1, 1, 0, 0], [0, 0, 0, 0]],
     [[0, 0, 0, 0], [0, 1, 0, 0], [0, 1, 1, 0], [0, 0, 1, 0]],
     [[0, 0, 0, 0], [0, 0, 0, 0], [0, 1, 1, 0], [1, 1, 0, 0]],
     [[0, 0, 0, 0], [1, 0, 0, 0], [1, 1, 0, 0], [0, 1, 0, 0]]],
    [[[0, 0, 0, 0], [1, 1, 0, 0], [0, 1, 1, 0], [0, 0, 0, 0]],
     [[0, 0, 0, 0], [0, 0, 1, 0], [0, 1, 1, 0], [0, 1, 0, 0]],
     [[0, 0, 0, 0], [0, 0, 0, 0], [1, 1, 0, 0], [0, 1, 1, 0]],
     [[0, 0, 0, 0], [0, 1, 0, 0], [1, 1, 0, 0], [1, 0, 0, 0]]],
    [[[0, 0, 0, 0], [1, 0, 0, 0], [1, 1, 1, 0], [0, 0, 0, 0]],
     [[0, 0, 0, 0], [0, 1, 1, 0], [0, 1, 0, 0], [0, 1, 0, 0]],
     [[0, 0, 0, 0], [0, 0, 0, 0], [1, 1, 1, 0], [0, 0, 1, 0]],
     [[0, 0, 0, 0], [0, 1, 0, 0], [0, 1, 0, 0], [1, 1, 0, 0]]],
    [[[0, 0, 0, 0], [0, 0, 1, 0], [1, 1, 1, 0], [0, 0, 0, 0]],
     [[0, 0, 0, 0], [0, 1, 0, 0], [0, 1, 0, 0], [0, 1, 1, 0]],
     [[0, 0, 0, 0], [0, 0, 0, 0], [1, 1, 1, 0], [1, 0, 0, 0]],
     [[0, 0, 0, 0], [1, 1, 0, 0], [0, 1, 0, 0], [0, 1, 0, 0]]]
  ]

  /** The rotation state `rotation` of the piece with colour id `colorId` (1 to 7). */
  function State(colorId: int, rotation: int): Shape
    requires 1 <= colorId <= 7 && 0 <= rotation < 4
  {
    ShapeTable[colorId - 1][rotation]
  }

  predicate Is4x4(s: Shape) {
    |s| == 4 && |s[0]| == 4 && |s[1]| == 4 && |s[2]| == 4 && |s[3]| == 4
  }

  /** The number of blocks in one row of four. */
  function RowBlocks(row: seq<int>): nat
    requires |row| == 4
  {
    (if row[0] != 0 then 1 else 0) + (if row[1] != 0 then 1 else 0)
    + (if row[2] != 0 then 1 else 0) + (if row[3] != 0 then 1 else 0)
  }

  /** The number of blocks in a 4 x 4 state. */
  function StateBlocks(s: Shape): nat
    requires Is4x4(s)
  {
    RowBlocks(s[0]) + RowBlocks(s[1]) + RowBlocks(s[2]) + RowBlocks(s[3])
  }

  lemma PieceStates(p: int)
    requires 0 <= p < 7
    ensures |ShapeTable[p]| == 4
    ensures forall r | 0 <= r < 4 :: Is4x4(ShapeTable[p][r]) && StateBlocks(ShapeTable[p][r]) == 4
  {
  }

  /**
   * Seven pieces of four rotation states each; every state is 4 x 4 and
   * holds exactly four blocks, and the O piece looks the same in all four.
   */
  lemma ShapeTableFacts()
    ensures |ShapeTable| == 7
    ensures forall p | 0 <= p < 7 :: |ShapeTable[p]| == 4
    ensures forall c, r | 1 <= c <= 7 && 0 <= r < 4 :: Is4x4(State(c, r)) && StateBlocks(State(c, r)) == 4
    ensures forall r | 0 <= r < 4 :: State(2, r) == State(2, 0)
  {
    forall p | 0 <= p < 7
      ensures |ShapeTable[p]| == 4
      ensures forall r | 0 <= r < 4 :: Is4x4(ShapeTable[p][r]) && StateBlocks(ShapeTable[p][r]) == 4
    {
      PieceStates(p);
    }
  }

  /** A row of a 4 x 4 state that holds a block gives a witness for `HasBlock`. */
  lemma RowHasBlock(s: Shape, i: int)
    requires Is4x4(s) && 0 <= i < 4 && RowBlocks(s[i]) > 0
    ensures HasBlock(s)
  {
    if s[i][0] != 0 {
    } else if s[i][1] != 0 {
    } else if s[i][2] != 0 {
    } else {
      assert s[i][3] != 0;
    }
  }

  /** A state with blocks has a block in the sense of the collision rule, so a falling piece always lands. */
  lemma StateHasBlock(s: Shape)
    requires Is4x4(s) && StateBlocks(s) > 0
    ensures HasBlock(s)
  {
    if RowBlocks(s[0]) > 0 {
      RowHasBlock(s, 0);
    } else if RowBlocks(s[1]) > 0 {
      RowHasBlock(s, 1);
    } else if RowBlocks(s[2]) > 0 {
      RowHasBlock(s, 2);
    } else {
      RowHasBlock(s, 3);
    }
  }

  /** Where a new piece appears: `cols // 2 - 2`, one row above the board. */
  const SpawnX: int := Cols / 2 - 2
  const SpawnY: int := -1

  /** Any 4 x 4 state fits at the spawn position of an empty board. */
  lemma SpawnFree(s: Shape)
    requires Is4x4(s)
    ensures !Collides(EmptyGrid(), s, SpawnX, SpawnY)
  {
    CollidesIff(EmptyGrid(), s, SpawnX, SpawnY);
    forall r, c | 0 <= r < |s| && 0 <= c < |s[r]|
      ensures !(s[r][c] != 0 && Blocks(EmptyGrid(), SpawnX + c, SpawnY + r))
    {
      if SpawnY + r >= 0 {
        assert EmptyGrid()[SpawnY + r] == EmptyRow();
      }
    }
  }

  // ---------------------------------------------------------------------
  // Collision scans.

  /**
   * The double loop of `is_collision` and `_check_collision_at_position`:
   * the 4 x 4 state in row-major order, stopping at the first block on a
   * blocking position.
   */
  method ScanCollision(g: Cells, s: Shape, ax: int, ay: int) returns (hit: bool)
    requires WellFormed(g) && Is4x4(s)
    ensures hit == Collides(g, s, ax, ay)
  {
    var r := 0;
    while r < 4
      invariant 0 <= r <= 4
      invariant Collides(g, s, ax, ay) == CollidesFrom(g, s, ax, ay, r)
    {
      var c := 0;
      while c < 4
        invariant 0 <= c <= 4
        invariant CollidesFrom(g, s, ax, ay, r) == (RowCollides(g, s, ax, ay, r, c) || CollidesFrom(g, s, ax, ay, r + 1))
      {
        if s[r][c] != 0 {
          var px, py := ax + c, ay + r;
          if px < 0 || px >= Cols || py >= Rows || (py >= 0 && g[py][px] != 0) {
            return true;
          }
        }
        c := c + 1;
      }
      r := r + 1;
    }
    return false;
  }

  // ---------------------------------------------------------------------
  // The board.

  class Board {
    var grid: Cells

    ghost predicate Valid()
      reads this
    {
      WellFormed(grid)
    }

    /** A 20 x 10 board of empty cells. */
    constructor()
      ensures grid == EmptyGrid() && Valid()
    {
      grid := EmptyGrid();
    }

    /** `is_collision`: the piece's current state at its own position collides. */
    method IsCollision(piece: Piece) returns (hit: bool)
      requires Valid() && piece.Valid()
      ensures hit == Collides(grid, piece.CurrentState(), piece.x, piece.y)
    {
      hit := ScanCollision(grid, piece.CurrentState(), piece.x, piece.y);
    }

    /**
     * `lock_piece`: writes the colour id into the cell under every block
     * that is on or below the top row. Columns are not checked, so the
     * piece must not collide.
     */
    method LockPiece(piece: Piece)
      requires Valid() && piece.Valid()
      requires !Collides(grid, piece.CurrentState(), piece.x, piece.y)
      modifies this
      ensures Valid()
      ensures grid == Placed(old(grid), piece.CurrentState(), piece.x, piece.y, piece.colorId)
    {
      var s, v := piece.CurrentState(), piece.colorId;
      ghost var g := grid;
      PlacedUpToStart(g, s, piece.x, piece.y, v);
      for r := 0 to 4
        invariant WellFormed(grid) && grid == PlacedUpTo(g, s, piece.x, piece.y, v, r, 0)
      {
        for c := 0 to 4
          invariant WellFormed(grid) && grid == PlacedUpTo(g, s, piece.x, piece.y, v, r, c)
        {
          if s[r][c] != 0 {
            var px, py := piece.x + c, piece.y + r;
            if py >= 0 {
              FreeBlock(g, s, piece.x, piece.y, r, c);
              PlacedUpToWrite(g, s, piece.x, piece.y, v, r, c);
              grid := grid[py := grid[py][px := v]];
            } else {
              PlacedUpToSkip(g, s, piece.x, piece.y, v, r, c);
            }
          } else {
            PlacedUpToSkip(g, s, piece.x, piece.y, v, r, c);
          }
        }
        PlacedUpToNextRow(g, s, piece.x, piece.y, v, r);
      }
    }

    /**
     * `clear_lines`: scans from the bottom row up; a full row is removed by
     * shifting every row above it down one and blanking the top row, and the
     * same y is checked again. Returns the number of full rows of the input
     * and leaves the compacted grid.
     */
    method ClearLines() returns (cleared: nat)
      requires Valid()
      modifies this
      ensures Valid()
      ensures cleared == CountFull(old(grid))
      ensures grid == Compacted(old(grid))
    {
      ghost var g := grid;
      ghost var m := Rows;
      cleared := 0;
      assert g[..Rows] == g && g[Rows..] == [];
      var y := Rows - 1;
      while y >= 0
        invariant 0 <= m <= Rows && Valid()
        invariant grid == ScanState(g, m, cleared)
        invariant cleared == CountFull(g[m..])
        invariant m > 0 ==> y == cleared + m - 1
        invariant m == 0 ==> -1 <= y < cleared
        decreases y + m + 1
      {
        var full := CheckRow(y, g, m, cleared);
        if full {
          cleared := cleared + 1;
          m := m - 1;
        } else {
          if m > 0 {
            m := m - 1;
          }
          y := y - 1;
        }
      }
      ScanDone(g, cleared);
    }

    /**
     * One step of the scan: row y is tested and, when full, removed with
     * `ShiftDown`. Row y holds unscanned row m - 1 of `g` when m > 0 and an
     * empty row once every input row has been scanned.
     */
    method CheckRow(y: int, ghost g: Cells, ghost m: int, c: nat) returns (full: bool)
      requires Valid() && 0 <= m <= |g| && 0 <= y
      requires grid == ScanState(g, m, c)
      requires m > 0 ==> y == c + m - 1
      requires m == 0 ==> y < c
      modifies this
      ensures Valid()
      ensures full ==> m > 0 && grid == ScanState(g, m - 1, c + 1)
      ensures full ==> CountFull(g[m - 1..]) == CountFull(g[m..]) + 1
      ensures !full && m > 0 ==> grid == ScanState(g, m - 1, c) && CountFull(g[m - 1..]) == CountFull(g[m..])
      ensures !full && m == 0 ==> grid == old(grid)
    {
      var row := grid[y];
      if m > 0 {
        BottomUpRow(g, m, c);
        assert row == g[m - 1];
      } else {
        assert row == EmptyRow();
        EmptyRowNotFull();
      }
      full := IsFull(row);
      if full {
        BottomUpFull(g, m, c);
        ShiftDown(y);
      } else if m > 0 {
        BottomUpKeep(g, m, c);
      }
    }

    /** Rows y..1 take the row above them, then the top row is blanked. */
    method ShiftDown(y: int)
      requires Valid() && 0 <= y < Rows
      modifies this
      ensures Valid()
      ensures grid == [EmptyRow()] + old(grid)[..y] + old(grid)[y + 1..]
    {
      ghost var g := grid;
      var y2 := y;
      while y2 > 0
        invariant 0 <= y2 <= y && Valid()
        invariant grid == g[..y2 + 1] + g[y2..y] + g[y + 1..]
      {
        CopyRowDown(y2);
        assert g[..y2 + 1] == g[..y2] + [g[y2]];
        assert g[y2 - 1..y] == [g[y2 - 1]] + g[y2..y];
        y2 := y2 - 1;
      }
      BlankTop();
      assert grid == [EmptyRow()] + g[..y] + g[y + 1..] by {
        assert g[..1] == [g[0]] && g[0..y] == g[..y];
      }
    }

    /** The inner loop of the shift: row y2 takes the cells of row y2 - 1, one column at a time. */
    method CopyRowDown(y2: int)
      requires Valid() && 0 < y2 < Rows
      modifies this
      ensures Valid()
      ensures grid == old(grid)[y2 := old(grid)[y2 - 1]]
    {
      ghost var g := grid;
      for x := 0 to Cols
        invariant |grid| == Rows && grid == g[y2 := grid[y2]] && |grid[y2]| == Cols
        invariant forall k | 0 <= k < Cols :: grid[y2][k] == if k < x then g[y2 - 1][k] else g[y2][k]
      {
        grid := grid[y2 := grid[y2][x := grid[y2 - 1][x]]];
      }
      assert grid[y2] == g[y2 - 1];
    }

    /** The top row is blanked, one column at a time. */
    method BlankTop()
      requires Valid()
      modifies this
      ensures Valid()
      ensures grid == old(grid)[0 := EmptyRow()]
    {
      ghost var g := grid;
      for x := 0 to Cols
        invariant |grid| == Rows && grid == g[0 := grid[0]] && |grid[0]| == Cols
        invariant forall k | 0 <= k < Cols :: grid[0][k] == if k < x then 0 else g[0][k]
      {
        grid := grid[0 := grid[0][x := 0]];
      }
      assert grid[0] == EmptyRow();
    }
  }

  /** The grid during the bottom-up scan, with m rows of the input still to scan and c rows cleared. */
  function ScanState(g: Cells, m: int, c: nat): Cells
    requires 0 <= m <= |g|
  {
    EmptyRows(c) + g[..m] + NonFull(g[m..])
  }

  /** With every row scanned, the scan state is the compacted grid. */
  lemma ScanDone(g: Cells, c: nat)
    requires CountFull(g[0..]) == c
    ensures ScanState(g, 0, c) == Compacted(g)
  {
    assert g[..0] == [] && g[0..] == g;
  }

  lemma NonFullCons(g: Cells, m: int)
    requires 0 < m <= |g|
    ensures NonFull(g[m - 1..]) == (if IsFull(g[m - 1]) then [] else [g[m - 1]]) + NonFull(g[m..])
    ensures CountFull(g[m - 1..]) == (if IsFull(g[m - 1]) then 1 else 0) + CountFull(g[m..])
  {
    assert g[m - 1..] == [g[m - 1]] + g[m..];
    NonFullAppend([g[m - 1]], g[m..]);
    NonFullSingle(g[m - 1]);
  }

  /** The row the scan looks at is the next unscanned row of the input. */
  lemma BottomUpRow(g: Cells, m: int, c: nat)
    requires 0 < m <= |g|
    ensures ScanState(g, m, c)[c + m - 1] == g[m - 1]
  {
  }

  /** Removing a full row moves one row from "unscanned" to "cleared". */
  lemma BottomUpFull(g: Cells, m: int, c: nat)
    requires 0 < m <= |g| && IsFull(g[m - 1])
    ensures var cur := ScanState(g, m, c);
      [EmptyRow()] + cur[..c + m - 1] + cur[c + m..] == ScanState(g, m - 1, c + 1)
    ensures CountFull(g[m - 1..]) == CountFull(g[m..]) + 1
  {
    NonFullCons(g, m);
    var cur := ScanState(g, m, c);
    assert cur[..c + m - 1] == EmptyRows(c) + g[..m - 1];
    assert cur[c + m..] == NonFull(g[m..]);
    assert EmptyRows(c + 1) == [EmptyRow()] + EmptyRows(c);
  }

  /** Passing a row that is not full moves it from "unscanned" to "scanned". */
  lemma BottomUpKeep(g: Cells, m: int, c: nat)
    requires 0 < m <= |g| && !IsFull(g[m - 1])
    ensures ScanState(g, m, c) == ScanState(g, m - 1, c)
    ensures CountFull(g[m - 1..]) == CountFull(g[m..])
  {
    NonFullCons(g, m);
    assert g[..m] == g[..m - 1] + [g[m - 1]];
  }

  // ---------------------------------------------------------------------
  // Pieces.

  /** The positions `rotate` tries for the turned state, in order: in place, left, right, up. */
  const KickOffsets: seq<(int, int)> := [(0, 0), (-1, 0), (1, 0), (0, -1)]

  /** The index of the first offset at which `s`, anchored at (x, y) plus that offset, does not collide. */
  function FirstFree(g: Cells, s: Shape, x: int, y: int, offs: seq<(int, int)>): (k: Option<nat>)
    requires WellFormed(g)
    ensures k.Some? ==> k.value < |offs|
  {
    if |offs| == 0 then None
    else if !Collides(g, s, x + offs[0].0, y + offs[0].1) then Some(0)
    else
      match FirstFree(g, s, x, y, offs[1..])
      case None => None
      case Some(i) => Some(i + 1)
  }

  /** The offset found is free and every offset before it collides; with none found, all collide. */
  lemma {:induction false} FirstFreeIff(g: Cells, s: Shape, x: int, y: int, offs: seq<(int, int)>)
    requires WellFormed(g)
    ensures var k := FirstFree(g, s, x, y, offs);
      && (k.Some? ==> !Collides(g, s, x + offs[k.value].0, y + offs[k.value].1)
                      && forall j | 0 <= j < k.value :: Collides(g, s, x + offs[j].0, y + offs[j].1))
      && (k.None? ==> forall j | 0 <= j < |offs| :: Collides(g, s, x + offs[j].0, y + offs[j].1))
  {
    if |offs| > 0 {
      FirstFreeIff(g, s, x, y, offs[1..]);
      forall j | 1 <= j < |offs|
        ensures offs[j] == offs[1..][j - 1]
      {
      }
    }
  }

  /** The kick search written out for the four offsets. */
  lemma KickOrder(g: Cells, s: Shape, x: int, y: int)
    requires WellFormed(g)
    ensures FirstFree(g, s, x, y, KickOffsets) ==
      if !Collides(g, s, x, y) then Some(0)
      else if !Collides(g, s, x - 1, y) then Some(1)
      else if !Collides(g, s, x + 1, y) then Some(2)
      else if !Collides(g, s, x, y - 1) then Some(3)
      else None
  {
    var o := KickOffsets;
    var o1, o2, o3 := o[1..], o[1..][1..], o[1..][1..][1..];
    assert o1 == [(-1, 0), (1, 0), (0, -1)] && o2 == [(1, 0), (0, -1)] && o3 == [(0, -1)] && o3[1..] == [];
    assert FirstFree(g, s, x, y, o3) == if !Collides(g, s, x, y - 1) then Some(0) else None;
    assert FirstFree(g, s, x, y, o2) ==
      if !Collides(g, s, x + 1, y) then Some(0)
      else if !Collides(g, s, x, y - 1) then Some(1) else None;
    assert FirstFree(g, s, x, y, o1) ==
      if !Collides(g, s, x - 1, y) then Some(0)
      else if !Collides(g, s, x + 1, y) then Some(1)
      else if !Collides(g, s, x, y - 1) then Some(2) else None;
  }

  /** `(rotation + 1) % 4`: the next rotation state clockwise. */
  function Turn(rotation: int): (r: int)
    requires 0 <= rotation < 4
    ensures 0 <= r < 4 && (r == 0 <==> rotation == 3)
  {
    (rotation + 1) % 4
  }

  /** Four 4 x 4 rotation states of four blocks each, as every row of the table is. */
  ghost predicate PieceShape(shape: seq<Shape>) {
    |shape| == 4 && forall r | 0 <= r < 4 :: Is4x4(shape[r]) && StateBlocks(shape[r]) == 4
  }

  class Piece {
    const colorId: int
    /** The piece's row of the shape table: its four rotation states. */
    const shape: seq<Shape>
    var rotation: int
    var x: int
    var y: int

    ghost predicate Valid()
      reads this
    {
      1 <= colorId <= 7 && PieceShape(shape) && 0 <= rotation < 4
    }

    /** `shape[rotation]`: the 4 x 4 state the piece shows. */
    function CurrentState(): Shape
      reads this
      requires Valid()
    {
      shape[rotation]
    }

    /** `Piece()`, with the colour id that `random.randint(1, 7)` draws as a parameter. */
    constructor(c: int)
      requires 1 <= c <= 7
      ensures Valid() && colorId == c && shape == ShapeTable[c - 1]
      ensures rotation == 0 && x == SpawnX && y == SpawnY
    {
      PieceStates(c - 1);
      colorId := c;
      shape := ShapeTable[c - 1];
      rotation := 0;
      x := SpawnX;
      y := SpawnY;
    }

    /** `move_left`: one column left if that does not collide, otherwise no change. */
    method MoveLeft(board: Board) returns (moved: bool)
      requires Valid() && board.Valid()
      modifies this`x
      ensures moved == !Collides(board.grid, CurrentState(), old(x) - 1, y)
      ensures x == if moved then old(x) - 1 else old(x)
      ensures !Collides(board.grid, CurrentState(), old(x), y) ==> !Collides(board.grid, CurrentState(), x, y)
    {
      x := x - 1;
      var hit := board.IsCollision(this);
      if hit {
        x := x + 1;
        return false;
      }
      return true;
    }

    /** `move_right`: one column right if that does not collide, otherwise no change. */
    method MoveRight(board: Board) returns (moved: bool)
      requires Valid() && board.Valid()
      modifies this`x
      ensures moved == !Collides(board.grid, CurrentState(), old(x) + 1, y)
      ensures x == if moved then old(x) + 1 else old(x)
      ensures !Collides(board.grid, CurrentState(), old(x), y) ==> !Collides(board.grid, CurrentState(), x, y)
    {
      x := x + 1;
      var hit := board.IsCollision(this);
      if hit {
        x := x - 1;
        return false;
      }
      return true;
    }

    /** `move_down`: one row down if that does not collide, otherwise no change. */
    method MoveDown(board: Board) returns (moved: bool)
      requires Valid() && board.Valid()
      modifies this`y
      ensures moved == !Collides(board.grid, CurrentState(), x, old(y) + 1)
      ensures y == if moved then old(y) + 1 else old(y)
      ensures !Collides(board.grid, CurrentState(), x, old(y)) ==> !Collides(board.grid, CurrentState(), x, y)
    {
      y := y + 1;
      var hit := board.IsCollision(this);
      if hit {
        y := y - 1;
        return false;
      }
      return true;
    }

    /**
     * `rotate`: the next state clockwise, at the first of the kick offsets
     * where it does not collide; when none works, nothing changes.
     */
    method Rotate(board: Board) returns (ok: bool)
      requires Valid() && board.Valid()
      modifies this`rotation, this`x, this`y
      ensures Valid()
      ensures var k := FirstFree(board.grid, shape[Turn(old(rotation))], old(x), old(y), KickOffsets);
        && ok == k.Some?
        && (ok ==> rotation == Turn(old(rotation))
                   && x == old(x) + KickOffsets[k.value].0 && y == old(y) + KickOffsets[k.value].1)
        && (!ok ==> rotation == old(rotation) && x == old(x) && y == old(y))
      ensures ok ==> !Collides(board.grid, CurrentState(), x, y)
    {
      ghost var s, x0, y0 := shape[Turn(rotation)], x, y;
      ghost var k := FirstFree(board.grid, s, x0, y0, KickOffsets);
      KickOrder(board.grid, s, x0, y0);
      var originalRotation := rotation;
      rotation := Turn(rotation);
      assert CurrentState() == s;
      var hit := board.IsCollision(this);
      if hit {
        x := x - 1;
        hit := board.IsCollision(this);
        if !hit {
          assert k == Some(1);
          return true;
        }
        x := x + 1;
        x := x + 1;
        hit := board.IsCollision(this);
        if !hit {
          assert k == Some(2);
          return true;
        }
        x := x - 1;
        y := y - 1;
        hit := board.IsCollision(this);
        if !hit {
          assert k == Some(3);
          return true;
        }
        y := y + 1;
        rotation := originalRotation;
        return false;
      }
      assert k == Some(0);
      return true;
    }

    /** `_check_collision_at_position`: the current state, anchored at (tx, ty), collides. */
    method CheckCollisionAtPosition(board: Board, tx: int, ty: int) returns (hit: bool)
      requires Valid() && board.Valid()
      ensures hit == Collides(board.grid, CurrentState(), tx, ty)
    {
      hit := ScanCollision(board.grid, CurrentState(), tx, ty);
    }
  }

  // ---------------------------------------------------------------------
  // Scoring.

  /** Points for the rows one settled piece clears: 10, 30, 60 or 100 for one to four rows, else nothing. */
  function LineScore(lines: int): nat {
    if lines == 1 then 10
    else if lines == 2 then 30
    else if lines == 3 then 60
    else if lines == 4 then 100
    else 0
  }

  /** Rows cleared together score more than the same rows cleared in separate drops. */
  lemma LineScoreRewardsTogether(a: int, b: int)
    requires 1 <= a && 1 <= b && a + b <= 4
    ensures LineScore(a + b) > LineScore(a) + LineScore(b)
  {
  }

  /** More rows at once never score less, and any cleared row scores. */
  lemma LineScoreMonotone(a: int, b: int)
    requires 0 <= a <= b <= 4
    ensures LineScore(a) <= LineScore(b)
    ensures b > 0 ==> LineScore(b) > 0
  {
  }

  /** The level of the down-arrow and gravity paths: one per 300 points, at most 10. */
  function CappedLevel(score: int): (level: int)
    requires score >= 0
    ensures 1 <= level <= 10
    ensures level < 10 ==> level == score / 300 + 1
  {
    if score / 300 + 1 < 10 then score / 300 + 1 else 10
  }

  /** The level of the space-bar path, where the cap of 10 is missing. */
  function UncappedLevel(score: int): (level: int)
    requires score >= 0
    ensures level >= 1
  {
    score / 300 + 1
  }

  /** Both levels never drop as the score grows, and they agree below 2700 points. */
  lemma LevelsMonotone(s1: int, s2: int)
    requires 0 <= s1 <= s2
    ensures CappedLevel(s1) <= CappedLevel(s2) && UncappedLevel(s1) <= UncappedLevel(s2)
    ensures s2 < 2700 ==> CappedLevel(s2) == UncappedLevel(s2)
  {
  }

  /** At 3000 points a space-bar drop leaves level 11, past the cap the other paths keep. */
  lemma SpaceDropPassesCap()
    ensures UncappedLevel(3000) == 11 && CappedLevel(3000) == 10
  {
  }

  // ---------------------------------------------------------------------
  // The game loop.

  /** The landing row of a 4 x 4 state of four blocks that falls from a free position. */
  function Landing(g: Cells, s: Shape, x: int, y: int): int
    requires WellFormed(g) && Is4x4(s) && StateBlocks(s) == 4 && !Collides(g, s, x, y)
  {
    StateHasBlock(s);
    FloorCollidesIf(g, s, x, y);
    DropY(g, s, x, y)
  }

  /** The keys that steer the falling piece. */
  datatype Steer = Left | Right | Up

  /** A new empty board and two new spawned pieces of colours c1 and c2; the first one is free. */
  method NewRound(c1: int, c2: int) returns (b: Board, p: Piece, q: Piece)
    requires 1 <= c1 <= 7 && 1 <= c2 <= 7
    ensures fresh(b) && fresh(p) && fresh(q) && p != q
    ensures b.Valid() && b.grid == EmptyGrid() && p.Valid() && q.Valid()
    ensures p.colorId == c1 && p.rotation == 0 && p.x == SpawnX && p.y == SpawnY
    ensures q.colorId == c2 && q.rotation == 0 && q.x == SpawnX && q.y == SpawnY
    ensures !Collides(b.grid, p.CurrentState(), p.x, p.y)
  {
    b := new Board();
    p := new Piece(c1);
    q := new Piece(c2);
    SpawnFree(p.CurrentState());
  }

  /** The state `game_loop` keeps between events (timing and drawing aside). */
  class Game {
    var board: Board
    var current: Piece
    var next: Piece
    var score: int
    var level: int
    var gameOver: bool

    /** While the game runs, the falling piece sits on free cells. */
    ghost predicate Valid()
      reads this, board, current, next
    {
      && board.Valid() && current.Valid() && next.Valid() && current != next
      && score >= 0 && level >= 1
      && (!gameOver ==> !Collides(board.grid, current.CurrentState(), current.x, current.y))
    }

    /** The start of `game_loop`, with the two drawn colour ids as parameters. */
    constructor(c1: int, c2: int)
      requires 1 <= c1 <= 7 && 1 <= c2 <= 7
      ensures Valid() && board.grid == EmptyGrid()
      ensures current.colorId == c1 && current.rotation == 0 && current.x == SpawnX && current.y == SpawnY
      ensures next.colorId == c2 && next.rotation == 0 && next.x == SpawnX && next.y == SpawnY
      ensures score == 0 && level == 1 && !gameOver
    {
      var b, p, q := NewRound(c1, c2);
      board, current, next := b, p, q;
      score := 0;
      level := 1;
      gameOver := false;
    }

    /** Enter after a game over: a fresh board and pieces, score 0, level 1. */
    method Restart(c1: int, c2: int)
      requires Valid() && gameOver && 1 <= c1 <= 7 && 1 <= c2 <= 7
      modifies this
      ensures Valid() && fresh(board) && fresh(current) && fresh(next) && board.grid == EmptyGrid()
      ensures current.colorId == c1 && current.rotation == 0 && current.x == SpawnX && current.y == SpawnY
      ensures next.colorId == c2 && next.rotation == 0 && next.x == SpawnX && next.y == SpawnY
      ensures score == 0 && level == 1 && !gameOver
    {
      var b, p, q := NewRound(c1, c2);
      board, current, next := b, p, q;
      score := 0;
      level := 1;
      gameOver := false;
    }

    /**
     * Left and right: one column over if that is free, otherwise no change.
     * Up: the next rotation state at the first free kick, otherwise no
     * change. The piece stays on free cells and nothing else changes.
     */
    method SteerPiece(key: Steer)
      requires Valid() && !gameOver
      modifies current`x, current`y, current`rotation
      ensures Valid() && unchanged(this) && unchanged(board) && unchanged(next)
      ensures key != Up ==> current.rotation == old(current.rotation) && current.y == old(current.y)
      ensures key == Left ==>
        current.x == if Collides(board.grid, current.CurrentState(), old(current.x) - 1, current.y)
                     then old(current.x) else old(current.x) - 1
      ensures key == Right ==>
        current.x == if Collides(board.grid, current.CurrentState(), old(current.x) + 1, current.y)
                     then old(current.x) else old(current.x) + 1
      ensures key == Up ==>
        var k := FirstFree(board.grid, current.shape[Turn(old(current.rotation))], old(current.x), old(current.y), KickOffsets);
        if k.Some? then
          current.rotation == Turn(old(current.rotation))
          && current.x == old(current.x) + KickOffsets[k.value].0 && current.y == old(current.y) + KickOffsets[k.value].1
        else
          current.rotation == old(current.rotation) && current.x == old(current.x) && current.y == old(current.y)
    {
      match key
      case Left =>
        var _ := current.MoveLeft(board);
      case Right =>
        var _ := current.MoveRight(board);
      case Up =>
        var _ := current.Rotate(board);
    }

    /** `while current_piece.move_down(board): pass`: the piece falls to its landing row. */
    method HardDrop()
      requires Valid() && !gameOver
      modifies current`y
      ensures Valid()
      ensures current.y == Landing(board.grid, current.CurrentState(), current.x, old(current.y))
    {
      ghost var g, s, x := board.grid, current.CurrentState(), current.x;
      StateHasBlock(s);
      FloorCollidesIf(g, s, x, current.y);
      ghost var y0 := current.y;
      var moved := current.MoveDown(board);
      if moved {
        DropStep(g, s, x, y0);
      }
      while moved
        invariant current.Valid() && current.CurrentState() == s && current.x == x
        invariant current.y < Rows && !Collides(g, s, x, current.y)
        invariant DropY(g, s, x, current.y) == DropY(g, s, x, y0)
        invariant !moved ==> Collides(g, s, x, current.y + 1)
        decreases Rows - current.y + (if moved then 1 else 0)
      {
        moved := current.MoveDown(board);
        if moved {
          DropStep(g, s, x, current.y - 1);
        }
      }
    }

    /**
     * What follows a drop or a failed gravity step: lock the piece, clear
     * rows, add their points, recompute the level (capped at 10 unless
     * `capped` is false), promote the next piece, spawn a new one of colour
     * `newColor`, and end the game when the promoted piece collides.
     */
    method Settle(capped: bool, newColor: int)
      requires Valid() && !gameOver && 1 <= newColor <= 7
      modifies this, board
      ensures Valid() && board == old(board) && current == old(next) && fresh(next)
      ensures var placed := Placed(old(board.grid), old(current.CurrentState()), old(current.x), old(current.y), old(current.colorId));
        board.grid == Compacted(placed) && score == old(score) + LineScore(CountFull(placed))
      ensures level == if capped then CappedLevel(score) else UncappedLevel(score)
      ensures next.colorId == newColor && next.shape == ShapeTable[newColor - 1]
      ensures next.rotation == 0 && next.x == SpawnX && next.y == SpawnY
      ensures gameOver == Collides(board.grid, current.CurrentState(), current.x, current.y)
    {
      ghost var placed := Placed(board.grid, current.CurrentState(), current.x, current.y, current.colorId);
      var lines := LockAndClear();
      assert board.grid == Compacted(placed) && lines == CountFull(placed);
      AddPoints(lines, capped);
      Promote(newColor);
    }

    /** The points for `lines` cleared rows are added and the level is recomputed. */
    method AddPoints(lines: nat, capped: bool)
      requires score >= 0
      modifies this`score, this`level
      ensures score == old(score) + LineScore(lines) && score >= 0
      ensures level == if capped then CappedLevel(score) else UncappedLevel(score)
      ensures level >= 1
    {
      score := score + LineScore(lines);
      level := if capped then CappedLevel(score) else UncappedLevel(score);
    }

    /** The next piece becomes the falling one, a new piece of colour `newColor` is drawn, and the game ends on a collision. */
    method Promote(newColor: int)
      requires board.Valid() && next.Valid() && 1 <= newColor <= 7
      modifies this`current, this`next, this`gameOver
      ensures current == old(next) && fresh(next) && current != next && next.Valid()
      ensures next.colorId == newColor && next.shape == ShapeTable[newColor - 1]
      ensures next.rotation == 0 && next.x == SpawnX && next.y == SpawnY
      ensures gameOver == Collides(board.grid, current.CurrentState(), current.x, current.y)
    {
      current := next;
      next := new Piece(newColor);
      gameOver := board.IsCollision(current);
    }

    /** The first two steps of settling: the piece is written into the board and full rows are cleared. */
    method LockAndClear() returns (lines: nat)
      requires Valid() && !gameOver
      modifies board
      ensures board.Valid()
      ensures var placed := Placed(old(board.grid), current.CurrentState(), current.x, current.y, current.colorId);
        board.grid == Compacted(placed) && lines == CountFull(placed)
    {
      board.LockPiece(current);
      lines := board.ClearLines();
    }

    /**
     * The down-arrow key (`space` false) and the space bar (`space` true):
     * the piece falls to its landing row and settles there; only the space
     * bar leaves the level uncapped.
     */
    method KeyDrop(space: bool, newColor: int)
      requires Valid() && !gameOver && 1 <= newColor <= 7
      modifies this, board, current`y
      ensures Valid() && board == old(board) && current == old(next) && fresh(next)
      ensures var s := old(current.CurrentState());
        var land := Landing(old(board.grid), s, old(current.x), old(current.y));
        var placed := Placed(old(board.grid), s, old(current.x), land, old(current.colorId));
        board.grid == Compacted(placed) && score == old(score) + LineScore(CountFull(placed))
      ensures level == if space then UncappedLevel(score) else CappedLevel(score)
      ensures gameOver == Collides(board.grid, current.CurrentState(), current.x, current.y)
    {
      HardDrop();
      Settle(!space, newColor);
    }

    /**
     * One expiry of the fall timer: the piece steps down one row, or, when
     * it cannot, settles where it is.
     */
    method GravityTick(newColor: int)
      requires Valid() && !gameOver && 1 <= newColor <= 7
      modifies this, board, current`y
      ensures Valid() && board == old(board)
      ensures var s, x, y := old(current.CurrentState()), old(current.x), old(current.y);
        if !Collides(old(board.grid), s, x, y + 1) then
          current == old(current) && current.y == y + 1 && next == old(next)
          && board.grid == old(board.grid) && score == old(score) && level == old(level) && !gameOver
        else
          current == old(next) && fresh(next)
          && board.grid == Compacted(Placed(old(board.grid), s, x, y, old(current.colorId)))
          && score == old(score) + LineScore(CountFull(Placed(old(board.grid), s, x, y, old(current.colorId))))
          && level == CappedLevel(score)
          && gameOver == Collides(board.grid, current.CurrentState(), current.x, current.y)
    {
      var moved := current.MoveDown(board);
      if !moved {
        Settle(true, newColor);
      }
    }
  }
}
