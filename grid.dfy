/**
 * The playfield shared by the bot, the standalone game and the client:
 * a 20 x 10 matrix of small integers (0 = empty, anything else = occupied),
 * the collision rule that all three implement, and the two whole-grid
 * effects every game step is built from: writing a piece into the grid and
 * compacting the grid after full rows are removed.
 */
module Grid {
  const Rows: int := 20
  const Cols: int := 10

  type Row = seq<int>
  type Cells = seq<Row>
  /** A piece's cell matrix; a non-zero entry is a block. */
  type Shape = seq<seq<int>>

  ghost predicate WellFormed(g: Cells) {
    |g| == Rows && forall y | 0 <= y < |g| :: |g[y]| == Cols
  }

  function EmptyRow(): (r: Row)
    ensures |r| == Cols && forall x | 0 <= x < |r| :: r[x] == 0
  {
    seq(Cols, _ => 0)
  }

  function EmptyRows(n: nat): (rs: seq<Row>)
    ensures |rs| == n && forall k | 0 <= k < n :: rs[k] == EmptyRow()
  {
    seq(n, _ => EmptyRow())
  }

  function EmptyGrid(): (g: Cells)
    ensures WellFormed(g)
  {
    EmptyRows(Rows)
  }

  /** The empty grid is exactly the well-formed grid whose every cell is 0. */
  lemma EmptyGridIff(g: Cells)
    requires WellFormed(g)
    ensures g == EmptyGrid() <==> forall y, x | 0 <= y < Rows && 0 <= x < Cols :: g[y][x] == 0
  {
    var e := EmptyGrid();
    if forall y, x | 0 <= y < Rows && 0 <= x < Cols :: g[y][x] == 0 {
      forall y | 0 <= y < Rows
        ensures g[y] == e[y]
      {
        assert e[y] == EmptyRow();
      }
    }
    if g == e {
      forall y, x | 0 <= y < Rows && 0 <= x < Cols
        ensures g[y][x] == 0
      {
        assert e[y] == EmptyRow();
      }
    }
  }

  /** A row is full when none of its cells is empty. */
  predicate IsFull(row: Row) {
    forall x | 0 <= x < |row| :: row[x] != 0
  }

  lemma EmptyRowNotFull()
    ensures !IsFull(EmptyRow())
  {
    assert EmptyRow()[0] == 0;
  }

  /**
   * The collision rule for one grid position: outside the columns, below
   * the floor, or an occupied cell of the visible board. Rows above the
   * board (y < 0) never block.
   */
  predicate Blocks(g: Cells, x: int, y: int)
    requires WellFormed(g)
  {
    x < 0 || x >= Cols || y >= Rows || (y >= 0 && g[y][x] != 0)
  }

  predicate Occupied(s: Shape, r: int, c: int) {
    0 <= r < |s| && 0 <= c < |s[r]| && s[r][c] != 0
  }

  /** Block (r, c) of `s`, anchored at (x, y), sits on a blocking position. */
  predicate HitsAt(g: Cells, s: Shape, x: int, y: int, r: int, c: int)
    requires WellFormed(g)
  {
    0 <= r < |s| && 0 <= c < |s[r]| && s[r][c] != 0 && Blocks(g, x + c, y + r)
  }

  /** Some block of row r of `s`, at column c or later, sits on a blocking position. */
  predicate RowCollides(g: Cells, s: Shape, x: int, y: int, r: int, c: nat)
    requires WellFormed(g) && 0 <= r < |s| && c <= |s[r]|
    decreases |s[r]| - c
  {
    c < |s[r]| && (HitsAt(g, s, x, y, r, c) || RowCollides(g, s, x, y, r, c + 1))
  }

  /** Some block of row r of `s` or a later row sits on a blocking position. */
  predicate CollidesFrom(g: Cells, s: Shape, x: int, y: int, r: nat)
    requires WellFormed(g) && r <= |s|
    decreases |s| - r
  {
    r < |s| && (RowCollides(g, s, x, y, r, 0) || CollidesFrom(g, s, x, y, r + 1))
  }

  /**
   * Some block of `s`, anchored at (x, y), sits on a blocking position:
   * the row-major scan of the collision loops. `CollidesIff` gives the
   * same rule as a quantified statement.
   */
  predicate Collides(g: Cells, s: Shape, x: int, y: int)
    requires WellFormed(g)
  {
    CollidesFrom(g, s, x, y, 0)
  }

  lemma {:induction false} RowCollidesIff(g: Cells, s: Shape, x: int, y: int, r: int, c: nat)
    requires WellFormed(g) && 0 <= r < |s| && c <= |s[r]|
    ensures RowCollides(g, s, x, y, r, c) <==> exists k | c <= k < |s[r]| :: HitsAt(g, s, x, y, r, k)
    decreases |s[r]| - c
  {
    if c < |s[r]| {
      RowCollidesIff(g, s, x, y, r, c + 1);
      if exists k | c <= k < |s[r]| :: HitsAt(g, s, x, y, r, k) {
        var k :| c <= k < |s[r]| && HitsAt(g, s, x, y, r, k);
        if k > c {
          assert c + 1 <= k;
        }
      }
    }
  }

  lemma {:induction false} CollidesFromIff(g: Cells, s: Shape, x: int, y: int, r: nat)
    requires WellFormed(g) && r <= |s|
    ensures CollidesFrom(g, s, x, y, r) <==> exists i, k | r <= i < |s| && 0 <= k < |s[i]| :: HitsAt(g, s, x, y, i, k)
    decreases |s| - r
  {
    if r < |s| {
      CollidesFromIff(g, s, x, y, r + 1);
      RowCollidesIff(g, s, x, y, r, 0);
      if exists i, k | r <= i < |s| && 0 <= k < |s[i]| :: HitsAt(g, s, x, y, i, k) {
        var i, k :| r <= i < |s| && 0 <= k < |s[i]| && HitsAt(g, s, x, y, i, k);
        if i > r {
          assert r + 1 <= i;
        }
      }
    }
  }

  /** The collision rule: some occupied cell of the shape lands on a blocking position. */
  lemma CollidesIff(g: Cells, s: Shape, x: int, y: int)
    requires WellFormed(g)
    ensures Collides(g, s, x, y) <==>
      exists r, c | 0 <= r < |s| && 0 <= c < |s[r]| :: s[r][c] != 0 && Blocks(g, x + c, y + r)
  {
    CollidesFromIff(g, s, x, y, 0);
    if exists r, c | 0 <= r < |s| && 0 <= c < |s[r]| :: s[r][c] != 0 && Blocks(g, x + c, y + r) {
      var r, c :| 0 <= r < |s| && 0 <= c < |s[r]| && s[r][c] != 0 && Blocks(g, x + c, y + r);
      assert HitsAt(g, s, x, y, r, c);
    }
  }

  /** A piece that does not collide has every block on a free, on-board or above-board position. */
  lemma FreeBlock(g: Cells, s: Shape, x: int, y: int, r: int, c: int)
    requires WellFormed(g) && !Collides(g, s, x, y)
    requires 0 <= r < |s| && 0 <= c < |s[r]| && s[r][c] != 0
    ensures !Blocks(g, x + c, y + r)
  {
    CollidesFromIff(g, s, x, y, 0);
    assert !HitsAt(g, s, x, y, r, c);
  }

  predicate HasBlock(s: Shape) {
    exists r, c | 0 <= r < |s| && 0 <= c < |s[r]| :: s[r][c] != 0
  }

  /** Any piece with a block collides once it is anchored at or below the floor. */
  lemma FloorCollides(g: Cells, s: Shape, x: int, y: int)
    requires WellFormed(g) && HasBlock(s) && y >= Rows
    ensures Collides(g, s, x, y)
  {
    var r, c :| 0 <= r < |s| && 0 <= c < |s[r]| && s[r][c] != 0;
    assert Blocks(g, x + c, y + r);
    CollidesIff(g, s, x, y);
  }

  lemma FloorCollidesIf(g: Cells, s: Shape, x: int, y: int)
    requires WellFormed(g) && HasBlock(s)
    ensures y >= Rows ==> Collides(g, s, x, y)
  {
    if y >= Rows {
      FloorCollides(g, s, x, y);
    }
  }

  /**
   * The row where a piece dropped from row y comes to rest: the first row
   * from which one more step down collides.
   */
  function DropY(g: Cells, s: Shape, x: int, y: int): (land: int)
    requires WellFormed(g) && HasBlock(s) && y < Rows
    ensures y <= land < Rows
    ensures Collides(g, s, x, land + 1)
    ensures forall k | y < k <= land :: !Collides(g, s, x, k)
    decreases Rows - y
  {
    if Collides(g, s, x, y + 1) then y
    else FloorCollidesIf(g, s, x, y + 1); DropY(g, s, x, y + 1)
  }

  /** One free step down leaves the landing row where it was. */
  lemma DropStep(g: Cells, t: Shape, x: int, y: int)
    requires WellFormed(g) && HasBlock(t) && y < Rows && !Collides(g, t, x, y + 1)
    ensures y + 1 < Rows && DropY(g, t, x, y) == DropY(g, t, x, y + 1)
  {
    FloorCollidesIf(g, t, x, y + 1);
  }

  // ---------------------------------------------------------------------
  // Writing a piece into the grid.

  /** Cell (r, c) of a shape comes before (i, j) in row-major order. */
  predicate Before(r: int, c: int, i: int, j: int) {
    r < i || (r == i && c < j)
  }

  /** Grid cell (col, row) lies under a block of `s` that the row-major scan has passed. */
  predicate CoveredUpTo(s: Shape, x: int, y: int, col: int, row: int, i: int, j: int) {
    Occupied(s, row - y, col - x) && Before(row - y, col - x, i, j)
  }

  /** The grid after the blocks of `s` before (i, j) have been written with value v. */
  function PlacedUpTo(g: Cells, s: Shape, x: int, y: int, v: int, i: int, j: int): (h: Cells)
    requires WellFormed(g)
    ensures WellFormed(h)
  {
    seq(Rows, row requires 0 <= row < Rows =>
      seq(Cols, col requires 0 <= col < Cols =>
        if CoveredUpTo(s, x, y, col, row, i, j) then v else g[row][col]))
  }

  /**
   * The grid with value v written into every on-board cell under a block of
   * `s` anchored at (x, y); blocks off the board are dropped.
   */
  function Placed(g: Cells, s: Shape, x: int, y: int, v: int): (h: Cells)
    requires WellFormed(g)
    ensures WellFormed(h)
  {
    PlacedUpTo(g, s, x, y, v, |s|, 0)
  }

  /** Every cell under a block holds v afterwards; every other cell keeps its value. */
  lemma PlacedCells(g: Cells, s: Shape, x: int, y: int, v: int)
    requires WellFormed(g)
    ensures var h := Placed(g, s, x, y, v);
      forall row, col | 0 <= row < Rows && 0 <= col < Cols ::
        h[row][col] == (if Occupied(s, row - y, col - x) then v else g[row][col])
  {
  }

  lemma PlacedUpToStart(g: Cells, s: Shape, x: int, y: int, v: int)
    requires WellFormed(g)
    ensures PlacedUpTo(g, s, x, y, v, 0, 0) == g
  {
    var h := PlacedUpTo(g, s, x, y, v, 0, 0);
    assert forall row | 0 <= row < Rows :: h[row] == g[row];
  }

  /** Passing a cell that is empty or off the board changes nothing. */
  lemma PlacedUpToSkip(g: Cells, s: Shape, x: int, y: int, v: int, i: int, j: int)
    requires WellFormed(g) && 0 <= i < |s| && 0 <= j < |s[i]|
    requires !(Occupied(s, i, j) && 0 <= x + j < Cols && 0 <= y + i < Rows)
    ensures PlacedUpTo(g, s, x, y, v, i, j + 1) == PlacedUpTo(g, s, x, y, v, i, j)
  {
    var a := PlacedUpTo(g, s, x, y, v, i, j + 1);
    var b := PlacedUpTo(g, s, x, y, v, i, j);
    assert forall row | 0 <= row < Rows :: a[row] == b[row];
  }

  /** Passing an on-board block writes v into exactly its cell. */
  lemma PlacedUpToWrite(g: Cells, s: Shape, x: int, y: int, v: int, i: int, j: int)
    requires WellFormed(g) && 0 <= i < |s| && 0 <= j < |s[i]|
    requires Occupied(s, i, j) && 0 <= x + j < Cols && 0 <= y + i < Rows
    ensures var b := PlacedUpTo(g, s, x, y, v, i, j);
      PlacedUpTo(g, s, x, y, v, i, j + 1) == b[y + i := b[y + i][x + j := v]]
  {
    var a := PlacedUpTo(g, s, x, y, v, i, j + 1);
    var b := PlacedUpTo(g, s, x, y, v, i, j);
    var c := b[y + i := b[y + i][x + j := v]];
    assert forall row | 0 <= row < Rows :: a[row] == c[row];
  }

  /** Finishing a shape row is the same as starting the next one. */
  lemma PlacedUpToNextRow(g: Cells, s: Shape, x: int, y: int, v: int, i: int)
    requires WellFormed(g) && 0 <= i < |s|
    ensures PlacedUpTo(g, s, x, y, v, i, |s[i]|) == PlacedUpTo(g, s, x, y, v, i + 1, 0)
  {
    var a := PlacedUpTo(g, s, x, y, v, i, |s[i]|);
    var b := PlacedUpTo(g, s, x, y, v, i + 1, 0);
    assert forall row | 0 <= row < Rows :: a[row] == b[row];
  }

  // ---------------------------------------------------------------------
  // Removing full rows.

  /** The rows that are not full, in their original order. */
  function NonFull(rows: seq<Row>): seq<Row> {
    if rows == [] then []
    else NonFull(rows[..|rows| - 1]) + (if IsFull(rows[|rows| - 1]) then [] else [rows[|rows| - 1]])
  }

  /** How many rows are full. */
  function CountFull(rows: seq<Row>): (n: nat)
    ensures n <= |rows|
  {
    if rows == [] then 0
    else CountFull(rows[..|rows| - 1]) + (if IsFull(rows[|rows| - 1]) then 1 else 0)
  }

  /**
   * The grid once every full row is gone: the surviving rows keep their
   * order and sink to the bottom, below one empty row per removed row.
   */
  function Compacted(g: Cells): Cells {
    EmptyRows(CountFull(g)) + NonFull(g)
  }

  lemma {:induction false} NonFullSize(rows: seq<Row>)
    ensures |NonFull(rows)| + CountFull(rows) == |rows|
    ensures forall k | 0 <= k < |NonFull(rows)| :: !IsFull(NonFull(rows)[k]) && NonFull(rows)[k] in rows
  {
    if rows != [] {
      NonFullSize(rows[..|rows| - 1]);
    }
  }

  lemma {:induction false} NonFullAppend(a: seq<Row>, b: seq<Row>)
    ensures NonFull(a + b) == NonFull(a) + NonFull(b)
    ensures CountFull(a + b) == CountFull(a) + CountFull(b)
    decreases |b|
  {
    if b == [] {
      assert a + b == a;
    } else {
      var b' := b[..|b| - 1];
      assert (a + b)[..|a + b| - 1] == a + b';
      NonFullAppend(a, b');
    }
  }

  lemma NonFullSingle(r: Row)
    ensures NonFull([r]) == (if IsFull(r) then [] else [r])
    ensures CountFull([r]) == (if IsFull(r) then 1 else 0)
  {
    assert [r][..0] == [];
  }

  /**
   * Compaction keeps the 20 x 10 format, leaves no full row behind, and the
   * number of rows it removes is the number of full rows.
   */
  lemma CompactedShape(g: Cells)
    requires WellFormed(g)
    ensures WellFormed(Compacted(g))
    ensures forall k | 0 <= k < Rows :: !IsFull(Compacted(g)[k])
    ensures forall k | 0 <= k < CountFull(g) :: Compacted(g)[k] == EmptyRow()
  {
    NonFullSize(g);
    EmptyRowNotFull();
    var h := Compacted(g);
    var n := CountFull(g);
    forall k | 0 <= k < Rows
      ensures |h[k]| == Cols && !IsFull(h[k])
    {
      if k >= n {
        assert h[k] == NonFull(g)[k - n];
      }
    }
  }

  /** A grid without full rows is left as it is. */
  lemma {:induction false} NoFullRowsKept(rows: seq<Row>)
    requires forall k | 0 <= k < |rows| :: !IsFull(rows[k])
    ensures NonFull(rows) == rows && CountFull(rows) == 0
  {
    if rows != [] {
      var init, last := rows[..|rows| - 1], rows[|rows| - 1];
      forall k | 0 <= k < |init|
        ensures !IsFull(init[k])
      {
        assert init[k] == rows[k];
      }
      NoFullRowsKept(init);
      assert !IsFull(last);
      assert init + [last] == rows;
    }
  }
}
