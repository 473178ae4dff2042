/** The falling piece: a shape matrix and the grid position of its top-left corner. */
module Pieces {
  import opened Config
  import opened Shapes

  /** The spawn column: the blueprint's box centred on the board (integer division). */
  function SpawnColumn(m: Matrix): (x: int)
    requires |m| >= 1
  {
    Cols / 2 - |m[0]| / 2
  }

  class Tetromino {
    var shape: Matrix
    var x: int
    var y: int

    /** A new piece of the given kind, centred horizontally in the top row. */
    constructor (kind: nat)
      requires kind < KindCount
      ensures shape == Blueprint(kind)
      ensures x == SpawnColumn(shape) && y == 0
    {
      shape := Blueprint(kind);
      x := Cols / 2 - |Blueprint(kind)[0]| / 2;
      y := 0;
    }

    /** Turns the shape a quarter clockwise in place; the position stays. */
    method Rotate()
      modifies this
      ensures shape == Shapes.Rotate(old(shape))
      ensures x == old(x) && y == old(y)
    {
      shape := Shapes.Rotate(shape);
    }
  }
}

/** The grid of settled cells and the collision rules against it. */
module Board {
  import opened Config
  import opened Shapes
  import opened Pieces

  /** `Rows` rows of `Cols` cells each. */
  predicate GridShaped(cells: Matrix)
  {
    IsRect(cells, Rows, Cols)
  }

  /** An empty row of the board. */
  function EmptyRow(): (row: seq<bool>)
  {
    seq(Cols, _ => false)
  }

  /**
   * Column `c`, row `r` (never above the top) lies within the side walls,
   * above the floor, and is empty.
   */
  predicate CellFree(cells: Matrix, c: int, r: int)
    requires GridShaped(cells) && r >= 0
  {
    0 <= c < Cols && r < Rows && !cells[r][c]
  }

  /**
   * Every occupied cell of `shape` placed with its top-left corner at column
   * `px`, row `py` lands on a free cell of the board.
   */
  predicate Fits(cells: Matrix, shape: Matrix, px: int, py: int)
    requires GridShaped(cells) && py >= 0
  {
    forall yy, xx | 0 <= yy < |shape| && 0 <= xx < |shape[yy]| && shape[yy][xx] ::
      CellFree(cells, px + xx, py + yy)
  }

  /** Every occupied cell of the placed shape lies on the board. */
  predicate InBounds(shape: Matrix, px: int, py: int)
  {
    forall yy, xx | 0 <= yy < |shape| && 0 <= xx < |shape[yy]| && shape[yy][xx] ::
      0 <= px + xx < Cols && 0 <= py + yy < Rows
  }

  /** Board cell (r, c) is an occupied cell of the shape placed at (px, py). */
  predicate Covers(shape: Matrix, px: int, py: int, r: int, c: int)
  {
    0 <= r - py < |shape| && 0 <= c - px < |shape[r - py]| && shape[r - py][c - px]
  }

  /** The occupied cells of the shape placed at (px, py), as board (row, column) pairs. */
  function Placed(shape: Matrix, px: int, py: int): (placed: set<(int, int)>)
  {
    set p | p in Cells(shape) :: (p.0 + py, p.1 + px)
  }

  /** The board after the placed shape's cells are written into it. */
  function Lock(cells: Matrix, shape: Matrix, px: int, py: int): (locked: Matrix)
    requires GridShaped(cells)
  {
    seq(Rows, r requires 0 <= r < Rows =>
      seq(Cols, c requires 0 <= c < Cols => cells[r][c] || Covers(shape, px, py, r, c)))
  }

  /** A piece that fits from a row at or below the top lies on the board. */
  lemma FitsInBounds(cells: Matrix, shape: Matrix, px: int, py: int)
    requires GridShaped(cells) && py >= 0
    requires Fits(cells, shape, px, py)
    ensures InBounds(shape, px, py)
  {
  }

  /** A freshly spawned blueprint lies on the board. */
  lemma SpawnInBounds(kind: nat)
    requires kind < KindCount
    ensures InBounds(Blueprint(kind), SpawnColumn(Blueprint(kind)), 0)
  {
  }

  /** Locking adds exactly the placed shape's cells to the occupied cells of the board. */
  lemma LockAddsPlacedCells(cells: Matrix, shape: Matrix, px: int, py: int)
    requires GridShaped(cells) && InBounds(shape, px, py)
    ensures Cells(Lock(cells, shape, px, py)) == Cells(cells) + Placed(shape, px, py)
  {
    var locked := Lock(cells, shape, px, py);
    var placed := Placed(shape, px, py);
    forall q | q in Cells(locked) ensures q in Cells(cells) + placed {
      if !cells[q.0][q.1] {
        assert (q.0 - py, q.1 - px) in Cells(shape);
      }
    }
    forall q | q in placed ensures q in Cells(locked) {
      var p :| p in Cells(shape) && q == (p.0 + py, p.1 + px);
      assert Covers(shape, px, py, q.0, q.1);
    }
  }

  /** A piece that fits covers no occupied cell. */
  lemma FitsMeansDisjoint(cells: Matrix, shape: Matrix, px: int, py: int)
    requires GridShaped(cells) && py >= 0 && Fits(cells, shape, px, py)
    ensures Cells(cells) !! Placed(shape, px, py)
  {
    forall q | q in Placed(shape, px, py) ensures q !in Cells(cells) {
      var p :| p in Cells(shape) && q == (p.0 + py, p.1 + px);
      assert CellFree(cells, px + p.1, py + p.0);
    }
  }

  /** Locking a piece that fits adds as many occupied cells as the shape has. */
  lemma LockCellCount(cells: Matrix, shape: Matrix, px: int, py: int)
    requires GridShaped(cells) && py >= 0 && Fits(cells, shape, px, py)
    ensures |Cells(Lock(cells, shape, px, py))| == |Cells(cells)| + |Cells(shape)|
  {
    FitsInBounds(cells, shape, px, py);
    LockAddsPlacedCells(cells, shape, px, py);
    FitsMeansDisjoint(cells, shape, px, py);
    var shift := (p: (int, int)) => (p.0 + py, p.1 + px);
    InjectiveImageSize(Cells(shape), shift);
    assert (set p | p in Cells(shape) :: shift(p)) == Placed(shape, px, py);
  }

  class Grid {
    var cells: Matrix

    ghost predicate Valid()
      reads this
    {
      GridShaped(cells)
    }

    /** An empty `Rows` by `Cols` board. */
    constructor ()
      ensures Valid()
      ensures forall r, c | 0 <= r < Rows && 0 <= c < Cols :: !cells[r][c]
      ensures Cells(cells) == {}
    {
      cells := seq(Rows, _ => EmptyRow());
    }

    /** Writes the piece's occupied cells into the board (locking it). */
    method AddTetromino(t: Tetromino)
      requires Valid() && InBounds(t.shape, t.x, t.y)
      modifies this
      ensures Valid()
      ensures cells == Lock(old(cells), t.shape, t.x, t.y)
    {
      var yy := 0;
      while yy < |t.shape|
        invariant 0 <= yy <= |t.shape|
        invariant GridShaped(cells)
        invariant forall r, c | 0 <= r < Rows && 0 <= c < Cols ::
                    cells[r][c] == (old(cells)[r][c] || (Covers(t.shape, t.x, t.y, r, c) && r - t.y < yy))
      {
        var xx := 0;
        while xx < |t.shape[yy]|
          invariant 0 <= xx <= |t.shape[yy]|
          invariant GridShaped(cells)
          invariant forall r, c | 0 <= r < Rows && 0 <= c < Cols ::
                      cells[r][c] == (old(cells)[r][c] ||
                        (Covers(t.shape, t.x, t.y, r, c) &&
                         (r - t.y < yy || (r - t.y == yy && c - t.x < xx))))
        {
          if t.shape[yy][xx] {
            var r, c := t.y + yy, t.x + xx;
            cells := cells[r := cells[r][c := true]];
          }
          xx := xx + 1;
        }
        yy := yy + 1;
      }
      assert forall r | 0 <= r < Rows :: cells[r] == Lock(old(cells), t.shape, t.x, t.y)[r];
    }

    /**
     * Whether the piece, moved by (dx, dy), fits on the board. The scan stops
     * at the first occupied cell that lands outside the walls, below the
     * floor or on a settled cell.
     */
    method CanMove(t: Tetromino, dx: int, dy: int) returns (ok: bool)
      requires Valid() && t.y + dy >= 0
      ensures ok == Fits(cells, t.shape, t.x + dx, t.y + dy)
    {
      var yy := 0;
      while yy < |t.shape|
        invariant 0 <= yy <= |t.shape|
        invariant forall a, b | 0 <= a < yy && 0 <= b < |t.shape[a]| && t.shape[a][b] ::
                    CellFree(cells, t.x + dx + b, t.y + dy + a)
      {
        var xx := 0;
        while xx < |t.shape[yy]|
          invariant 0 <= xx <= |t.shape[yy]|
          invariant forall a, b | 0 <= a < yy && 0 <= b < |t.shape[a]| && t.shape[a][b] ::
                      CellFree(cells, t.x + dx + b, t.y + dy + a)
          invariant forall b | 0 <= b < xx && t.shape[yy][b] ::
                      CellFree(cells, t.x + dx + b, t.y + dy + yy)
        {
          if t.shape[yy][xx] {
            var nx, ny := t.x + xx + dx, t.y + yy + dy;
            if nx < 0 || nx >= Cols || ny >= Rows || cells[ny][nx] {
              assert !CellFree(cells, t.x + dx + xx, t.y + dy + yy);
              return false;
            }
          }
          xx := xx + 1;
        }
        yy := yy + 1;
      }
      return true;
    }
  }

  /**
   * Whether the piece, turned a quarter clockwise, would fit where it is.
   * Nothing in the game calls it; the up key rotates and checks `CanMove`.
   */
  method CanRotate(g: Grid, t: Tetromino) returns (ok: bool)
    requires g.Valid() && t.y >= 0
    ensures ok == Fits(g.cells, Shapes.Rotate(t.shape), t.x, t.y)
  {
    var rotated := Shapes.Rotate(t.shape);
    var yy := 0;
    while yy < |rotated|
      invariant 0 <= yy <= |rotated|
      invariant forall a, b | 0 <= a < yy && 0 <= b < |rotated[a]| && rotated[a][b] ::
                  CellFree(g.cells, t.x + b, t.y + a)
    {
      var xx := 0;
      while xx < |rotated[yy]|
        invariant 0 <= xx <= |rotated[yy]|
        invariant forall a, b | 0 <= a < yy && 0 <= b < |rotated[a]| && rotated[a][b] ::
                    CellFree(g.cells, t.x + b, t.y + a)
        invariant forall b | 0 <= b < xx && rotated[yy][b] :: CellFree(g.cells, t.x + b, t.y + yy)
      {
        if rotated[yy][xx] {
          var nx, ny := t.x + xx, t.y + yy;
          if nx < 0 || nx >= Cols || ny >= Rows || g.cells[ny][nx] {
            assert !CellFree(g.cells, t.x + xx, t.y + yy);
            return false;
          }
        }
        xx := xx + 1;
      }
      yy := yy + 1;
    }
    return true;
  }

  /** The game is over when the piece does not fit where it stands. */
  method IsGameOver(g: Grid, t: Tetromino) returns (over: bool)
    requires g.Valid() && t.y >= 0
    ensures over <==> !Fits(g.cells, t.shape, t.x, t.y)
  {
    var ok := g.CanMove(t, 0, 0);
    return !ok;
  }
}
