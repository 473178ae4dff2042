/**
 * The rules the game loop applies each frame: clock, moves, rotation and
 * gravity with locking, line clearing, scoring, respawn and game over.
 */
module Game {
  import opened Config
  import opened Shapes
  import opened Pieces
  import opened Board
  import opened Lines
  import Timing

  /** Points per cleared line. */
  const LinePoints: nat := 100

  class Engine {
    const grid: Grid
    var piece: Tetromino
    var score: nat
    var fallingTime: nat
    var elapsedTime: nat
    var gameOver: bool

    /**
     * The board keeps its size; the piece is a non-empty rectangle on the
     * board, and it overlaps no settled cell unless the game is over.
     */
    ghost predicate Valid()
      reads this, grid, piece
    {
      grid.Valid() &&
      WellShaped(piece.shape) && piece.y >= 0 && InBounds(piece.shape, piece.x, piece.y) &&
      (!gameOver ==> Fits(grid.cells, piece.shape, piece.x, piece.y))
    }

    /** The current level, from the time played. */
    function Level(): (level: int)
      reads this
    {
      Timing.Level(elapsedTime)
    }

    /** Enough time has gone by since the last descent for gravity to act. */
    ghost predicate GravityDue()
      reads this
    {
      fallingTime > Timing.FallingSpeed(Level())
    }

    /** A new game: an empty board, a first piece of the given kind, nothing scored. */
    constructor (kind: nat)
      requires kind < KindCount
      ensures Valid() && fresh(grid) && fresh(piece)
      ensures Cells(grid.cells) == {}
      ensures piece.shape == Blueprint(kind) && piece.x == SpawnColumn(piece.shape) && piece.y == 0
      ensures score == 0 && fallingTime == 0 && elapsedTime == 0 && !gameOver
    {
      grid := new Grid();
      piece := new Tetromino(kind);
      score, fallingTime, elapsedTime := 0, 0, 0;
      gameOver := false;
    }

    /** The clock advanced by `dt` milliseconds. */
    method Advance(dt: nat)
      modifies this
      ensures fallingTime == old(fallingTime) + dt && elapsedTime == old(elapsedTime) + dt
      ensures piece == old(piece) && score == old(score) && gameOver == old(gameOver)
    {
      fallingTime := fallingTime + dt;
      elapsedTime := elapsedTime + dt;
    }

    /** One column to the left, if the piece fits there. */
    method MoveLeft()
      requires Valid()
      modifies piece
      ensures Valid()
      ensures piece.shape == old(piece.shape) && piece.y == old(piece.y)
      ensures piece.x == if Fits(grid.cells, piece.shape, old(piece.x) - 1, piece.y)
                         then old(piece.x) - 1 else old(piece.x)
    {
      var ok := grid.CanMove(piece, -1, 0);
      if ok {
        piece.x := piece.x - 1;
        FitsInBounds(grid.cells, piece.shape, piece.x, piece.y);
      }
    }

    /** One column to the right, if the piece fits there. */
    method MoveRight()
      requires Valid()
      modifies piece
      ensures Valid()
      ensures piece.shape == old(piece.shape) && piece.y == old(piece.y)
      ensures piece.x == if Fits(grid.cells, piece.shape, old(piece.x) + 1, piece.y)
                         then old(piece.x) + 1 else old(piece.x)
    {
      var ok := grid.CanMove(piece, 1, 0);
      if ok {
        piece.x := piece.x + 1;
        FitsInBounds(grid.cells, piece.shape, piece.x, piece.y);
      }
    }

    /** One row down, if the piece fits there; a successful drop restarts the gravity timer. */
    method SoftDrop()
      requires Valid()
      modifies this, piece
      ensures Valid()
      ensures piece == old(piece) && piece.shape == old(piece.shape) && piece.x == old(piece.x)
      ensures var moved := Fits(grid.cells, piece.shape, piece.x, old(piece.y) + 1);
              piece.y == (if moved then old(piece.y) + 1 else old(piece.y)) &&
              fallingTime == (if moved then 0 else old(fallingTime))
      ensures score == old(score) && elapsedTime == old(elapsedTime) && gameOver == old(gameOver)
    {
      var ok := grid.CanMove(piece, 0, 1);
      if ok {
        piece.y := piece.y + 1;
        fallingTime := 0;
        FitsInBounds(grid.cells, piece.shape, piece.x, piece.y);
      }
    }

    /**
     * The up key: turn the piece a quarter clockwise; if it does not fit
     * there, turn it three more quarters, back to where it started.
     */
    method RotatePiece()
      requires Valid()
      modifies piece
      ensures Valid()
      ensures piece.x == old(piece.x) && piece.y == old(piece.y)
      ensures piece.shape == if Fits(grid.cells, Shapes.Rotate(old(piece.shape)), piece.x, piece.y)
                             then Shapes.Rotate(old(piece.shape)) else old(piece.shape)
    {
      ghost var original := piece.shape;
      RotateWellShaped(original);
      piece.Rotate();
      var ok := grid.CanMove(piece, 0, 0);
      assert piece.shape == Shapes.Rotate(original);
      // CanMove speaks of `piece.x + 0`; the solver needs it equated with the position.
      assert piece.x + 0 == old(piece.x);
      assert ok == Fits(grid.cells, Shapes.Rotate(original), old(piece.x), old(piece.y));
      if !ok {
        piece.Rotate();
        piece.Rotate();
        piece.Rotate();
        RotateFourTimes(original);
      } else {
        FitsInBounds(grid.cells, piece.shape, piece.x, piece.y);
      }
    }

    /**
     * The piece cannot fall further: its cells are written into the board,
     * full lines are cleared and scored, a piece of kind `kind` is spawned,
     * and the game is over if that piece does not fit.
     */
    method Settle(kind: nat)
      requires Valid() && kind < KindCount
      modifies this, grid, piece
      ensures Valid()
      ensures fallingTime == old(fallingTime) && elapsedTime == old(elapsedTime)
      ensures var locked := Lock(old(grid.cells), old(piece.shape), old(piece.x), old(piece.y));
              grid.cells == Cleared(locked) &&
              score == old(score) + LinePoints * FullCount(locked)
      ensures fresh(piece) && piece.shape == Blueprint(kind)
      ensures piece.x == SpawnColumn(piece.shape) && piece.y == 0
      ensures gameOver == (old(gameOver) || !Fits(grid.cells, piece.shape, piece.x, piece.y))
    {
      ghost var locked := Lock(grid.cells, piece.shape, piece.x, piece.y);
      grid.AddTetromino(piece);
      assert grid.cells == locked;
      var lines := ClearLines(grid);
      assert grid.cells == Cleared(locked) && lines == FullCount(locked);
      score := score + lines * LinePoints;
      piece := new Tetromino(kind);
      SpawnInBounds(kind);
      var over := IsGameOver(grid, piece);
      if over {
        gameOver := true;
      }
    }

    /**
     * Gravity, once the interval for the current level has passed: the piece
     * falls one row if it fits there and settles otherwise. Either way the
     * gravity timer restarts.
     */
    method Gravity(kind: nat)
      requires Valid() && kind < KindCount
      modifies this, grid, piece
      ensures Valid()
      ensures elapsedTime == old(elapsedTime)
      ensures score >= old(score) && (old(gameOver) ==> gameOver)
      ensures !old(GravityDue()) ==>
                fallingTime == old(fallingTime) && piece == old(piece) &&
                piece.x == old(piece.x) && piece.y == old(piece.y) && piece.shape == old(piece.shape) &&
                grid.cells == old(grid.cells) && score == old(score) && gameOver == old(gameOver)
      ensures old(GravityDue()) ==> fallingTime == 0
      ensures old(GravityDue()) && Fits(old(grid.cells), old(piece.shape), old(piece.x), old(piece.y) + 1) ==>
                piece == old(piece) &&
                piece.x == old(piece.x) && piece.y == old(piece.y) + 1 && piece.shape == old(piece.shape) &&
                grid.cells == old(grid.cells) && score == old(score) && gameOver == old(gameOver)
      ensures old(GravityDue()) && !Fits(old(grid.cells), old(piece.shape), old(piece.x), old(piece.y) + 1) ==>
                var locked := Lock(old(grid.cells), old(piece.shape), old(piece.x), old(piece.y));
                grid.cells == Cleared(locked) &&
                score == old(score) + LinePoints * FullCount(locked) &&
                fresh(piece) && piece.shape == Blueprint(kind) &&
                piece.x == SpawnColumn(piece.shape) && piece.y == 0 &&
                gameOver == (old(gameOver) || !Fits(grid.cells, piece.shape, piece.x, piece.y))
    {
      if fallingTime > Timing.FallingSpeed(Timing.Level(elapsedTime)) {
        var down := grid.CanMove(piece, 0, 1);
        // CanMove speaks of `piece.x + 0`; the solver needs it equated with the position.
        assert piece.x + 0 == piece.x;
        assert down == Fits(grid.cells, piece.shape, piece.x, piece.y + 1);
        if down {
          piece.y := piece.y + 1;
          FitsInBounds(grid.cells, piece.shape, piece.x, piece.y);
        } else {
          Settle(kind);
        }
        fallingTime := 0;
      }
    }

    /**
     * One frame of the game loop: the clock advances by `dt`, the held keys
     * move the piece (left, then right, then down), each press of the up key
     * rotates it, and gravity acts; `kind` is the piece spawned if one locks.
     */
    method Tick(dt: nat, left: bool, right: bool, down: bool, rotations: nat, kind: nat)
      requires Valid() && kind < KindCount
      modifies this, grid, piece
      ensures Valid()
      ensures elapsedTime == old(elapsedTime) + dt
      ensures score >= old(score) && (old(gameOver) ==> gameOver)
    {
      Advance(dt);
      if left {
        MoveLeft();
      }
      if right {
        MoveRight();
      }
      if down {
        SoftDrop();
      }
      var i := 0;
      while i < rotations
        invariant Valid() && piece == old(piece)
        invariant elapsedTime == old(elapsedTime) + dt
        invariant score == old(score) && gameOver == old(gameOver)
      {
        RotatePiece();
        i := i + 1;
      }
      Gravity(kind);
    }
  }
}
