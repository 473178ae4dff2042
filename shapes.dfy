/** Board dimensions, fixed by the screen size and the cell size in pixels. */
module Config {
  const ScreenWidth: nat := 800
  const ScreenHeight: nat := 600
  const GridSize: nat := 30

  /** Number of grid rows: 600 / 30 == 20. */
  const Rows: nat := ScreenHeight / GridSize
  /** Number of grid columns: 800 / 30 == 26 (integer division). */
  const Cols: nat := ScreenWidth / GridSize
}

/**
 * The seven tetromino blueprints and the clockwise rotation of a 0/1 matrix.
 * A matrix is a list of rows; row 0 is the top row, column 0 the left one.
 */
module Shapes {

  type Matrix = seq<seq<bool>>

  /** Every row of `m` has `c` cells and there are `r` rows. */
  predicate IsRect(m: Matrix, r: nat, c: nat)
  {
    |m| == r && forall i :: 0 <= i < |m| ==> |m[i]| == c
  }

  /** A non-empty rectangular matrix with at least one column. */
  predicate WellShaped(m: Matrix)
  {
    |m| >= 1 && |m[0]| >= 1 && IsRect(m, |m|, |m[0]|)
  }

  /** The occupied cells of `m`, as (row, column) pairs. */
  function Cells(m: Matrix): (cells: set<(int, int)>)
  {
    set y, x | 0 <= y < |m| && 0 <= x < |m[y]| && m[y][x] :: (y, x)
  }

  const Empty := false
  const Block := true

  /** The spawn orientations, in the order I, J, L, O, S, T, Z. */
  const Catalog: seq<Matrix> := [
    [[Empty, Empty, Empty, Empty],
     [Block, Block, Block, Block],
     [Empty, Empty, Empty, Empty],
     [Empty, Empty, Empty, Empty]],
    [[Block, Empty, Empty],
     [Block, Block, Block],
     [Empty, Empty, Empty]],
    [[Empty, Empty, Block],
     [Block, Block, Block],
     [Empty, Empty, Empty]],
    [[Block, Block],
     [Block, Block]],
    [[Empty, Block, Block],
     [Block, Block, Empty],
     [Empty, Empty, Empty]],
    [[Empty, Block, Empty],
     [Block, Block, Block],
     [Empty, Empty, Empty]],
    [[Block, Block, Empty],
     [Empty, Block, Block],
     [Empty, Empty, Empty]]
  ]

  const KindCount: nat := 7

  /** The blueprint of piece `kind`: square, two to four cells a side, four cells occupied. */
  function Blueprint(kind: nat): (m: Matrix)
    requires kind < KindCount
    ensures WellShaped(m) && |m| == |m[0]| && 2 <= |m| <= 4
    ensures |Cells(m)| == 4
  {
    CatalogShapes(kind);
    Catalog[kind]
  }

  lemma CatalogShapes(kind: nat)
    requires kind < KindCount
    ensures WellShaped(Catalog[kind]) && |Catalog[kind]| == |Catalog[kind][0]|
    ensures 2 <= |Catalog[kind]| <= 4
    ensures |Cells(Catalog[kind])| == 4
  {
    CatalogCells(kind);
  }

  /** Each blueprint has exactly four occupied cells. */
  lemma CatalogCells(kind: nat)
    requires kind < KindCount
    ensures |Cells(Catalog[kind])| == 4
  {
    match kind
    case 0 => ICells();
    case 1 => JCells();
    case 2 => LCells();
    case 3 => OCells();
    case 4 => SCells();
    case 5 => TCells();
    case _ => ZCells();
  }

  lemma ICells()
    ensures Cells(Catalog[0]) == {(1, 0), (1, 1), (1, 2), (1, 3)}
  {
  }

  lemma JCells()
    ensures Cells(Catalog[1]) == {(0, 0), (1, 0), (1, 1), (1, 2)}
  {
  }

  lemma LCells()
    ensures Cells(Catalog[2]) == {(0, 2), (1, 0), (1, 1), (1, 2)}
  {
  }

  lemma OCells()
    ensures Cells(Catalog[3]) == {(0, 0), (0, 1), (1, 0), (1, 1)}
  {
  }

  lemma SCells()
    ensures Cells(Catalog[4]) == {(0, 1), (0, 2), (1, 0), (1, 1)}
  {
  }

  lemma TCells()
    ensures Cells(Catalog[5]) == {(0, 1), (1, 0), (1, 1), (1, 2)}
  {
  }

  lemma ZCells()
    ensures Cells(Catalog[6]) == {(0, 0), (0, 1), (1, 1), (1, 2)}
  {
  }

  function Min(a: nat, b: nat): (least: nat) { if a <= b then a else b }

  /**
   * The length of the shortest row, 0 when there are no rows: the number of
   * tuples `zip` yields over the rows of `m`.
   */
  function ZipWidth(m: Matrix): (w: nat)
    ensures forall i :: 0 <= i < |m| ==> w <= |m[i]|
    ensures |m| > 0 ==> exists i :: 0 <= i < |m| && w == |m[i]|
  {
    if |m| == 0 then 0
    else if |m| == 1 then |m[0]|
    else Min(|m[0]|, ZipWidth(m[1..]))
  }

  /** Column `i` of `m` read from the bottom row up: the i-th tuple of `zip(*reversed(m))`. */
  function Column(m: Matrix, i: nat): (col: seq<bool>)
    requires i < ZipWidth(m)
  {
    seq(|m|, j requires 0 <= j < |m| => m[|m| - 1 - j][i])
  }

  /** The tuples `zip` yields from the i-th on. */
  function ColumnsFrom(m: Matrix, i: nat): (cols: Matrix)
    requires i <= ZipWidth(m)
    decreases ZipWidth(m) - i
  {
    if i == ZipWidth(m) then [] else [Column(m, i)] + ColumnsFrom(m, i + 1)
  }

  /**
   * `zip(*reversed(m))`: row i of the result is column i of `m` read from
   * the bottom row up, which turns the matrix 90 degrees clockwise.
   */
  function Rotate(m: Matrix): (turned: Matrix)
  {
    ColumnsFrom(m, 0)
  }

  /** `ColumnsFrom(m, i)` lists the columns i, i + 1, ... in order. */
  lemma {:induction false} ColumnsFromAt(m: Matrix, i: nat)
    requires i <= ZipWidth(m)
    ensures |ColumnsFrom(m, i)| == ZipWidth(m) - i
    ensures forall k :: 0 <= k < ZipWidth(m) - i ==> ColumnsFrom(m, i)[k] == Column(m, i + k)
    decreases ZipWidth(m) - i
  {
    if i < ZipWidth(m) {
      ColumnsFromAt(m, i + 1);
      var tail := ColumnsFrom(m, i + 1);
      assert ColumnsFrom(m, i) == [Column(m, i)] + tail;
      forall k | 0 < k < ZipWidth(m) - i ensures ColumnsFrom(m, i)[k] == Column(m, i + k) {
        assert ColumnsFrom(m, i)[k] == tail[k - 1];
      }
    }
  }

  /** An r-by-c matrix turns into a c-by-r one with out[i][j] == in[r-1-j][i]. */
  lemma RotateRect(m: Matrix)
    requires WellShaped(m)
    ensures WellShaped(Rotate(m))
    ensures IsRect(Rotate(m), |m[0]|, |m|)
    ensures forall i, j :: 0 <= i < |m[0]| && 0 <= j < |m| ==>
              Rotate(m)[i][j] == m[|m| - 1 - j][i]
  {
    var w := ZipWidth(m);
    assert w <= |m[0]|;
    var k :| 0 <= k < |m| && w == |m[k]|;
    ColumnsFromAt(m, 0);
  }

  /** A quarter turn of a non-empty rectangle is a non-empty rectangle. */
  lemma RotateWellShaped(m: Matrix)
    requires WellShaped(m)
    ensures WellShaped(Rotate(m)) && |Rotate(m)| == |m[0]| && |Rotate(m)[0]| == |m|
  {
    RotateRect(m);
  }

  /** Rotation moves the occupied cell (y, x) of an r-row matrix to (x, r - 1 - y). */
  lemma RotateCells(m: Matrix)
    requires WellShaped(m)
    ensures Cells(Rotate(m)) == set p | p in Cells(m) :: (p.1, |m| - 1 - p.0)
  {
    RotateRect(m);
    var r := Rotate(m);
    var image := set p | p in Cells(m) :: (p.1, |m| - 1 - p.0);
    forall q | q in Cells(r) ensures q in image {
      var p := (|m| - 1 - q.1, q.0);
      assert p in Cells(m);
    }
    forall q | q in image ensures q in Cells(r) {
      var p :| p in Cells(m) && q == (p.1, |m| - 1 - p.0);
      assert r[q.0][q.1] == m[p.0][p.1];
    }
  }

  /** A map that sends no two cells to the same cell keeps the number of cells of any set. */
  lemma {:induction false} InjectiveImageSize(s: set<(int, int)>, f: ((int, int)) -> (int, int))
    requires forall a, b :: f(a) == f(b) ==> a == b
    ensures |set p | p in s :: f(p)| == |s|
    decreases |s|
  {
    if s != {} {
      var q :| q in s;
      var rest := s - {q};
      InjectiveImageSize(rest, f);
      var image := set p | p in s :: f(p);
      var restImage := set p | p in rest :: f(p);
      assert image == restImage + {f(q)};
      assert f(q) !in restImage;
    }
  }

  /** Rotation keeps the number of occupied cells. */
  lemma RotateKeepsCellCount(m: Matrix)
    requires WellShaped(m)
    ensures |Cells(Rotate(m))| == |Cells(m)|
  {
    RotateCells(m);
    var turn := (p: (int, int)) => (p.1, |m| - 1 - p.0);
    InjectiveImageSize(Cells(m), turn);
    assert (set p | p in Cells(m) :: turn(p)) == set p | p in Cells(m) :: (p.1, |m| - 1 - p.0);
  }

  /** Two quarter turns turn the matrix upside down: out[i][j] == in[r-1-i][c-1-j]. */
  lemma RotateTwice(m: Matrix)
    requires WellShaped(m)
    ensures WellShaped(Rotate(Rotate(m)))
    ensures IsRect(Rotate(Rotate(m)), |m|, |m[0]|)
    ensures forall i, j :: 0 <= i < |m| && 0 <= j < |m[0]| ==>
              Rotate(Rotate(m))[i][j] == m[|m| - 1 - i][|m[0]| - 1 - j]
  {
    RotateRect(m);
    RotateRect(Rotate(m));
  }

  /** Two r-by-c matrices that agree cell by cell are equal. */
  lemma SameCells(a: Matrix, b: Matrix, r: nat, c: nat)
    requires IsRect(a, r, c) && IsRect(b, r, c)
    requires forall i, j :: 0 <= i < r && 0 <= j < c ==> a[i][j] == b[i][j]
    ensures a == b
  {
    forall i | 0 <= i < r ensures a[i] == b[i] {
    }
  }

  /** Four quarter turns give back the original matrix. */
  lemma RotateFourTimes(m: Matrix)
    requires WellShaped(m)
    ensures Rotate(Rotate(Rotate(Rotate(m)))) == m
  {
    var r, c := |m|, |m[0]|;
    var m2 := Rotate(Rotate(m));
    RotateTwice(m);
    RotateTwice(m2);
    SameCells(Rotate(Rotate(m2)), m, r, c);
  }
}
