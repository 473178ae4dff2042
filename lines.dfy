/**
 * Line clearing: every completely occupied row is deleted and an empty row
 * is inserted at the top for it.
 */
module Lines {
  import opened Config
  import opened Shapes
  import opened Board

  /** Every cell of the row is occupied. */
  predicate Full(row: seq<bool>)
  {
    forall c :: 0 <= c < |row| ==> row[c]
  }

  /** The rows that are not full, in their original order. */
  function Survivors(rows: Matrix): (kept: Matrix)
  {
    if |rows| == 0 then []
    else Survivors(rows[..|rows| - 1]) + (if Full(rows[|rows| - 1]) then [] else [rows[|rows| - 1]])
  }

  /** The number of full rows. */
  function FullCount(rows: Matrix): (n: nat)
  {
    if |rows| == 0 then 0
    else FullCount(rows[..|rows| - 1]) + (if Full(rows[|rows| - 1]) then 1 else 0)
  }

  /** `n` empty rows. */
  function Blank(n: nat): (rows: Matrix)
  {
    seq(n, _ => EmptyRow())
  }

  /** The board after clearing: one empty row per full row on top of the surviving rows. */
  function Cleared(cells: Matrix): (cleared: Matrix)
  {
    Blank(FullCount(cells)) + Survivors(cells)
  }

  /** Each row either survives or is counted as full. */
  lemma {:induction false} SurvivorsSize(rows: Matrix)
    ensures |Survivors(rows)| + FullCount(rows) == |rows|
  {
    if |rows| > 0 {
      SurvivorsSize(rows[..|rows| - 1]);
    }
  }

  /** Survivors are rows of the input: none of them is full, and all have the input's width. */
  lemma {:induction false} SurvivorsRows(rows: Matrix, width: nat)
    requires forall i :: 0 <= i < |rows| ==> |rows[i]| == width
    ensures forall i :: 0 <= i < |Survivors(rows)| ==>
              Survivors(rows)[i] in rows && !Full(Survivors(rows)[i]) && |Survivors(rows)[i]| == width
  {
    if |rows| > 0 {
      var init := rows[..|rows| - 1];
      SurvivorsRows(init, width);
      forall i | 0 <= i < |Survivors(init)| ensures Survivors(init)[i] in rows {
        var j :| 0 <= j < |init| && init[j] == Survivors(init)[i];
        assert rows[j] == init[j];
      }
    }
  }

  /** A stretch of rows none of which is full survives whole and adds nothing to the count. */
  lemma {:induction false} KeepNonFull(rows: Matrix, p: nat, q: nat)
    requires p <= q <= |rows|
    requires forall k :: p <= k < q ==> !Full(rows[k])
    ensures Survivors(rows[..q]) == Survivors(rows[..p]) + rows[p..q]
    ensures FullCount(rows[..q]) == FullCount(rows[..p])
    decreases q - p
  {
    if p < q {
      KeepNonFull(rows, p, q - 1);
      assert rows[..q][..q - 1] == rows[..q - 1];
      assert rows[p..q] == rows[p..q - 1] + [rows[q - 1]];
    }
  }

  /** Clearing keeps the board `Rows` by `Cols`. */
  lemma ClearedShape(cells: Matrix)
    requires GridShaped(cells)
    ensures GridShaped(Cleared(cells))
  {
    SurvivorsSize(cells);
    SurvivorsRows(cells, Cols);
  }

  /**
   * The cleared board: as many empty rows on top as there were full rows,
   * then the rows that were not full, in their original order.
   */
  lemma ClearedLayout(cells: Matrix)
    requires GridShaped(cells)
    ensures var k := FullCount(cells);
            k <= Rows && |Cleared(cells)| == Rows &&
            (forall r :: 0 <= r < k ==> Cleared(cells)[r] == EmptyRow()) &&
            (forall r :: k <= r < Rows ==> Cleared(cells)[r] == Survivors(cells)[r - k])
  {
    SurvivorsSize(cells);
  }

  /** After clearing no row is full: the top rows are empty and the survivors were not full. */
  lemma ClearedHasNoFullRow(cells: Matrix)
    requires GridShaped(cells)
    ensures forall r :: 0 <= r < |Cleared(cells)| ==> !Full(Cleared(cells)[r])
  {
    SurvivorsRows(cells, Cols);
    var n := FullCount(cells);
    forall r | 0 <= r < |Cleared(cells)| ensures !Full(Cleared(cells)[r]) {
      if r < n {
        assert !Cleared(cells)[r][0];
      } else {
        assert Cleared(cells)[r] == Survivors(cells)[r - n];
      }
    }
  }

  /** No full row: nothing is counted and the board is left as it was. */
  lemma ClearedWithoutFullRow(cells: Matrix)
    requires forall r :: 0 <= r < |cells| ==> !Full(cells[r])
    ensures FullCount(cells) == 0 && Cleared(cells) == cells
  {
    KeepNonFull(cells, 0, |cells|);
    assert cells[..|cells|] == cells;
  }

  /** Clearing the cleared board clears nothing more. */
  lemma ClearedIsIdempotent(cells: Matrix)
    requires GridShaped(cells)
    ensures Cleared(Cleared(cells)) == Cleared(cells)
  {
    ClearedHasNoFullRow(cells);
    ClearedWithoutFullRow(Cleared(cells));
  }

  // The two loops of ClearLines, and the proof that together they clear the board.

  /** The strictly increasing full-row indices of `rows`. */
  ghost predicate FullRowsListed(rows: Matrix, lines: seq<nat>)
  {
    (forall a, b :: 0 <= a < b < |lines| ==> lines[a] < lines[b]) &&
    (forall m :: 0 <= m < |lines| ==> lines[m] < |rows|) &&
    (forall j :: 0 <= j < |rows| ==> (Full(rows[j]) <==> j in lines))
  }

  /** The indices of the full rows, in increasing order. */
  method FullRowIndices(cells: Matrix) returns (lines: seq<nat>)
    ensures FullRowsListed(cells, lines)
  {
    lines := [];
    var i := 0;
    while i < |cells|
      invariant 0 <= i <= |cells|
      invariant forall a, b :: 0 <= a < b < |lines| ==> lines[a] < lines[b]
      invariant forall k :: 0 <= k < |lines| ==> lines[k] < i
      invariant forall j :: 0 <= j < i ==> (Full(cells[j]) <==> j in lines)
    {
      if Full(cells[i]) {
        lines := lines + [i];
      }
      i := i + 1;
    }
  }

  /** Row `line` deleted and an empty row inserted at the top. */
  function DeleteRow(cells: Matrix, line: nat): (after: Matrix)
    requires line < |cells|
  {
    [EmptyRow()] + (cells[..line] + cells[line + 1..])
  }

  /** The rows after the first `k` deletions of the `ClearLines` loop, done literally. */
  function AfterDeletions(rows: Matrix, lines: seq<nat>, k: nat): (cells: Matrix)
    requires k <= |lines|
    requires forall m :: 0 <= m < |lines| ==> lines[m] < |rows|
    ensures |cells| == |rows|
  {
    if k == 0 then rows
    else
      var prev := AfterDeletions(rows, lines, k - 1);
      DeleteRow(prev, lines[k - 1])
  }

  /** The number of original rows the first `k` deletions have passed. */
  function Scanned(lines: seq<nat>, k: nat): (passed: nat)
    requires k <= |lines|
  {
    if k == 0 then 0 else lines[k - 1] + 1
  }

  /**
   * With `lines` the full-row indices in increasing order, no row strictly
   * between the (k-1)-th and the k-th of them (or after the last) is full.
   */
  lemma NoFullRowBetween(rows: Matrix, lines: seq<nat>, k: nat)
    requires FullRowsListed(rows, lines)
    requires k <= |lines|
    ensures forall q :: Scanned(lines, k) <= q < (if k < |lines| then lines[k] else |rows|) ==>
              !Full(rows[q])
  {
    var lo := Scanned(lines, k);
    var hi := if k < |lines| then lines[k] else |rows|;
    forall q | lo <= q < hi ensures !Full(rows[q]) {
      forall m | 0 <= m < |lines| ensures lines[m] != q {
        if m < k - 1 {
          assert lines[m] < lines[k - 1];
        } else if k <= m {
          assert lines[k] <= lines[m];
        }
      }
    }
  }

  /**
   * One deletion step of `ClearLines`: with the rows above `done` already
   * cleared and `line` the next full row, the row at index `line` is that
   * full row, and deleting it and inserting an empty row on top clears the
   * rows above `line + 1`.
   */
  lemma DeleteFullRow(cells: Matrix, rows: Matrix, k: nat, done: nat, line: nat)
    requires done <= line < |rows|
    requires cells == Blank(k) + Survivors(rows[..done]) + rows[done..]
    requires FullCount(rows[..done]) == k
    requires forall q :: done <= q < line ==> !Full(rows[q])
    requires Full(rows[line])
    ensures line < |cells| &&
            DeleteRow(cells, line) == Blank(k + 1) + Survivors(rows[..line + 1]) + rows[line + 1..]
    ensures FullCount(rows[..line + 1]) == k + 1
  {
    ClearedUpTo(rows, k, done, line);
    FullRowDropped(rows, line);
    BlankStep(k);
    var top := Blank(k) + Survivors(rows[..line]);
    assert cells == top + rows[line..] && |top| == line;
    DeleteAfterPrefix(top, rows[line..]);
    assert rows[line..][1..] == rows[line + 1..];
  }

  /**
   * The rows from `done` up to the next full row are not full, so the board
   * cleared above `done` is also the board cleared above `line`, with the
   * same count, and that cleared part is exactly `line` rows high.
   */
  lemma ClearedUpTo(rows: Matrix, k: nat, done: nat, line: nat)
    requires done <= line <= |rows|
    requires FullCount(rows[..done]) == k
    requires forall q :: done <= q < line ==> !Full(rows[q])
    ensures Blank(k) + Survivors(rows[..done]) + rows[done..] ==
            Blank(k) + Survivors(rows[..line]) + rows[line..]
    ensures FullCount(rows[..line]) == k && |Blank(k) + Survivors(rows[..line])| == line
  {
    KeepNonFull(rows, done, line);
    SurvivorsSize(rows[..line]);
    assert rows[done..] == rows[done..line] + rows[line..];
  }

  /** Deleting the row just below a prefix keeps the prefix and moves it down one row. */
  lemma DeleteAfterPrefix(top: Matrix, rest: Matrix)
    requires |rest| > 0
    ensures DeleteRow(top + rest, |top|) == [EmptyRow()] + top + rest[1..]
  {
    assert (top + rest)[..|top|] == top;
    assert (top + rest)[|top| + 1..] == rest[1..];
  }

  /** A full row adds one to the count and nothing to the survivors. */
  lemma FullRowDropped(rows: Matrix, line: nat)
    requires line < |rows| && Full(rows[line])
    ensures Survivors(rows[..line + 1]) == Survivors(rows[..line])
    ensures FullCount(rows[..line + 1]) == FullCount(rows[..line]) + 1
  {
    assert rows[..line + 1][..line] == rows[..line];
  }

  /** One more empty row is one empty row on top of the others. */
  lemma BlankStep(k: nat)
    ensures Blank(k + 1) == [EmptyRow()] + Blank(k)
  {
  }

  /** The rows below the last full row survive whole, completing the cleared board. */
  lemma ClearRest(rows: Matrix, k: nat, done: nat)
    requires done <= |rows| && FullCount(rows[..done]) == k
    requires forall q :: done <= q < |rows| ==> !Full(rows[q])
    ensures FullCount(rows) == k
    ensures Blank(k) + Survivors(rows[..done]) + rows[done..] == Cleared(rows)
  {
    KeepNonFull(rows, done, |rows|);
    assert rows[..|rows|] == rows;
  }

  /** After the first `k` deletions, the rows above the k-th full row are cleared and the rest untouched. */
  lemma {:induction false} DeletionsSoFar(rows: Matrix, lines: seq<nat>, k: nat)
    requires FullRowsListed(rows, lines) && k <= |lines|
    ensures Scanned(lines, k) <= |rows|
    ensures FullCount(rows[..Scanned(lines, k)]) == k
    ensures AfterDeletions(rows, lines, k) ==
              Blank(k) + Survivors(rows[..Scanned(lines, k)]) + rows[Scanned(lines, k)..]
  {
    if k > 0 {
      DeletionsSoFar(rows, lines, k - 1);
      var line := lines[k - 1];
      NoFullRowBetween(rows, lines, k - 1);
      assert line in lines;
      DeleteFullRow(AfterDeletions(rows, lines, k - 1), rows, k - 1, Scanned(lines, k - 1), line);
      assert Scanned(lines, k) == line + 1;
    }
  }

  /** Performing every deletion yields the cleared board. */
  lemma DeletionsClear(rows: Matrix, lines: seq<nat>)
    requires FullRowsListed(rows, lines)
    ensures FullCount(rows) == |lines|
    ensures AfterDeletions(rows, lines, |lines|) == Cleared(rows)
  {
    var k := |lines|;
    DeletionsSoFar(rows, lines, k);
    NoFullRowBetween(rows, lines, k);
    ClearRest(rows, k, Scanned(lines, k));
  }

  /**
   * Deletes the full rows and inserts an empty row at the top for each, and
   * returns how many there were. The indices are collected top to bottom, so
   * every deletion sits below the rows already inserted and still finds its row.
   */
  method ClearLines(g: Grid) returns (n: nat)
    requires g.Valid()
    modifies g
    ensures g.Valid()
    ensures n == FullCount(old(g.cells))
    ensures g.cells == Cleared(old(g.cells))
  {
    ghost var rows := g.cells;
    var fullLines := FullRowIndices(g.cells);

    var k := 0;
    while k < |fullLines|
      invariant 0 <= k <= |fullLines|
      invariant g.cells == AfterDeletions(rows, fullLines, k)
    {
      var line := fullLines[k];
      g.cells := g.cells[..line] + g.cells[line + 1..];
      g.cells := [EmptyRow()] + g.cells;
      k := k + 1;
    }
    DeletionsClear(rows, fullLines);
    ClearedShape(rows);
    n := |fullLines|;
  }
}
