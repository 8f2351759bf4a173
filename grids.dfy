// Rectangular grids as sequences of rows, shared by the Game of Life engine
// and the Minesweeper board: the value view of a two-dimensional array, and
// the number of cells holding a given boolean.

module Grids {

  /** g has exactly `rows` rows of exactly `cols` cells each. */
  predicate IsGrid<T>(g: seq<seq<T>>, rows: nat, cols: nat) {
    |g| == rows && forall r :: 0 <= r < rows ==> |g[r]| == cols
  }

  /** Two grids of the same shape that agree on every cell are equal. */
  lemma GridExtensionality<T>(a: seq<seq<T>>, b: seq<seq<T>>, rows: nat, cols: nat)
    requires IsGrid(a, rows, cols) && IsGrid(b, rows, cols)
    requires forall r, c :: 0 <= r < rows && 0 <= c < cols ==> a[r][c] == b[r][c]
    ensures a == b
  {
    forall r | 0 <= r < rows
      ensures a[r] == b[r]
    {
      assert |a[r]| == |b[r]| == cols;
      assert forall c :: 0 <= c < cols ==> a[r][c] == b[r][c];
    }
  }

  /** The rows × cols grid whose every cell is v. */
  function Filled<T>(rows: nat, cols: nat, v: T): (g: seq<seq<T>>)
    ensures IsGrid(g, rows, cols)
    ensures forall r, c :: 0 <= r < rows && 0 <= c < cols ==> g[r][c] == v
  {
    seq(rows, _ => seq(cols, _ => v))
  }

  /** The contents of a two-dimensional array, row by row. */
  ghost function ArrayCells<T>(a: array2<T>): (g: seq<seq<T>>)
    reads a
    ensures IsGrid(g, a.Length0, a.Length1)
    ensures forall r, c :: 0 <= r < a.Length0 && 0 <= c < a.Length1 ==> g[r][c] == a[r, c]
  {
    seq(a.Length0, r requires 0 <= r < a.Length0 reads a =>
      seq(a.Length1, c requires 0 <= c < a.Length1 reads a => a[r, c]))
  }

  /** The number of entries of one row equal to v. */
  function RowCount(row: seq<bool>, v: bool): nat {
    if |row| == 0 then 0
    else RowCount(row[..|row| - 1], v) + (if row[|row| - 1] == v then 1 else 0)
  }

  /** The number of cells of g equal to v. */
  function CountIn(g: seq<seq<bool>>, v: bool): nat {
    if |g| == 0 then 0
    else CountIn(g[..|g| - 1], v) + RowCount(g[|g| - 1], v)
  }

  /** Setting one entry that is not v to v adds one v and removes one !v. */
  lemma {:induction false} RowCountSet(row: seq<bool>, c: nat, v: bool)
    requires c < |row| && row[c] != v
    ensures RowCount(row[c := v], v) == RowCount(row, v) + 1
    ensures RowCount(row[c := v], !v) + 1 == RowCount(row, !v)
  {
    var n := |row|;
    var row' := row[c := v];
    if c == n - 1 {
      assert row'[..n - 1] == row[..n - 1];
    } else {
      assert row'[..n - 1] == row[..n - 1][c := v];
      RowCountSet(row[..n - 1], c, v);
    }
  }

  /** Setting one cell that is not v to v adds one v and removes one !v. */
  lemma {:induction false} CountSet(g: seq<seq<bool>>, r: nat, c: nat, v: bool)
    requires r < |g| && c < |g[r]| && g[r][c] != v
    ensures CountIn(g[r := g[r][c := v]], v) == CountIn(g, v) + 1
    ensures CountIn(g[r := g[r][c := v]], !v) + 1 == CountIn(g, !v)
  {
    var n := |g|;
    var g' := g[r := g[r][c := v]];
    if r == n - 1 {
      assert g'[..n - 1] == g[..n - 1];
      RowCountSet(g[r], c, v);
    } else {
      assert g'[..n - 1] == g[..n - 1][r := g[r][c := v]];
      CountSet(g[..n - 1], r, c, v);
    }
  }

  /** A row whose true entries are all true in another has no more trues and no fewer falses. */
  lemma {:induction false} RowCountMonotone(a: seq<bool>, b: seq<bool>)
    requires |a| == |b|
    requires forall i :: 0 <= i < |a| && a[i] ==> b[i]
    ensures RowCount(a, true) <= RowCount(b, true)
    ensures RowCount(b, false) <= RowCount(a, false)
  {
    if |a| > 0 {
      RowCountMonotone(a[..|a| - 1], b[..|b| - 1]);
    }
  }

  /** Growing the set of true cells of a grid never lowers its true count nor raises its false count. */
  lemma {:induction false} CountMonotone(a: seq<seq<bool>>, b: seq<seq<bool>>, rows: nat, cols: nat)
    requires IsGrid(a, rows, cols) && IsGrid(b, rows, cols)
    requires forall r, c :: 0 <= r < rows && 0 <= c < cols && a[r][c] ==> b[r][c]
    ensures CountIn(a, true) <= CountIn(b, true)
    ensures CountIn(b, false) <= CountIn(a, false)
  {
    if rows > 0 {
      CountMonotone(a[..rows - 1], b[..rows - 1], rows - 1, cols);
      RowCountMonotone(a[rows - 1], b[rows - 1]);
    }
  }

  /** Every entry of a row is either true or false. */
  lemma {:induction false} RowCountTotal(row: seq<bool>)
    ensures RowCount(row, true) + RowCount(row, false) == |row|
  {
    if |row| > 0 {
      RowCountTotal(row[..|row| - 1]);
    }
  }

  /** A rows × cols grid has rows × cols cells, each true or false. */
  lemma {:induction false} CountTotal(g: seq<seq<bool>>, rows: nat, cols: nat)
    requires IsGrid(g, rows, cols)
    ensures CountIn(g, true) + CountIn(g, false) == rows * cols
  {
    if rows > 0 {
      CountTotal(g[..rows - 1], rows - 1, cols);
      RowCountTotal(g[rows - 1]);
      assert (rows - 1) * cols + cols == rows * cols;
    }
  }

  /** A grid with no true cell counts no true cells. */
  lemma {:induction false} AllFalseCountsNoTrue(g: seq<seq<bool>>, rows: nat, cols: nat)
    requires IsGrid(g, rows, cols)
    requires forall r, c :: 0 <= r < rows && 0 <= c < cols ==> !g[r][c]
    ensures CountIn(g, true) == 0
  {
    if rows > 0 {
      AllFalseCountsNoTrue(g[..rows - 1], rows - 1, cols);
      AllFalseRowCountsNoTrue(g[rows - 1]);
    }
  }

  /** A row with no true entry counts no true entries. */
  lemma {:induction false} AllFalseRowCountsNoTrue(row: seq<bool>)
    requires forall c :: 0 <= c < |row| ==> !row[c]
    ensures RowCount(row, true) == 0
  {
    if |row| > 0 {
      AllFalseRowCountsNoTrue(row[..|row| - 1]);
    }
  }

  /** b is a with the one cell (r, c), which was not v, set to v: b counts one more v and one fewer !v. */
  lemma CountOneSet(a: seq<seq<bool>>, b: seq<seq<bool>>, rows: nat, cols: nat, r: nat, c: nat, v: bool)
    requires IsGrid(a, rows, cols) && IsGrid(b, rows, cols) && r < rows && c < cols
    requires a[r][c] != v
    requires forall i, j :: 0 <= i < rows && 0 <= j < cols ==> b[i][j] == if i == r && j == c then v else a[i][j]
    ensures CountIn(b, v) == CountIn(a, v) + 1
    ensures CountIn(b, !v) + 1 == CountIn(a, !v)
  {
    GridExtensionality(b, a[r := a[r][c := v]], rows, cols);
    CountSet(a, r, c, v);
  }
}
