// The board logic of Minesweeper: per-cell mine, adjacent-mine count and
// revealed flags over a rows × cols board, mine placement from a sequence of
// candidate positions, the clipped 3 × 3 mine count, the recursive flood-fill
// reveal, the win test and the outcome of a click.

module Saper {
  import opened Grids

  // ---------------------------------------------------------------------
  // The clipped 3 × 3 neighbourhood
  // ---------------------------------------------------------------------

  /** max(0, i - 1): the first row (or column) of the neighbourhood of i. */
  function Lo(i: nat): nat {
    if i >= 1 then i - 1 else 0
  }

  /** min(n, i + 2): one past the last row (or column) of the neighbourhood of i on a board of n. */
  function Hi(i: nat, n: nat): nat {
    if i + 2 <= n then i + 2 else n
  }

  /** (i, j) lies in the 3 × 3 block around (x, y), clipped to the board (no wrap-around). */
  predicate InBlock(rows: nat, cols: nat, x: nat, y: nat, i: int, j: int) {
    Lo(x) <= i < Hi(x, rows) && Lo(y) <= j < Hi(y, cols)
  }

  /** The number of mines in row i, columns lo .. hi - 1. */
  function RowMines(m: seq<seq<bool>>, i: nat, lo: nat, hi: nat): nat
    requires i < |m| && lo <= hi <= |m[i]|
    decreases hi - lo
  {
    if lo == hi then 0 else RowMines(m, i, lo, hi - 1) + (if m[i][hi - 1] then 1 else 0)
  }

  /** The number of mines in rows xlo .. xhi - 1, columns ylo .. yhi - 1. */
  function BlockMines(m: seq<seq<bool>>, rows: nat, cols: nat, xlo: nat, xhi: nat, ylo: nat, yhi: nat): nat
    requires IsGrid(m, rows, cols) && xlo <= xhi <= rows && ylo <= yhi <= cols
    decreases xhi - xlo
  {
    if xlo == xhi then 0
    else BlockMines(m, rows, cols, xlo, xhi - 1, ylo, yhi) + RowMines(m, xhi - 1, ylo, yhi)
  }

  /** A segment of a row counts some mine iff it holds one. */
  lemma {:induction false} RowMinesPositive(m: seq<seq<bool>>, i: nat, lo: nat, hi: nat)
    requires i < |m| && lo <= hi <= |m[i]|
    ensures RowMines(m, i, lo, hi) > 0 <==> exists j :: lo <= j < hi && m[i][j]
    decreases hi - lo
  {
    if lo < hi {
      RowMinesPositive(m, i, lo, hi - 1);
    }
  }

  lemma {:induction false} BlockMinesPositive(m: seq<seq<bool>>, rows: nat, cols: nat, xlo: nat, xhi: nat, ylo: nat, yhi: nat)
    requires IsGrid(m, rows, cols) && xlo <= xhi <= rows && ylo <= yhi <= cols
    ensures BlockMines(m, rows, cols, xlo, xhi, ylo, yhi) > 0 <==>
      exists i, j :: xlo <= i < xhi && ylo <= j < yhi && m[i][j]
    decreases xhi - xlo
  {
    if xlo < xhi {
      BlockMinesPositive(m, rows, cols, xlo, xhi - 1, ylo, yhi);
      RowMinesPositive(m, xhi - 1, ylo, yhi);
      if exists i, j :: xlo <= i < xhi && ylo <= j < yhi && m[i][j] {
        var i, j :| xlo <= i < xhi && ylo <= j < yhi && m[i][j];
        if i < xhi - 1 {
          assert exists i', j' :: xlo <= i' < xhi - 1 && ylo <= j' < yhi && m[i'][j'];
        } else {
          assert ylo <= j < yhi && m[xhi - 1][j];
        }
      }
    }
  }

  /** A cell counts adjacent mines exactly when some cell of its clipped block is a mine. */
  lemma AdjacentPositiveIffMineNear(m: seq<seq<bool>>, rows: nat, cols: nat, x: nat, y: nat)
    requires IsGrid(m, rows, cols) && x < rows && y < cols
    ensures AdjacentCount(m, rows, cols, x, y) > 0 <==> exists i, j :: InBlock(rows, cols, x, y, i, j) && m[i][j]
  {
    BlockMinesPositive(m, rows, cols, Lo(x), Hi(x, rows), Lo(y), Hi(y, cols));
  }

  lemma {:induction false} RowMinesBound(m: seq<seq<bool>>, i: nat, lo: nat, hi: nat, y: nat)
    requires i < |m| && lo <= hi <= |m[i]|
    ensures RowMines(m, i, lo, hi) + (if lo <= y < hi && !m[i][y] then 1 else 0) <= hi - lo
    decreases hi - lo
  {
    if lo < hi {
      RowMinesBound(m, i, lo, hi - 1, y);
    }
  }

  lemma {:induction false} BlockMinesBound(m: seq<seq<bool>>, rows: nat, cols: nat, xlo: nat, xhi: nat, ylo: nat, yhi: nat, x: nat, y: nat)
    requires IsGrid(m, rows, cols) && xlo <= xhi <= rows && ylo <= yhi <= cols
    requires yhi - ylo <= 3
    ensures BlockMines(m, rows, cols, xlo, xhi, ylo, yhi) + (if xlo <= x < xhi && ylo <= y < yhi && !m[x][y] then 1 else 0)
      <= 3 * (xhi - xlo)
    decreases xhi - xlo
  {
    if xlo < xhi {
      BlockMinesBound(m, rows, cols, xlo, xhi - 1, ylo, yhi, x, y);
      RowMinesBound(m, xhi - 1, ylo, yhi, y);
    }
  }

  /**
   * The number of mines in the clipped 3 × 3 block around (x, y), the cell
   * itself included: at most the nine cells of the block.
   */
  function AdjacentCount(m: seq<seq<bool>>, rows: nat, cols: nat, x: nat, y: nat): (n: nat)
    requires IsGrid(m, rows, cols) && x < rows && y < cols
    ensures n <= 9
  {
    BlockMinesBound(m, rows, cols, Lo(x), Hi(x, rows), Lo(y), Hi(y, cols), x, y);
    BlockMines(m, rows, cols, Lo(x), Hi(x, rows), Lo(y), Hi(y, cols))
  }

  /** A safe cell has at most eight adjacent mines. */
  lemma AdjacentAtMostEight(m: seq<seq<bool>>, rows: nat, cols: nat, x: nat, y: nat)
    requires IsGrid(m, rows, cols) && x < rows && y < cols
    requires !m[x][y]
    ensures AdjacentCount(m, rows, cols, x, y) <= 8
  {
    BlockMinesBound(m, rows, cols, Lo(x), Hi(x, rows), Lo(y), Hi(y, cols), x, y);
  }

  // ---------------------------------------------------------------------
  // The flood fill, stated on snapshots of the board
  // ---------------------------------------------------------------------

  /** Every cell revealed in `before` is still revealed in `after`. */
  ghost predicate Grew(before: seq<seq<bool>>, after: seq<seq<bool>>, rows: nat, cols: nat)
    requires IsGrid(before, rows, cols) && IsGrid(after, rows, cols)
  {
    forall i, j :: 0 <= i < rows && 0 <= j < cols && before[i][j] ==> after[i][j]
  }

  /** Every safe cell in the clipped block around (x, y) is revealed in `shown`. */
  ghost predicate SafeBlockShown(m: seq<seq<bool>>, shown: seq<seq<bool>>, rows: nat, cols: nat, x: nat, y: nat)
    requires IsGrid(m, rows, cols) && IsGrid(shown, rows, cols)
  {
    forall i, j :: InBlock(rows, cols, x, y, i, j) && !m[i][j] ==> shown[i][j]
  }

  /**
   * Every safe cell of columns ylo .. yhi - 1 that a row-by-row scan starting
   * at row xlo has passed before reaching (nx, ny) is revealed in `shown`.
   */
  ghost predicate ScannedShown(m: seq<seq<bool>>, shown: seq<seq<bool>>, rows: nat, cols: nat,
                               xlo: nat, ylo: nat, yhi: nat, nx: nat, ny: nat)
    requires IsGrid(m, rows, cols) && IsGrid(shown, rows, cols) && yhi <= cols
  {
    forall i, j :: xlo <= i < rows && ylo <= j < yhi && (i < nx || (i == nx && j < ny)) && !m[i][j] ==> shown[i][j]
  }

  /** Passing one more cell, which is a mine or is revealed, keeps the scanned cells revealed as the board grows. */
  lemma ScanStep(m: seq<seq<bool>>, a: seq<seq<bool>>, b: seq<seq<bool>>, rows: nat, cols: nat,
                 xlo: nat, ylo: nat, yhi: nat, nx: nat, ny: nat)
    requires IsGrid(m, rows, cols) && IsGrid(a, rows, cols) && IsGrid(b, rows, cols) && yhi <= cols
    requires nx < rows && ny < cols && (m[nx][ny] || b[nx][ny])
    requires ScannedShown(m, a, rows, cols, xlo, ylo, yhi, nx, ny) && Grew(a, b, rows, cols)
    ensures ScannedShown(m, b, rows, cols, xlo, ylo, yhi, nx, ny + 1)
  {
  }

  /**
   * What a reveal started at (x, y) leaves behind, except for the closure of
   * (x, y) itself: (x, y) is revealed, nothing is hidden again, every other
   * newly revealed cell is safe, and every other newly revealed cell with no
   * adjacent mine has all the safe cells of its block revealed.
   */
  ghost predicate FloodFilledBut(m: seq<seq<bool>>, adj: seq<seq<nat>>, rows: nat, cols: nat,
                                 before: seq<seq<bool>>, after: seq<seq<bool>>, x: nat, y: nat)
    requires IsGrid(m, rows, cols) && IsGrid(adj, rows, cols)
    requires IsGrid(before, rows, cols) && IsGrid(after, rows, cols) && x < rows && y < cols
  {
    after[x][y] && Grew(before, after, rows, cols) &&
    (forall i, j :: 0 <= i < rows && 0 <= j < cols && after[i][j] && !before[i][j] ==>
      (i == x && j == y) || !m[i][j]) &&
    (forall i, j :: 0 <= i < rows && 0 <= j < cols && after[i][j] && !before[i][j] && adj[i][j] == 0 && (i != x || j != y) ==>
      SafeBlockShown(m, after, rows, cols, i, j))
  }

  /** FloodFilledBut, with (x, y) closed too when the reveal newly showed it. */
  ghost predicate FloodFilled(m: seq<seq<bool>>, adj: seq<seq<nat>>, rows: nat, cols: nat,
                              before: seq<seq<bool>>, after: seq<seq<bool>>, x: nat, y: nat)
    requires IsGrid(m, rows, cols) && IsGrid(adj, rows, cols)
    requires IsGrid(before, rows, cols) && IsGrid(after, rows, cols) && x < rows && y < cols
  {
    FloodFilledBut(m, adj, rows, cols, before, after, x, y) &&
    (!before[x][y] && adj[x][y] == 0 ==> SafeBlockShown(m, after, rows, cols, x, y))
  }

  /** A reveal that finds (x, y) already revealed and changes nothing is complete. */
  lemma FloodNothing(m: seq<seq<bool>>, adj: seq<seq<nat>>, rows: nat, cols: nat, shown: seq<seq<bool>>, x: nat, y: nat)
    requires IsGrid(m, rows, cols) && IsGrid(adj, rows, cols) && IsGrid(shown, rows, cols)
    requires x < rows && y < cols && shown[x][y]
    ensures FloodFilled(m, adj, rows, cols, shown, shown, x, y)
  {
  }

  /** Revealing the hidden cell (x, y) alone is a partial reveal from (x, y). */
  lemma FloodOne(m: seq<seq<bool>>, adj: seq<seq<nat>>, rows: nat, cols: nat,
                 before: seq<seq<bool>>, after: seq<seq<bool>>, x: nat, y: nat)
    requires IsGrid(m, rows, cols) && IsGrid(adj, rows, cols)
    requires IsGrid(before, rows, cols) && IsGrid(after, rows, cols) && x < rows && y < cols
    requires forall i, j :: 0 <= i < rows && 0 <= j < cols ==> after[i][j] == (before[i][j] || (i == x && j == y))
    ensures FloodFilledBut(m, adj, rows, cols, before, after, x, y)
  {
  }

  /**
   * Every cell revealed in `after` but not in `before` is safe, and, when it
   * has no adjacent mine, has every safe cell of its block revealed.
   */
  ghost predicate ClosedGrowth(m: seq<seq<bool>>, adj: seq<seq<nat>>, rows: nat, cols: nat,
                               before: seq<seq<bool>>, after: seq<seq<bool>>)
    requires IsGrid(m, rows, cols) && IsGrid(adj, rows, cols)
    requires IsGrid(before, rows, cols) && IsGrid(after, rows, cols)
  {
    Grew(before, after, rows, cols) &&
    forall i, j :: 0 <= i < rows && 0 <= j < cols && after[i][j] && !before[i][j] ==>
      !m[i][j] && (adj[i][j] == 0 ==> SafeBlockShown(m, after, rows, cols, i, j))
  }

  /** Two closed growths one after the other make one. */
  lemma ClosedGrowthTrans(m: seq<seq<bool>>, adj: seq<seq<nat>>, rows: nat, cols: nat,
                          a: seq<seq<bool>>, b: seq<seq<bool>>, c: seq<seq<bool>>)
    requires IsGrid(m, rows, cols) && IsGrid(adj, rows, cols)
    requires IsGrid(a, rows, cols) && IsGrid(b, rows, cols) && IsGrid(c, rows, cols)
    requires ClosedGrowth(m, adj, rows, cols, a, b) && ClosedGrowth(m, adj, rows, cols, b, c)
    ensures ClosedGrowth(m, adj, rows, cols, a, c)
  {
    forall i, j | 0 <= i < rows && 0 <= j < cols && c[i][j] && !a[i][j] && adj[i][j] == 0
      ensures SafeBlockShown(m, c, rows, cols, i, j)
    {
      if b[i][j] {
        assert SafeBlockShown(m, b, rows, cols, i, j);
      }
    }
  }

  /** A complete reveal from a safe cell is a closed growth. */
  lemma FloodFromSafeIsClosed(m: seq<seq<bool>>, adj: seq<seq<nat>>, rows: nat, cols: nat,
                              before: seq<seq<bool>>, after: seq<seq<bool>>, x: nat, y: nat)
    requires IsGrid(m, rows, cols) && IsGrid(adj, rows, cols)
    requires IsGrid(before, rows, cols) && IsGrid(after, rows, cols) && x < rows && y < cols
    requires !m[x][y] && FloodFilled(m, adj, rows, cols, before, after, x, y)
    ensures ClosedGrowth(m, adj, rows, cols, before, after)
  {
  }

  /**
   * A partial reveal from (x, y) followed by a closed growth that also
   * closes (x, y) is a complete reveal from (x, y).
   */
  lemma FloodFinish(m: seq<seq<bool>>, adj: seq<seq<nat>>, rows: nat, cols: nat,
                    a: seq<seq<bool>>, b: seq<seq<bool>>, c: seq<seq<bool>>, x: nat, y: nat)
    requires IsGrid(m, rows, cols) && IsGrid(adj, rows, cols)
    requires IsGrid(a, rows, cols) && IsGrid(b, rows, cols) && IsGrid(c, rows, cols) && x < rows && y < cols
    requires FloodFilledBut(m, adj, rows, cols, a, b, x, y) && ClosedGrowth(m, adj, rows, cols, b, c)
    requires SafeBlockShown(m, c, rows, cols, x, y)
    ensures FloodFilled(m, adj, rows, cols, a, c, x, y)
  {
    forall i, j | 0 <= i < rows && 0 <= j < cols && c[i][j] && !a[i][j] && adj[i][j] == 0 && (i != x || j != y)
      ensures SafeBlockShown(m, c, rows, cols, i, j)
    {
      if b[i][j] {
        assert SafeBlockShown(m, b, rows, cols, i, j);
      }
    }
  }

  /** A reveal that starts on a safe cell of a board showing no mine still shows no mine. */
  lemma FloodRevealsNoMine(m: seq<seq<bool>>, adj: seq<seq<nat>>, rows: nat, cols: nat,
                           before: seq<seq<bool>>, after: seq<seq<bool>>, x: nat, y: nat)
    requires IsGrid(m, rows, cols) && IsGrid(adj, rows, cols)
    requires IsGrid(before, rows, cols) && IsGrid(after, rows, cols) && x < rows && y < cols
    requires !m[x][y]
    requires forall i, j :: 0 <= i < rows && 0 <= j < cols && before[i][j] ==> !m[i][j]
    requires FloodFilled(m, adj, rows, cols, before, after, x, y)
    ensures forall i, j :: 0 <= i < rows && 0 <= j < cols && after[i][j] ==> !m[i][j]
  {
  }

  // ---------------------------------------------------------------------
  // Where the flood fill stops
  // ---------------------------------------------------------------------

  /**
   * A path along which a reveal spreads over cells hidden in `before`:
   * each cell lies in the clipped block of the one before it, every cell
   * after the first is safe, and every cell but the last has no adjacent mine.
   */
  ghost predicate IsChain(m: seq<seq<bool>>, adj: seq<seq<nat>>, rows: nat, cols: nat,
                          before: seq<seq<bool>>, path: seq<(nat, nat)>)
    requires IsGrid(m, rows, cols) && IsGrid(adj, rows, cols) && IsGrid(before, rows, cols)
  {
    |path| > 0 &&
    (forall k :: 0 <= k < |path| ==> path[k].0 < rows && path[k].1 < cols) &&
    (forall k :: 0 <= k < |path| ==> !before[path[k].0][path[k].1]) &&
    (forall k :: 0 < k < |path| ==> !m[path[k].0][path[k].1]) &&
    (forall k :: 0 <= k < |path| - 1 ==> adj[path[k].0][path[k].1] == 0) &&
    (forall k :: 0 <= k < |path| - 1 ==> InBlock(rows, cols, path[k].0, path[k].1, path[k + 1].0, path[k + 1].1))
  }

  /** Some chain over the cells hidden in `before` leads from (x, y) to (i, j). */
  ghost predicate Reaches(m: seq<seq<bool>>, adj: seq<seq<nat>>, rows: nat, cols: nat,
                          before: seq<seq<bool>>, x: nat, y: nat, i: nat, j: nat)
    requires IsGrid(m, rows, cols) && IsGrid(adj, rows, cols) && IsGrid(before, rows, cols)
  {
    exists path :: IsChain(m, adj, rows, cols, before, path) && path[0] == (x, y) && path[|path| - 1] == (i, j)
  }

  /** Every cell revealed in `after` but not in `before` is reached from (x, y). */
  ghost predicate SpreadFrom(m: seq<seq<bool>>, adj: seq<seq<nat>>, rows: nat, cols: nat,
                             before: seq<seq<bool>>, after: seq<seq<bool>>, x: nat, y: nat)
    requires IsGrid(m, rows, cols) && IsGrid(adj, rows, cols)
    requires IsGrid(before, rows, cols) && IsGrid(after, rows, cols)
  {
    forall i: nat, j: nat :: i < rows && j < cols && after[i][j] && !before[i][j] ==>
      Reaches(m, adj, rows, cols, before, x, y, i, j)
  }

  /**
   * Every cell revealed in `after` but not in `before` is reached from some
   * hidden safe cell of the clipped block around (x, y).
   */
  ghost predicate SpreadFromBlock(m: seq<seq<bool>>, adj: seq<seq<nat>>, rows: nat, cols: nat,
                                  before: seq<seq<bool>>, after: seq<seq<bool>>, x: nat, y: nat)
    requires IsGrid(m, rows, cols) && IsGrid(adj, rows, cols)
    requires IsGrid(before, rows, cols) && IsGrid(after, rows, cols)
  {
    forall i: nat, j: nat :: i < rows && j < cols && after[i][j] && !before[i][j] ==>
      exists a: nat, b: nat :: InBlock(rows, cols, x, y, a, b) && !m[a][b] && !before[a][b] &&
        Reaches(m, adj, rows, cols, before, a, b, i, j)
  }

  /** A chain over cells hidden later is a chain over cells hidden earlier. */
  lemma ChainEarlier(m: seq<seq<bool>>, adj: seq<seq<nat>>, rows: nat, cols: nat,
                     earlier: seq<seq<bool>>, later: seq<seq<bool>>, path: seq<(nat, nat)>)
    requires IsGrid(m, rows, cols) && IsGrid(adj, rows, cols)
    requires IsGrid(earlier, rows, cols) && IsGrid(later, rows, cols)
    requires Grew(earlier, later, rows, cols) && IsChain(m, adj, rows, cols, later, path)
    ensures IsChain(m, adj, rows, cols, earlier, path)
  {
  }

  /** A hidden cell with no adjacent mine extends a chain that starts on a safe cell of its block. */
  lemma ChainPrepend(m: seq<seq<bool>>, adj: seq<seq<nat>>, rows: nat, cols: nat,
                     before: seq<seq<bool>>, x: nat, y: nat, path: seq<(nat, nat)>)
    requires IsGrid(m, rows, cols) && IsGrid(adj, rows, cols) && IsGrid(before, rows, cols)
    requires x < rows && y < cols && !before[x][y] && adj[x][y] == 0
    requires IsChain(m, adj, rows, cols, before, path)
    requires InBlock(rows, cols, x, y, path[0].0, path[0].1) && !m[path[0].0][path[0].1]
    ensures IsChain(m, adj, rows, cols, before, [(x, y)] + path)
  {
    var p := [(x, y)] + path;
    assert forall k :: 0 < k < |p| ==> p[k] == path[k - 1];
  }

  /**
   * A cell reached from a safe cell of the block of (x, y), over cells hidden
   * once (x, y) itself is revealed, is reached from (x, y) when (x, y) was
   * hidden and has no adjacent mine.
   */
  lemma ReachThrough(m: seq<seq<bool>>, adj: seq<seq<nat>>, rows: nat, cols: nat,
                     before: seq<seq<bool>>, self: seq<seq<bool>>, x: nat, y: nat, a: nat, b: nat, i: nat, j: nat)
    requires IsGrid(m, rows, cols) && IsGrid(adj, rows, cols)
    requires IsGrid(before, rows, cols) && IsGrid(self, rows, cols)
    requires x < rows && y < cols && !before[x][y] && adj[x][y] == 0 && Grew(before, self, rows, cols)
    requires InBlock(rows, cols, x, y, a, b) && !m[a][b] && Reaches(m, adj, rows, cols, self, a, b, i, j)
    ensures Reaches(m, adj, rows, cols, before, x, y, i, j)
  {
    var path :| IsChain(m, adj, rows, cols, self, path) && path[0] == (a, b) && path[|path| - 1] == (i, j);
    ChainEarlier(m, adj, rows, cols, before, self, path);
    ChainPrepend(m, adj, rows, cols, before, x, y, path);
    var p := [(x, y)] + path;
    assert p[0] == (x, y) && p[|p| - 1] == (i, j);
  }

  /**
   * A spread from the block of (x, y), over cells hidden once (x, y) itself
   * is revealed, is a spread from (x, y) when (x, y) has no adjacent mine.
   */
  lemma SpreadThrough(m: seq<seq<bool>>, adj: seq<seq<nat>>, rows: nat, cols: nat,
                      before: seq<seq<bool>>, self: seq<seq<bool>>, after: seq<seq<bool>>, x: nat, y: nat)
    requires IsGrid(m, rows, cols) && IsGrid(adj, rows, cols)
    requires IsGrid(before, rows, cols) && IsGrid(self, rows, cols) && IsGrid(after, rows, cols)
    requires x < rows && y < cols && !before[x][y] && adj[x][y] == 0
    requires forall i, j :: 0 <= i < rows && 0 <= j < cols ==> self[i][j] == (before[i][j] || (i == x && j == y))
    requires SpreadFromBlock(m, adj, rows, cols, self, after, x, y)
    ensures SpreadFrom(m, adj, rows, cols, before, after, x, y)
  {
    forall i: nat, j: nat | i < rows && j < cols && after[i][j] && !before[i][j]
      ensures Reaches(m, adj, rows, cols, before, x, y, i, j)
    {
      if i == x && j == y {
        assert IsChain(m, adj, rows, cols, before, [(x, y)]);
      } else {
        var a: nat, b: nat :| InBlock(rows, cols, x, y, a, b) && !m[a][b] && !self[a][b] &&
          Reaches(m, adj, rows, cols, self, a, b, i, j);
        ReachThrough(m, adj, rows, cols, before, self, x, y, a, b, i, j);
      }
    }
  }

  /**
   * After a reveal from the hidden safe cell (p, q) of the block of (x, y),
   * the cells revealed since `start` still spread from that block.
   */
  lemma SpreadFromBlockStep(m: seq<seq<bool>>, adj: seq<seq<nat>>, rows: nat, cols: nat,
                            start: seq<seq<bool>>, mid: seq<seq<bool>>, after: seq<seq<bool>>,
                            x: nat, y: nat, p: nat, q: nat)
    requires IsGrid(m, rows, cols) && IsGrid(adj, rows, cols)
    requires IsGrid(start, rows, cols) && IsGrid(mid, rows, cols) && IsGrid(after, rows, cols)
    requires p < rows && q < cols && InBlock(rows, cols, x, y, p, q) && !m[p][q] && !mid[p][q]
    requires Grew(start, mid, rows, cols) && Grew(mid, after, rows, cols)
    requires SpreadFromBlock(m, adj, rows, cols, start, mid, x, y)
    requires SpreadFrom(m, adj, rows, cols, mid, after, p, q)
    ensures SpreadFromBlock(m, adj, rows, cols, start, after, x, y)
  {
    forall i: nat, j: nat | i < rows && j < cols && after[i][j] && !start[i][j]
      ensures exists a: nat, b: nat ::
                InBlock(rows, cols, x, y, a, b) && !m[a][b] && !start[a][b] &&
                Reaches(m, adj, rows, cols, start, a, b, i, j)
    {
      if !mid[i][j] {
        var path :| IsChain(m, adj, rows, cols, mid, path) && path[0] == (p, q) && path[|path| - 1] == (i, j);
        ChainEarlier(m, adj, rows, cols, start, mid, path);
        assert Reaches(m, adj, rows, cols, start, p, q, i, j);
      }
    }
  }

  /**
   * Since `before`, the reveals from the block of (x, y) have revealed only
   * safe cells reached from that block, and closed every zero-count one.
   */
  ghost predicate GrownFromBlock(m: seq<seq<bool>>, adj: seq<seq<nat>>, rows: nat, cols: nat,
                                 before: seq<seq<bool>>, after: seq<seq<bool>>, x: nat, y: nat)
    requires IsGrid(m, rows, cols) && IsGrid(adj, rows, cols)
    requires IsGrid(before, rows, cols) && IsGrid(after, rows, cols)
  {
    ClosedGrowth(m, adj, rows, cols, before, after) && SpreadFromBlock(m, adj, rows, cols, before, after, x, y)
  }

  /** One more complete reveal, from the hidden safe cell (p, q) of the block of (x, y), keeps GrownFromBlock. */
  lemma VisitStep(m: seq<seq<bool>>, adj: seq<seq<nat>>, rows: nat, cols: nat,
                  start: seq<seq<bool>>, mid: seq<seq<bool>>, after: seq<seq<bool>>,
                  x: nat, y: nat, p: nat, q: nat)
    requires IsGrid(m, rows, cols) && IsGrid(adj, rows, cols)
    requires IsGrid(start, rows, cols) && IsGrid(mid, rows, cols) && IsGrid(after, rows, cols)
    requires p < rows && q < cols && InBlock(rows, cols, x, y, p, q) && !m[p][q] && !mid[p][q]
    requires GrownFromBlock(m, adj, rows, cols, start, mid, x, y)
    requires RevealedFrom(m, adj, rows, cols, mid, after, p, q)
    ensures GrownFromBlock(m, adj, rows, cols, start, after, x, y)
    ensures Grew(mid, after, rows, cols) && after[p][q]
  {
    SpreadFromBlockStep(m, adj, rows, cols, start, mid, after, x, y, p, q);
    FloodFromSafeIsClosed(m, adj, rows, cols, mid, after, p, q);
    ClosedGrowthTrans(m, adj, rows, cols, start, mid, after);
  }

  /**
   * The state of the scan over the clipped block of (x, y) when it reaches
   * (nx, ny): the reveals so far grew from the block, and every safe cell it
   * has passed is revealed.
   */
  ghost predicate ScanProgress(m: seq<seq<bool>>, adj: seq<seq<nat>>, rows: nat, cols: nat,
                               start: seq<seq<bool>>, shown: seq<seq<bool>>, x: nat, y: nat, nx: nat, ny: nat)
    requires IsGrid(m, rows, cols) && IsGrid(adj, rows, cols)
    requires IsGrid(start, rows, cols) && IsGrid(shown, rows, cols) && x < rows && y < cols
  {
    GrownFromBlock(m, adj, rows, cols, start, shown, x, y) &&
    ScannedShown(m, shown, rows, cols, Lo(x), Lo(y), Hi(y, cols), nx, ny)
  }

  /** The scan starts with nothing revealed and nothing passed. */
  lemma ScanBegin(m: seq<seq<bool>>, adj: seq<seq<nat>>, rows: nat, cols: nat, start: seq<seq<bool>>, x: nat, y: nat)
    requires IsGrid(m, rows, cols) && IsGrid(adj, rows, cols) && IsGrid(start, rows, cols) && x < rows && y < cols
    ensures ScanProgress(m, adj, rows, cols, start, start, x, y, Lo(x), Lo(y))
  {
  }

  /** Passing a mine or a revealed cell advances the scan. */
  lemma ScanSkip(m: seq<seq<bool>>, adj: seq<seq<nat>>, rows: nat, cols: nat,
                 start: seq<seq<bool>>, shown: seq<seq<bool>>, x: nat, y: nat, nx: nat, ny: nat)
    requires IsGrid(m, rows, cols) && IsGrid(adj, rows, cols)
    requires IsGrid(start, rows, cols) && IsGrid(shown, rows, cols) && x < rows && y < cols
    requires nx < rows && ny < cols && (m[nx][ny] || shown[nx][ny])
    requires ScanProgress(m, adj, rows, cols, start, shown, x, y, nx, ny)
    ensures ScanProgress(m, adj, rows, cols, start, shown, x, y, nx, ny + 1)
  {
    ScanStep(m, shown, shown, rows, cols, Lo(x), Lo(y), Hi(y, cols), nx, ny);
  }

  /** Revealing from a hidden safe cell of the block advances the scan. */
  lemma ScanVisit(m: seq<seq<bool>>, adj: seq<seq<nat>>, rows: nat, cols: nat,
                  start: seq<seq<bool>>, shown: seq<seq<bool>>, after: seq<seq<bool>>, x: nat, y: nat, nx: nat, ny: nat)
    requires IsGrid(m, rows, cols) && IsGrid(adj, rows, cols)
    requires IsGrid(start, rows, cols) && IsGrid(shown, rows, cols) && IsGrid(after, rows, cols) && x < rows && y < cols
    requires InBlock(rows, cols, x, y, nx, ny) && !m[nx][ny] && !shown[nx][ny]
    requires ScanProgress(m, adj, rows, cols, start, shown, x, y, nx, ny)
    requires RevealedFrom(m, adj, rows, cols, shown, after, nx, ny)
    ensures ScanProgress(m, adj, rows, cols, start, after, x, y, nx, ny + 1)
    ensures CountIn(after, false) <= CountIn(shown, false)
  {
    VisitStep(m, adj, rows, cols, start, shown, after, x, y, nx, ny);
    ScanStep(m, shown, after, rows, cols, Lo(x), Lo(y), Hi(y, cols), nx, ny);
    CountMonotone(shown, after, rows, cols);
  }

  /** The end of one row of the block is the start of the next. */
  lemma ScanNextRow(m: seq<seq<bool>>, adj: seq<seq<nat>>, rows: nat, cols: nat,
                    start: seq<seq<bool>>, shown: seq<seq<bool>>, x: nat, y: nat, nx: nat)
    requires IsGrid(m, rows, cols) && IsGrid(adj, rows, cols)
    requires IsGrid(start, rows, cols) && IsGrid(shown, rows, cols) && x < rows && y < cols
    requires ScanProgress(m, adj, rows, cols, start, shown, x, y, nx, Hi(y, cols))
    ensures ScanProgress(m, adj, rows, cols, start, shown, x, y, nx + 1, Lo(y))
  {
  }

  /**
   * What the loop over the block of (x, y) does, from `before` to `after`: it
   * grows the revealed cells from the block and leaves every safe cell of
   * the block revealed.
   */
  ghost predicate BlockRevealed(m: seq<seq<bool>>, adj: seq<seq<nat>>, rows: nat, cols: nat,
                                before: seq<seq<bool>>, after: seq<seq<bool>>, x: nat, y: nat)
    requires IsGrid(m, rows, cols) && IsGrid(adj, rows, cols)
    requires IsGrid(before, rows, cols) && IsGrid(after, rows, cols)
  {
    GrownFromBlock(m, adj, rows, cols, before, after, x, y) && SafeBlockShown(m, after, rows, cols, x, y)
  }

  /** A finished scan has every safe cell of the block revealed. */
  lemma ScanEnd(m: seq<seq<bool>>, adj: seq<seq<nat>>, rows: nat, cols: nat,
                start: seq<seq<bool>>, shown: seq<seq<bool>>, x: nat, y: nat)
    requires IsGrid(m, rows, cols) && IsGrid(adj, rows, cols)
    requires IsGrid(start, rows, cols) && IsGrid(shown, rows, cols) && x < rows && y < cols
    requires ScanProgress(m, adj, rows, cols, start, shown, x, y, Hi(x, rows), Lo(y))
    ensures BlockRevealed(m, adj, rows, cols, start, shown, x, y)
  {
  }

  /** Revealing the hidden cell (x, y) alone spreads from (x, y). */
  lemma SpreadOne(m: seq<seq<bool>>, adj: seq<seq<nat>>, rows: nat, cols: nat,
                  before: seq<seq<bool>>, after: seq<seq<bool>>, x: nat, y: nat)
    requires IsGrid(m, rows, cols) && IsGrid(adj, rows, cols)
    requires IsGrid(before, rows, cols) && IsGrid(after, rows, cols) && x < rows && y < cols && !before[x][y]
    requires forall i, j :: 0 <= i < rows && 0 <= j < cols ==> after[i][j] == (before[i][j] || (i == x && j == y))
    ensures SpreadFrom(m, adj, rows, cols, before, after, x, y)
  {
    assert IsChain(m, adj, rows, cols, before, [(x, y)]);
  }

  /**
   * What a reveal started at (x, y) does, from `before` to `after`: on a
   * revealed cell it changes nothing; on a hidden cell with adjacent mines it
   * reveals that cell alone; in every case it is a complete reveal from
   * (x, y) that spreads only from (x, y).
   */
  ghost predicate RevealedFrom(m: seq<seq<bool>>, adj: seq<seq<nat>>, rows: nat, cols: nat,
                               before: seq<seq<bool>>, after: seq<seq<bool>>, x: nat, y: nat)
    requires IsGrid(m, rows, cols) && IsGrid(adj, rows, cols)
    requires IsGrid(before, rows, cols) && IsGrid(after, rows, cols) && x < rows && y < cols
  {
    (before[x][y] ==> after == before) &&
    (!before[x][y] && adj[x][y] > 0 ==> after == before[x := before[x][y := true]]) &&
    FloodFilled(m, adj, rows, cols, before, after, x, y) &&
    SpreadFrom(m, adj, rows, cols, before, after, x, y)
  }

  /** Finding (x, y) already revealed and changing nothing is what a reveal does. */
  lemma RevealNothing(m: seq<seq<bool>>, adj: seq<seq<nat>>, rows: nat, cols: nat,
                      shown: seq<seq<bool>>, x: nat, y: nat)
    requires IsGrid(m, rows, cols) && IsGrid(adj, rows, cols) && IsGrid(shown, rows, cols)
    requires x < rows && y < cols && shown[x][y]
    ensures RevealedFrom(m, adj, rows, cols, shown, shown, x, y)
  {
    FloodNothing(m, adj, rows, cols, shown, x, y);
  }

  /** Revealing a hidden cell with adjacent mines, and nothing else, is what a reveal does. */
  lemma RevealNumbered(m: seq<seq<bool>>, adj: seq<seq<nat>>, rows: nat, cols: nat,
                       before: seq<seq<bool>>, after: seq<seq<bool>>, x: nat, y: nat)
    requires IsGrid(m, rows, cols) && IsGrid(adj, rows, cols) && IsGrid(before, rows, cols)
    requires x < rows && y < cols && !before[x][y] && adj[x][y] > 0
    requires after == before[x := before[x][y := true]]
    ensures IsGrid(after, rows, cols) && RevealedFrom(m, adj, rows, cols, before, after, x, y)
  {
    FloodOne(m, adj, rows, cols, before, after, x, y);
    SpreadOne(m, adj, rows, cols, before, after, x, y);
  }

  /**
   * Revealing a hidden cell with no adjacent mine, then revealing from its
   * block until every safe cell of the block is shown, is what a reveal does.
   */
  lemma RevealZero(m: seq<seq<bool>>, adj: seq<seq<nat>>, rows: nat, cols: nat,
                   before: seq<seq<bool>>, self: seq<seq<bool>>, after: seq<seq<bool>>, x: nat, y: nat)
    requires IsGrid(m, rows, cols) && IsGrid(adj, rows, cols)
    requires IsGrid(before, rows, cols) && IsGrid(after, rows, cols)
    requires x < rows && y < cols && !before[x][y] && adj[x][y] == 0
    requires self == before[x := before[x][y := true]] && IsGrid(self, rows, cols)
    requires BlockRevealed(m, adj, rows, cols, self, after, x, y)
    ensures RevealedFrom(m, adj, rows, cols, before, after, x, y)
  {
    FloodOne(m, adj, rows, cols, before, self, x, y);
    FloodFinish(m, adj, rows, cols, before, self, after, x, y);
    SpreadThrough(m, adj, rows, cols, before, self, after, x, y);
  }

  /** By induction along a chain from (x, y): a complete reveal from (x, y) reveals every cell of the chain. */
  lemma {:induction false} ChainRevealed(m: seq<seq<bool>>, adj: seq<seq<nat>>, rows: nat, cols: nat,
                                         before: seq<seq<bool>>, after: seq<seq<bool>>, x: nat, y: nat,
                                         path: seq<(nat, nat)>, k: nat)
    requires IsGrid(m, rows, cols) && IsGrid(adj, rows, cols)
    requires IsGrid(before, rows, cols) && IsGrid(after, rows, cols) && x < rows && y < cols
    requires FloodFilled(m, adj, rows, cols, before, after, x, y)
    requires IsChain(m, adj, rows, cols, before, path) && path[0] == (x, y) && k < |path|
    ensures after[path[k].0][path[k].1]
  {
    if k > 0 {
      ChainRevealed(m, adj, rows, cols, before, after, x, y, path, k - 1);
      var (a, b) := path[k - 1];
      assert SafeBlockShown(m, after, rows, cols, a, b);
      assert InBlock(rows, cols, a, b, path[k].0, path[k].1);
    }
  }

  /**
   * A reveal that completes from (x, y) and spreads only from it reveals
   * exactly the cells that a chain from (x, y) reaches.
   */
  lemma FloodExact(m: seq<seq<bool>>, adj: seq<seq<nat>>, rows: nat, cols: nat,
                   before: seq<seq<bool>>, after: seq<seq<bool>>, x: nat, y: nat)
    requires IsGrid(m, rows, cols) && IsGrid(adj, rows, cols)
    requires IsGrid(before, rows, cols) && IsGrid(after, rows, cols) && x < rows && y < cols
    requires FloodFilled(m, adj, rows, cols, before, after, x, y) && SpreadFrom(m, adj, rows, cols, before, after, x, y)
    ensures forall i: nat, j: nat :: i < rows && j < cols ==>
      (after[i][j] && !before[i][j] <==> Reaches(m, adj, rows, cols, before, x, y, i, j))
  {
    forall i: nat, j: nat | i < rows && j < cols && Reaches(m, adj, rows, cols, before, x, y, i, j)
      ensures after[i][j] && !before[i][j]
    {
      var path :| IsChain(m, adj, rows, cols, before, path) && path[0] == (x, y) && path[|path| - 1] == (i, j);
      ChainRevealed(m, adj, rows, cols, before, after, x, y, path, |path| - 1);
    }
  }

  // ---------------------------------------------------------------------
  // The board
  // ---------------------------------------------------------------------

  /** What a click leads to: nothing, a lost game, a won game, or a game that goes on. */
  datatype Outcome = Ignored | Lost | Won | Playing

  class Minesweeper {
    const rows: nat
    const cols: nat
    const mines: nat
    const isMine: array2<bool>
    const adjacentMines: array2<nat>
    const isRevealed: array2<bool>

    ghost predicate Valid() {
      isMine.Length0 == rows && isMine.Length1 == cols &&
      adjacentMines.Length0 == rows && adjacentMines.Length1 == cols &&
      isRevealed.Length0 == rows && isRevealed.Length1 == cols &&
      isMine != isRevealed
    }

    /** The mine layout as a value. */
    ghost function Mines(): (m: seq<seq<bool>>)
      reads isMine
      requires Valid()
      ensures IsGrid(m, rows, cols)
    {
      ArrayCells(isMine)
    }

    /** The revealed flags as a value. */
    ghost function Revealed(): (v: seq<seq<bool>>)
      reads isRevealed
      requires Valid()
      ensures IsGrid(v, rows, cols)
    {
      ArrayCells(isRevealed)
    }

    /** The adjacent-mine counts as a value. */
    ghost function Adjacent(): (adj: seq<seq<nat>>)
      reads adjacentMines
      requires Valid()
      ensures IsGrid(adj, rows, cols)
    {
      ArrayCells(adjacentMines)
    }

    /** Every cell that is not a mine is revealed. */
    ghost predicate AllSafeRevealed()
      reads isMine, isRevealed
      requires Valid()
    {
      forall i, j :: 0 <= i < rows && 0 <= j < cols && !isMine[i, j] ==> isRevealed[i, j]
    }

    /**
     * A new board: every cell hidden and safe with count 0, then mines
     * placed from the candidate draws, then adjacent counts computed.
     */
    constructor (rows: nat := 10, cols: nat := 10, mines: nat := 10, draws: seq<(nat, nat)>)
      requires forall k :: 0 <= k < |draws| ==> draws[k].0 < rows && draws[k].1 < cols
      ensures Valid() && fresh(isMine) && fresh(adjacentMines) && fresh(isRevealed)
      ensures this.rows == rows && this.cols == cols && this.mines == mines
      ensures forall i, j :: 0 <= i < rows && 0 <= j < cols ==> !isRevealed[i, j]
      ensures CountIn(Mines(), true) <= mines
      ensures CountIn(Mines(), true) < mines ==> forall k :: 0 <= k < |draws| ==> isMine[draws[k].0, draws[k].1]
      ensures forall i, j :: 0 <= i < rows && 0 <= j < cols && isMine[i, j] ==> (i, j) in draws
      ensures exists used ::
                0 <= used <= |draws| && (CountIn(Mines(), true) < mines ==> used == |draws|) &&
                forall i, j :: 0 <= i < rows && 0 <= j < cols ==> (isMine[i, j] <==> (i, j) in draws[..used])
      ensures forall i, j :: 0 <= i < rows && 0 <= j < cols ==>
        adjacentMines[i, j] == if isMine[i, j] then 0 else AdjacentCount(Mines(), rows, cols, i, j)
    {
      this.rows := rows;
      this.cols := cols;
      this.mines := mines;
      isMine := new bool[rows, cols]((_, _) => false);
      adjacentMines := new nat[rows, cols]((_, _) => 0);
      isRevealed := new bool[rows, cols]((_, _) => false);
      new;
      AllFalseCountsNoTrue(Mines(), rows, cols);
      var placed, used := PlaceMines(draws);
      CalculateAdjacents();
      assert forall i, j :: 0 <= i < rows && 0 <= j < cols ==> (isMine[i, j] <==> (i, j) in draws[..used]);
    }

    /**
     * Places mines at the candidate positions in order, skipping those that
     * are already mines, until `mines` have been placed or the candidates
     * run out; returns how many it placed and how many candidates it used.
     */
    method PlaceMines(draws: seq<(nat, nat)>) returns (placed: nat, used: nat)
      requires Valid()
      requires forall k :: 0 <= k < |draws| ==> draws[k].0 < rows && draws[k].1 < cols
      modifies isMine
      ensures placed <= mines && used <= |draws|
      ensures CountIn(Mines(), true) == old(CountIn(Mines(), true)) + placed
      ensures placed < mines ==> used == |draws|
      ensures mines > rows * cols ==> placed < mines
      ensures forall k :: 0 <= k < used ==> isMine[draws[k].0, draws[k].1]
      ensures forall i, j :: 0 <= i < rows && 0 <= j < cols ==>
        (isMine[i, j] <==> old(isMine[i, j]) || exists k :: 0 <= k < used && draws[k] == (i, j))
    {
      placed, used := 0, 0;
      while placed < mines && used < |draws|
        invariant placed <= mines && used <= |draws|
        invariant CountIn(Mines(), true) == old(CountIn(Mines(), true)) + placed
        invariant forall i, j :: 0 <= i < rows && 0 <= j < cols ==>
          (isMine[i, j] <==> old(isMine[i, j]) || exists k :: 0 <= k < used && draws[k] == (i, j))
      {
        var (x, y) := draws[used];
        var wasSafe := PlaceMine(x, y);
        if wasSafe {
          placed := placed + 1;
        }
        used := used + 1;
      }
      CountTotal(Mines(), rows, cols);
    }

    /** Makes (x, y) a mine; reports whether it was not one already. */
    method PlaceMine(x: nat, y: nat) returns (wasSafe: bool)
      requires Valid() && x < rows && y < cols
      modifies isMine
      ensures wasSafe == !old(isMine[x, y])
      ensures forall i, j :: 0 <= i < rows && 0 <= j < cols ==> isMine[i, j] == (old(isMine[i, j]) || (i == x && j == y))
      ensures CountIn(Mines(), true) == old(CountIn(Mines(), true)) + (if wasSafe then 1 else 0)
    {
      wasSafe := !isMine[x, y];
      if wasSafe {
        ghost var before := Mines();
        isMine[x, y] := true;
        CountOneSet(before, Mines(), rows, cols, x, y, true);
      }
    }

    /**
     * Sets the adjacent-mine count of every safe cell to the number of mines
     * in its clipped 3 × 3 block; mine cells keep their count.
     */
    method CalculateAdjacents()
      requires Valid()
      modifies adjacentMines
      ensures forall i, j :: 0 <= i < rows && 0 <= j < cols ==>
        adjacentMines[i, j] == if isMine[i, j] then old(adjacentMines[i, j]) else AdjacentCount(Mines(), rows, cols, i, j)
    {
      ghost var m := Mines();
      for x := 0 to rows
        invariant forall i, j :: 0 <= i < rows && 0 <= j < cols ==>
          adjacentMines[i, j] == if i >= x || isMine[i, j] then old(adjacentMines[i, j]) else AdjacentCount(m, rows, cols, i, j)
      {
        for y := 0 to cols
          invariant forall i, j :: 0 <= i < rows && 0 <= j < cols ==>
            adjacentMines[i, j] ==
              if i > x || (i == x && j >= y) || isMine[i, j] then old(adjacentMines[i, j]) else AdjacentCount(m, rows, cols, i, j)
        {
          if isMine[x, y] {
            continue;
          }
          var minesCount := 0;
          var xlo, xhi, ylo, yhi := Lo(x), Hi(x, rows), Lo(y), Hi(y, cols);
          for nx := xlo to xhi
            invariant minesCount == BlockMines(m, rows, cols, xlo, nx, ylo, yhi)
          {
            for ny := ylo to yhi
              invariant minesCount == BlockMines(m, rows, cols, xlo, nx, ylo, yhi) + RowMines(m, nx, ylo, ny)
            {
              if isMine[nx, ny] {
                minesCount := minesCount + 1;
              }
            }
          }
          adjacentMines[x, y] := minesCount;
        }
      }
    }

    /**
     * Reveals (x, y); when it has no adjacent mine, also reveals, recursively,
     * every hidden safe cell of its clipped block. An already revealed cell is
     * left as it is.
     */
    method RevealCell(x: nat, y: nat)
      requires Valid() && x < rows && y < cols
      modifies isRevealed
      ensures RevealedFrom(Mines(), Adjacent(), rows, cols, old(Revealed()), Revealed(), x, y)
      decreases CountIn(Revealed(), false), 1
    {
      ghost var m, adj, before := Mines(), Adjacent(), Revealed();
      if isRevealed[x, y] {
        RevealNothing(m, adj, rows, cols, before, x, y);
        return;
      }
      isRevealed[x, y] := true;
      ghost var afterSelf := Revealed();
      GridExtensionality(afterSelf, before[x := before[x][y := true]], rows, cols);
      CountSet(before, x, y, true);
      if adjacentMines[x, y] > 0 {
        RevealNumbered(m, adj, rows, cols, before, afterSelf, x, y);
        return;
      }
      RevealSafeNeighbors(x, y, CountIn(before, false));
      RevealZero(m, adj, rows, cols, before, afterSelf, Revealed(), x, y);
    }

    /**
     * The loop of a reveal from a cell with no adjacent mine: reveals, from
     * each hidden safe cell of the clipped block around (x, y) in turn. The
     * ghost `bound` exceeds the number of hidden cells and makes the mutual
     * recursion with RevealCell terminate.
     */
    method RevealSafeNeighbors(x: nat, y: nat, ghost bound: nat)
      requires Valid() && x < rows && y < cols
      requires CountIn(Revealed(), false) < bound
      modifies isRevealed
      ensures BlockRevealed(Mines(), Adjacent(), rows, cols, old(Revealed()), Revealed(), x, y)
      decreases bound, 0
    {
      ghost var m, adj, start := Mines(), Adjacent(), Revealed();
      ScanBegin(m, adj, rows, cols, start, x, y);
      var xlo, xhi, ylo, yhi := Lo(x), Hi(x, rows), Lo(y), Hi(y, cols);
      ghost var shown := start;
      for nx := xlo to xhi
        invariant shown == Revealed() && m == Mines() && adj == Adjacent()
        invariant CountIn(shown, false) < bound
        invariant ScanProgress(m, adj, rows, cols, start, shown, x, y, nx, ylo)
      {
        for ny := ylo to yhi
          invariant shown == Revealed() && m == Mines() && adj == Adjacent()
          invariant CountIn(shown, false) < bound
          invariant ScanProgress(m, adj, rows, cols, start, shown, x, y, nx, ny)
        {
          if !isRevealed[nx, ny] && !isMine[nx, ny] {
            RevealCell(nx, ny);
            ScanVisit(m, adj, rows, cols, start, shown, Revealed(), x, y, nx, ny);
          } else {
            ScanSkip(m, adj, rows, cols, start, shown, x, y, nx, ny);
          }
          shown := Revealed();
        }
        ScanNextRow(m, adj, rows, cols, start, shown, x, y, nx);
      }
      ScanEnd(m, adj, rows, cols, start, shown, x, y);
    }

    /** Whether every safe cell is revealed, scanning row by row and stopping at the first hidden safe cell. */
    method CheckWin() returns (won: bool)
      requires Valid()
      ensures won == AllSafeRevealed()
    {
      for x := 0 to rows
        invariant forall i, j :: 0 <= i < x && 0 <= j < cols && !isMine[i, j] ==> isRevealed[i, j]
      {
        for y := 0 to cols
          invariant forall i, j :: 0 <= i < x && 0 <= j < cols && !isMine[i, j] ==> isRevealed[i, j]
          invariant forall j :: 0 <= j < y && !isMine[x, j] ==> isRevealed[x, j]
        {
          if !isMine[x, y] && !isRevealed[x, y] {
            return false;
          }
        }
      }
      return true;
    }

    /**
     * A click on (x, y): a revealed cell ignores it, a mine loses the game,
     * and a safe cell is revealed (flooding from it), the game being won when
     * every safe cell is then revealed.
     */
    method CellClicked(x: nat, y: nat) returns (outcome: Outcome)
      requires Valid() && x < rows && y < cols
      modifies isRevealed
      ensures old(isRevealed[x, y]) || isMine[x, y] ==>
        forall i, j :: 0 <= i < rows && 0 <= j < cols ==> isRevealed[i, j] == old(isRevealed[i, j])
      ensures old(isRevealed[x, y]) ==> outcome == Ignored
      ensures !old(isRevealed[x, y]) && isMine[x, y] ==> outcome == Lost
      ensures !old(isRevealed[x, y]) && !isMine[x, y] ==>
        RevealedFrom(Mines(), Adjacent(), rows, cols, old(Revealed()), Revealed(), x, y) &&
        outcome == if AllSafeRevealed() then Won else Playing
    {
      if isRevealed[x, y] {
        return Ignored;
      }
      if isMine[x, y] {
        return Lost;
      }
      RevealCell(x, y);
      var won := CheckWin();
      outcome := if won then Won else Playing;
    }
  }
}
