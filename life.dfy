// The Game of Life engine: a rows × cols boolean grid on a torus, advanced one
// generation at a time under a rule chosen by name ("classic" is B3/S23,
// "alternative" is B36/S23), with named patterns stamped onto it.

module Life {
  import opened Grids

  /** A pattern: the (row, column) offsets, from its anchor, of the cells it brings to life. */
  type Shape = seq<(int, int)>

  /**
   * The source's `i % n` for a positive n. The source language floors the
   * quotient, so the remainder lies in [0, n) even for negative i; Dafny's
   * Euclidean `%` gives the same value whenever n > 0.
   */
  function Wrap(i: int, n: nat): (w: nat)
    requires n > 0
    ensures w < n
  {
    i % n
  }

  // ---------------------------------------------------------------------
  // The rule table
  // ---------------------------------------------------------------------

  /** The rules `update` knows, and the case of a name it does not recognise. */
  datatype Rule = Classic | Alternative | Unrecognized

  /** The rule a ruleset name selects: the engine compares the name with "classic" and "alternative". */
  function RuleOf(ruleset: string): (rule: Rule)
    ensures rule == Classic <==> ruleset == "classic"
    ensures rule == Alternative <==> ruleset == "alternative"
  {
    if ruleset == "classic" then Classic
    else if ruleset == "alternative" then Alternative
    else Unrecognized
  }

  /** Neighbour counts under which a live cell stays alive (the S part of B/S notation). */
  function Survive(rule: Rule): set<nat> {
    match rule
    case Classic => {2, 3}
    case Alternative => {2, 3}
    case Unrecognized => {}
  }

  /** Neighbour counts under which a dead cell comes to life (the B part of B/S notation). */
  function Birth(rule: Rule): set<nat> {
    match rule
    case Classic => {3}
    case Alternative => {3, 6}
    case Unrecognized => {}
  }

  /**
   * Whether a cell is alive in the next generation, given whether it is alive
   * now and how many of its neighbours are: "classic" is B3/S23,
   * "alternative" is B36/S23, and an unrecognised ruleset sets no cell alive.
   */
  function NextAlive(alive: bool, neighbors: nat, rule: Rule): (next: bool)
    ensures next == if alive then neighbors in Survive(rule) else neighbors in Birth(rule)
  {
    match rule
    case Classic =>
      (alive && (neighbors == 2 || neighbors == 3)) || (!alive && neighbors == 3)
    case Alternative =>
      (alive && (neighbors == 2 || neighbors == 3)) || (!alive && (neighbors == 3 || neighbors == 6))
    case Unrecognized =>
      false
  }

  /** The two named rules differ exactly on a dead cell with six live neighbours. */
  lemma AlternativeDiffersOnlyOnSix(alive: bool, n: nat)
    ensures NextAlive(alive, n, Alternative) != NextAlive(alive, n, Classic) <==> !alive && n == 6
  {
  }

  // ---------------------------------------------------------------------
  // Neighbours on the torus
  // ---------------------------------------------------------------------

  /**
   * Whether the cell at (r, c), both taken modulo the grid's dimensions, is
   * alive; on the board itself that is the cell (r, c).
   */
  function AliveAt(g: seq<seq<bool>>, rows: nat, cols: nat, r: int, c: int): (alive: bool)
    requires IsGrid(g, rows, cols) && rows > 0 && cols > 0
    ensures 0 <= r < rows && 0 <= c < cols ==> alive == g[r][c]
  {
    g[Wrap(r, rows)][Wrap(c, cols)]
  }

  function Ind(b: bool): nat {
    if b then 1 else 0
  }

  /** The number of live cells among the eight wrapped neighbours of (r, c). */
  function NeighborCount(g: seq<seq<bool>>, rows: nat, cols: nat, r: int, c: int): (n: nat)
    requires IsGrid(g, rows, cols) && rows > 0 && cols > 0
    ensures n <= 8
  {
    Ind(AliveAt(g, rows, cols, r - 1, c - 1)) + Ind(AliveAt(g, rows, cols, r - 1, c)) + Ind(AliveAt(g, rows, cols, r - 1, c + 1)) +
    Ind(AliveAt(g, rows, cols, r, c - 1))                                               + Ind(AliveAt(g, rows, cols, r, c + 1)) +
    Ind(AliveAt(g, rows, cols, r + 1, c - 1)) + Ind(AliveAt(g, rows, cols, r + 1, c)) + Ind(AliveAt(g, rows, cols, r + 1, c + 1))
  }

  /**
   * Live neighbours the double loop of GetNeighborCount has met at row offset dr
   * by the time it reaches column offset dcEnd (offset (0, 0) is skipped).
   */
  function RowNeighbors(g: seq<seq<bool>>, rows: nat, cols: nat, r: int, c: int, dr: int, dcEnd: int): nat
    requires IsGrid(g, rows, cols) && rows > 0 && cols > 0
    requires -1 <= dcEnd <= 2
    decreases dcEnd + 1
  {
    if dcEnd == -1 then 0
    else
      var dc := dcEnd - 1;
      RowNeighbors(g, rows, cols, r, c, dr, dc) + (if dr == 0 && dc == 0 then 0 else Ind(AliveAt(g, rows, cols, r + dr, c + dc)))
  }

  /** Live neighbours the double loop has met in the row offsets before drEnd. */
  function RowsNeighbors(g: seq<seq<bool>>, rows: nat, cols: nat, r: int, c: int, drEnd: int): nat
    requires IsGrid(g, rows, cols) && rows > 0 && cols > 0
    requires -1 <= drEnd <= 2
    decreases drEnd + 1
  {
    if drEnd == -1 then 0
    else RowsNeighbors(g, rows, cols, r, c, drEnd - 1) + RowNeighbors(g, rows, cols, r, c, drEnd - 1, 2)
  }

  /** Running the nine offsets in the loop's order, minus the centre, counts the eight neighbours. */
  lemma LoopOrderCountsNeighbors(g: seq<seq<bool>>, rows: nat, cols: nat, r: int, c: int)
    requires IsGrid(g, rows, cols) && rows > 0 && cols > 0
    ensures RowsNeighbors(g, rows, cols, r, c, 2) == NeighborCount(g, rows, cols, r, c)
  {
    assert RowNeighbors(g, rows, cols, r, c, -1, 2) ==
      Ind(AliveAt(g, rows, cols, r - 1, c - 1)) + Ind(AliveAt(g, rows, cols, r - 1, c)) + Ind(AliveAt(g, rows, cols, r - 1, c + 1));
    assert RowNeighbors(g, rows, cols, r, c, 0, 2) ==
      Ind(AliveAt(g, rows, cols, r, c - 1)) + Ind(AliveAt(g, rows, cols, r, c + 1));
    assert RowNeighbors(g, rows, cols, r, c, 1, 2) ==
      Ind(AliveAt(g, rows, cols, r + 1, c - 1)) + Ind(AliveAt(g, rows, cols, r + 1, c)) + Ind(AliveAt(g, rows, cols, r + 1, c + 1));
  }

  /** In a grid with no live cell, no cell has a live neighbour. */
  lemma DeadGridHasNoNeighbors(rows: nat, cols: nat, r: int, c: int)
    requires rows > 0 && cols > 0
    ensures NeighborCount(Filled(rows, cols, false), rows, cols, r, c) == 0
  {
  }

  /** On a 3 × 3 torus with only (0, 0) alive, (2, 2) sees it across both edges. */
  lemma DiagonalWrapExample()
    ensures var g := seq(3, i => seq(3, j => i == 0 && j == 0));
      IsGrid(g, 3, 3) && NeighborCount(g, 3, 3, 2, 2) == 1
  {
    var g := seq(3, i => seq(3, j => i == 0 && j == 0));
    assert AliveAt(g, 3, 3, 3, 3);
    assert !AliveAt(g, 3, 3, 1, 1) && !AliveAt(g, 3, 3, 1, 2) && !AliveAt(g, 3, 3, 1, 3);
    assert !AliveAt(g, 3, 3, 2, 1) && !AliveAt(g, 3, 3, 2, 3);
    assert !AliveAt(g, 3, 3, 3, 1) && !AliveAt(g, 3, 3, 3, 2);
  }

  // ---------------------------------------------------------------------
  // One generation
  // ---------------------------------------------------------------------

  /** The state of cell (r, c) in the next generation of g. */
  function NextCell(g: seq<seq<bool>>, rows: nat, cols: nat, rule: Rule, r: nat, c: nat): bool
    requires IsGrid(g, rows, cols) && r < rows && c < cols
  {
    NextAlive(g[r][c], NeighborCount(g, rows, cols, r, c), rule)
  }

  /** The next generation: every cell follows the rule on the neighbours it has now. */
  function NextGen(g: seq<seq<bool>>, rows: nat, cols: nat, rule: Rule): (next: seq<seq<bool>>)
    requires IsGrid(g, rows, cols)
    ensures IsGrid(next, rows, cols)
    ensures forall r, c :: 0 <= r < rows && 0 <= c < cols ==> next[r][c] == NextCell(g, rows, cols, rule, r, c)
  {
    seq(rows, r requires 0 <= r < rows =>
      seq(cols, c requires 0 <= c < cols => NextCell(g, rows, cols, rule, r, c)))
  }

  /** Under a ruleset the engine does not know, every cell dies. */
  lemma UnknownRulesetKillsAll(g: seq<seq<bool>>, rows: nat, cols: nat, ruleset: string)
    requires IsGrid(g, rows, cols)
    requires ruleset != "classic" && ruleset != "alternative"
    ensures NextGen(g, rows, cols, RuleOf(ruleset)) == Filled(rows, cols, false)
  {
    GridExtensionality(NextGen(g, rows, cols, RuleOf(ruleset)), Filled(rows, cols, false), rows, cols);
  }

  /** An empty grid stays empty under every ruleset. */
  lemma EmptyStaysEmpty(rows: nat, cols: nat, rule: Rule)
    ensures NextGen(Filled(rows, cols, false), rows, cols, rule) == Filled(rows, cols, false)
  {
    var g := Filled(rows, cols, false);
    forall r, c | 0 <= r < rows && 0 <= c < cols
      ensures NextGen(g, rows, cols, rule)[r][c] == g[r][c]
    {
      DeadGridHasNoNeighbors(rows, cols, r, c);
    }
    GridExtensionality(NextGen(g, rows, cols, rule), g, rows, cols);
  }

  /** A live cell with fewer than two live neighbours dies, whatever the ruleset. */
  lemma IsolatedCellDies(g: seq<seq<bool>>, rows: nat, cols: nat, rule: Rule, r: nat, c: nat)
    requires IsGrid(g, rows, cols) && r < rows && c < cols && g[r][c]
    requires NeighborCount(g, rows, cols, r, c) < 2
    ensures !NextGen(g, rows, cols, rule)[r][c]
  {
  }

  /** A row of five dead cells. */
  const DeadRow: seq<bool> := [false, false, false, false, false]

  /** A blinker lying along row 2 of a 5 × 5 torus. */
  function HorizontalBlinker(): (g: seq<seq<bool>>)
    ensures IsGrid(g, 5, 5)
  {
    [DeadRow, DeadRow, [false, true, true, true, false], DeadRow, DeadRow]
  }

  /** The same blinker standing along column 2. */
  function VerticalBlinker(): (g: seq<seq<bool>>)
    ensures IsGrid(g, 5, 5)
  {
    var middle := [false, false, true, false, false];
    [DeadRow, middle, middle, middle, DeadRow]
  }

  /** A single live cell at (2, 2) of a 5 × 5 torus. */
  function LoneCell(): (g: seq<seq<bool>>)
    ensures IsGrid(g, 5, 5)
  {
    [DeadRow, DeadRow, [false, false, true, false, false], DeadRow, DeadRow]
  }

  /** The classic step on the cells of rows 0 to 2, for the three examples. */
  lemma ExampleStepTop(g: seq<seq<bool>>, h: seq<seq<bool>>, r: nat, c: nat)
    requires (g == HorizontalBlinker() && h == VerticalBlinker()) || (g == VerticalBlinker() && h == HorizontalBlinker())
          || (g == LoneCell() && h == Filled(5, 5, false))
    requires r < 3 && c < 5
    ensures NextCell(g, 5, 5, Classic, r, c) == h[r][c]
  {
    if r == 0 {
      if c == 0 {} else if c == 1 {} else if c == 2 {} else if c == 3 {} else {}
    } else if r == 1 {
      if c == 0 {} else if c == 1 {} else if c == 2 {} else if c == 3 {} else {}
    } else {
      if c == 0 {} else if c == 1 {} else if c == 2 {} else if c == 3 {} else {}
    }
  }

  /** The classic step on the cells of rows 3 and 4, for the three examples. */
  lemma ExampleStepBottom(g: seq<seq<bool>>, h: seq<seq<bool>>, r: nat, c: nat)
    requires (g == HorizontalBlinker() && h == VerticalBlinker()) || (g == VerticalBlinker() && h == HorizontalBlinker())
          || (g == LoneCell() && h == Filled(5, 5, false))
    requires 3 <= r < 5 && c < 5
    ensures NextCell(g, 5, 5, Classic, r, c) == h[r][c]
  {
    if r == 3 {
      if c == 0 {} else if c == 1 {} else if c == 2 {} else if c == 3 {} else {}
    } else {
      if c == 0 {} else if c == 1 {} else if c == 2 {} else if c == 3 {} else {}
    }
  }

  /** One classic step turns g into h, checked cell by cell. */
  lemma ExampleStep(g: seq<seq<bool>>, h: seq<seq<bool>>)
    requires (g == HorizontalBlinker() && h == VerticalBlinker()) || (g == VerticalBlinker() && h == HorizontalBlinker())
          || (g == LoneCell() && h == Filled(5, 5, false))
    ensures IsGrid(g, 5, 5) && NextGen(g, 5, 5, Classic) == h
  {
    forall r, c | 0 <= r < 5 && 0 <= c < 5
      ensures NextGen(g, 5, 5, Classic)[r][c] == h[r][c]
    {
      if r < 3 {
        ExampleStepTop(g, h, r, c);
      } else {
        ExampleStepBottom(g, h, r, c);
      }
    }
    GridExtensionality(NextGen(g, 5, 5, Classic), h, 5, 5);
  }

  /** Under the classic rule the blinker is a period-2 oscillator: it turns upright, then back. */
  lemma BlinkerOscillates()
    ensures NextGen(HorizontalBlinker(), 5, 5, Classic) == VerticalBlinker()
    ensures NextGen(VerticalBlinker(), 5, 5, Classic) == HorizontalBlinker()
    ensures NextGen(NextGen(HorizontalBlinker(), 5, 5, Classic), 5, 5, Classic) == HorizontalBlinker()
    ensures HorizontalBlinker() != VerticalBlinker()
  {
    ExampleStep(HorizontalBlinker(), VerticalBlinker());
    ExampleStep(VerticalBlinker(), HorizontalBlinker());
    assert HorizontalBlinker()[1][2] != VerticalBlinker()[1][2];
  }

  /** A lone live cell dies under the classic rule, leaving the board empty. */
  lemma LoneCellDies()
    ensures NextGen(LoneCell(), 5, 5, Classic) == Filled(5, 5, false)
  {
    ExampleStep(LoneCell(), Filled(5, 5, false));
  }

  // ---------------------------------------------------------------------
  // Stamping patterns
  // ---------------------------------------------------------------------

  /**
   * Whether some offset of the shape, placed at (r0, c0) and wrapped, lands
   * on (r, c); every cell it lands on is on the board.
   */
  function Covered(shape: Shape, rows: nat, cols: nat, r0: int, c0: int, r: int, c: int): (covered: bool)
    requires rows > 0 && cols > 0
    ensures covered ==> 0 <= r < rows && 0 <= c < cols
  {
    exists k :: 0 <= k < |shape| && Wrap(r0 + shape[k].0, rows) == r && Wrap(c0 + shape[k].1, cols) == c
  }

  /** The grid after bringing to life every cell the shape covers when anchored at (r0, c0). */
  function Stamp(g: seq<seq<bool>>, rows: nat, cols: nat, shape: Shape, r0: int, c0: int): (s: seq<seq<bool>>)
    requires IsGrid(g, rows, cols) && rows > 0 && cols > 0
    ensures IsGrid(s, rows, cols)
    ensures forall r, c :: 0 <= r < rows && 0 <= c < cols && g[r][c] ==> s[r][c]
  {
    seq(rows, r requires 0 <= r < rows =>
      seq(cols, c requires 0 <= c < cols => g[r][c] || Covered(shape, rows, cols, r0, c0, r, c)))
  }

  /** Every cell the shape covers is alive afterwards. */
  lemma StampSetsShapeCells(g: seq<seq<bool>>, rows: nat, cols: nat, shape: Shape, r0: int, c0: int, k: nat)
    requires IsGrid(g, rows, cols) && rows > 0 && cols > 0
    requires k < |shape|
    ensures Stamp(g, rows, cols, shape, r0, c0)[Wrap(r0 + shape[k].0, rows)][Wrap(c0 + shape[k].1, cols)]
  {
    assert Covered(shape, rows, cols, r0, c0, Wrap(r0 + shape[k].0, rows), Wrap(c0 + shape[k].1, cols));
  }

  /** A cell no offset of the shape lands on keeps its state. */
  lemma StampLeavesOtherCells(g: seq<seq<bool>>, rows: nat, cols: nat, shape: Shape, r0: int, c0: int, r: nat, c: nat)
    requires IsGrid(g, rows, cols) && rows > 0 && cols > 0
    requires r < rows && c < cols
    requires forall k :: 0 <= k < |shape| ==> Wrap(r0 + shape[k].0, rows) != r || Wrap(c0 + shape[k].1, cols) != c
    ensures Stamp(g, rows, cols, shape, r0, c0)[r][c] == g[r][c]
  {
  }

  /** Stamping the same shape at the same anchor twice is the same as stamping it once. */
  lemma StampIdempotent(g: seq<seq<bool>>, rows: nat, cols: nat, shape: Shape, r0: int, c0: int)
    requires IsGrid(g, rows, cols) && rows > 0 && cols > 0
    ensures var once := Stamp(g, rows, cols, shape, r0, c0);
      Stamp(once, rows, cols, shape, r0, c0) == once
  {
    var once := Stamp(g, rows, cols, shape, r0, c0);
    GridExtensionality(Stamp(once, rows, cols, shape, r0, c0), once, rows, cols);
  }

  /** Stamps are unions, so the order of two stamps does not matter. */
  lemma StampCommutes(g: seq<seq<bool>>, rows: nat, cols: nat, a: Shape, ra: int, ca: int, b: Shape, rb: int, cb: int)
    requires IsGrid(g, rows, cols) && rows > 0 && cols > 0
    ensures Stamp(Stamp(g, rows, cols, a, ra, ca), rows, cols, b, rb, cb)
         == Stamp(Stamp(g, rows, cols, b, rb, cb), rows, cols, a, ra, ca)
  {
    GridExtensionality(Stamp(Stamp(g, rows, cols, a, ra, ca), rows, cols, b, rb, cb),
                       Stamp(Stamp(g, rows, cols, b, rb, cb), rows, cols, a, ra, ca), rows, cols);
  }

  /** The patterns the engine knows by name. */
  function LoadShapes(): (shapes: map<string, Shape>)
    ensures forall name :: name in shapes ==> |shapes[name]| > 0
    ensures forall name, k :: name in shapes && 0 <= k < |shapes[name]| ==>
      0 <= shapes[name][k].0 < 3 && 0 <= shapes[name][k].1 < 4
  {
    map[
      "glider" := [(0, 1), (1, 2), (2, 0), (2, 1), (2, 2)],
      "small_exploder" := [(1, 0), (0, 1), (1, 1), (2, 1), (0, 2), (2, 2), (1, 3)]
    ]
  }

  /** A glider stamped at (0, 0) on an empty 5 × 5 torus is alive on exactly its five cells. */
  lemma GliderExample()
    ensures "glider" in LoadShapes()
    ensures var s := Stamp(Filled(5, 5, false), 5, 5, LoadShapes()["glider"], 0, 0);
      forall r, c :: 0 <= r < 5 && 0 <= c < 5 ==>
        (s[r][c] <==> (r, c) in {(0, 1), (1, 2), (2, 0), (2, 1), (2, 2)})
  {
    var glider := LoadShapes()["glider"];
    var s := Stamp(Filled(5, 5, false), 5, 5, glider, 0, 0);
    forall r, c | 0 <= r < 5 && 0 <= c < 5
      ensures s[r][c] <==> (r, c) in {(0, 1), (1, 2), (2, 0), (2, 1), (2, 2)}
    {
      if (r, c) in {(0, 1), (1, 2), (2, 0), (2, 1), (2, 2)} {
        var k := if (r, c) == (0, 1) then 0 else if (r, c) == (1, 2) then 1
                 else if (r, c) == (2, 0) then 2 else if (r, c) == (2, 1) then 3 else 4;
        assert glider[k] == (r, c);
        assert Covered(glider, 5, 5, 0, 0, r, c);
      } else {
        forall k | 0 <= k < |glider|
          ensures Wrap(glider[k].0, 5) != r || Wrap(glider[k].1, 5) != c
        {
          assert glider[k].0 < 5 && glider[k].1 < 5;
        }
      }
    }
  }

  // ---------------------------------------------------------------------
  // The engine
  // ---------------------------------------------------------------------

  /** The outcomes of `choice([False, True, False, False])`, indexed by the draw. */
  const Choices: seq<bool> := [false, true, false, false]

  class GameOfLife {
    const rows: nat
    const cols: nat
    /** The current generation, row by row. */
    var grid: seq<seq<bool>>
    var ruleset: string
    const shapes: map<string, Shape>

    ghost predicate Valid()
      reads this
    {
      IsGrid(grid, rows, cols)
    }

    /**
     * A fresh rows × cols grid, randomized unless told otherwise. Unrandomized, every cell is dead; randomized,
     * cell (r, c) takes the outcome of draw draws[r][c] among the four
     * equally likely choices, of which one is alive.
     */
    static method CreateGrid(rows: nat, cols: nat, randomize: bool := true, draws: seq<seq<nat>>) returns (g: seq<seq<bool>>)
      requires randomize ==> IsGrid(draws, rows, cols)
      requires randomize ==> forall r, c :: 0 <= r < rows && 0 <= c < cols ==> draws[r][c] < |Choices|
      ensures IsGrid(g, rows, cols)
      ensures forall r, c :: 0 <= r < rows && 0 <= c < cols ==> g[r][c] == (randomize && draws[r][c] == 1)
    {
      g := Filled(rows, cols, false);
      if randomize {
        for r := 0 to rows
          invariant IsGrid(g, rows, cols)
          invariant forall i, j :: 0 <= i < rows && 0 <= j < cols ==> g[i][j] == (i < r && draws[i][j] == 1)
        {
          for c := 0 to cols
            invariant IsGrid(g, rows, cols)
            invariant forall i, j :: 0 <= i < rows && 0 <= j < cols ==>
              g[i][j] == ((i < r || (i == r && j < c)) && draws[i][j] == 1)
          {
            g := g[r := g[r][c := Choices[draws[r][c]]]];
          }
        }
      }
    }

    /** A new engine: an all-dead rows × cols grid, the given rule and the known shapes. */
    constructor (rows: nat, cols: nat, ruleset: string := "classic")
      ensures Valid()
      ensures this.rows == rows && this.cols == cols
      ensures this.ruleset == ruleset && shapes == LoadShapes()
      ensures grid == Filled(rows, cols, false)
      ensures CountIn(grid, false) == rows * cols
    {
      this.rows := rows;
      this.cols := cols;
      var g := CreateGrid(rows, cols, false, []);
      GridExtensionality(g, Filled(rows, cols, false), rows, cols);
      grid := g;
      this.ruleset := ruleset;
      shapes := LoadShapes();
      new;
      CountTotal(grid, rows, cols);
      AllFalseCountsNoTrue(grid, rows, cols);
    }

    /** The number of live cells among the eight wrapped neighbours of (r, c). */
    method GetNeighborCount(r: int, c: int) returns (count: nat)
      requires Valid() && rows > 0 && cols > 0
      ensures count == NeighborCount(grid, rows, cols, r, c)
      ensures count <= 8
    {
      count := 0;
      for dr := -1 to 2
        invariant count == RowsNeighbors(grid, rows, cols, r, c, dr)
      {
        for dc := -1 to 2
          invariant count == RowsNeighbors(grid, rows, cols, r, c, dr) + RowNeighbors(grid, rows, cols, r, c, dr, dc)
        {
          if dr == 0 && dc == 0 {
            continue;
          }
          var nr := (r + dr) % rows;
          var nc := (c + dc) % cols;
          if grid[nr][nc] {
            count := count + 1;
          }
        }
      }
      LoopOrderCountsNeighbors(grid, rows, cols, r, c);
    }

    /**
     * Replaces the grid by the next generation, computed from the current one
     * into a fresh all-dead grid; under an unrecognised ruleset no cell of the
     * fresh grid is set, so every cell dies.
     */
    method Update()
      requires Valid()
      modifies this
      ensures Valid()
      ensures ruleset == old(ruleset)
      ensures grid == NextGen(old(grid), rows, cols, RuleOf(ruleset))
    {
      var rule := RuleOf(ruleset);
      ghost var next := NextGen(grid, rows, cols, rule);
      var newGrid := CreateGrid(rows, cols, false, []);
      for r := 0 to rows
        invariant grid == old(grid) && ruleset == old(ruleset)
        invariant IsGrid(newGrid, rows, cols)
        invariant forall i, j :: 0 <= i < rows && 0 <= j < cols ==> newGrid[i][j] == (i < r && next[i][j])
      {
        for c := 0 to cols
          invariant grid == old(grid) && ruleset == old(ruleset)
          invariant IsGrid(newGrid, rows, cols)
          invariant forall i, j :: 0 <= i < rows && 0 <= j < cols ==>
            newGrid[i][j] == ((i < r || (i == r && j < c)) && next[i][j])
        {
          var neighbors := GetNeighborCount(r, c);
          var alive := grid[r][c];
          match rule {
            case Classic =>
              if alive && (neighbors == 2 || neighbors == 3) {
                newGrid := newGrid[r := newGrid[r][c := true]];
              } else if !alive && neighbors == 3 {
                newGrid := newGrid[r := newGrid[r][c := true]];
              }
            case Alternative =>
              if alive && (neighbors == 2 || neighbors == 3) {
                newGrid := newGrid[r := newGrid[r][c := true]];
              } else if !alive && (neighbors == 3 || neighbors == 6) {
                newGrid := newGrid[r := newGrid[r][c := true]];
              }
            case Unrecognized =>
          }
        }
      }
      GridExtensionality(newGrid, next, rows, cols);
      grid := newGrid;
    }

    /**
     * Brings to life the cells of the named shape anchored at (topLeftR, topLeftC),
     * wrapping around the edges; an unknown name (or an empty shape) changes nothing.
     */
    method AddShape(shapeName: string, topLeftR: int, topLeftC: int)
      requires Valid()
      requires shapeName in shapes && shapes[shapeName] != [] ==> rows > 0 && cols > 0
      modifies this
      ensures Valid()
      ensures ruleset == old(ruleset)
      ensures if shapeName in shapes && shapes[shapeName] != []
              then grid == Stamp(old(grid), rows, cols, shapes[shapeName], topLeftR, topLeftC)
              else grid == old(grid)
    {
      if shapeName !in shapes || shapes[shapeName] == [] {
        return;
      }
      var shape := shapes[shapeName];
      for k := 0 to |shape|
        invariant IsGrid(grid, rows, cols) && ruleset == old(ruleset)
        invariant forall i, j :: 0 <= i < rows && 0 <= j < cols ==>
          grid[i][j] == (old(grid)[i][j] || Covered(shape[..k], rows, cols, topLeftR, topLeftC, i, j))
      {
        var (dr, dc) := shape[k];
        var r := (topLeftR + dr) % rows;
        var c := (topLeftC + dc) % cols;
        grid := grid[r := grid[r][c := true]];
        CoveredExtend(shape, rows, cols, topLeftR, topLeftC, k);
      }
      assert shape[..|shape|] == shape;
      GridExtensionality(grid, Stamp(old(grid), rows, cols, shape, topLeftR, topLeftC), rows, cols);
    }

    /** Kills every cell; dimensions, rule and shapes stay. */
    method Clear()
      requires Valid()
      modifies this
      ensures Valid()
      ensures ruleset == old(ruleset)
      ensures grid == Filled(rows, cols, false)
    {
      var g := CreateGrid(rows, cols, false, []);
      GridExtensionality(g, Filled(rows, cols, false), rows, cols);
      grid := g;
    }
  }

  /** Covering by one more offset adds exactly the cell that offset lands on. */
  lemma CoveredExtend(shape: Shape, rows: nat, cols: nat, r0: int, c0: int, k: nat)
    requires rows > 0 && cols > 0 && k < |shape|
    ensures forall i, j :: Covered(shape[..k + 1], rows, cols, r0, c0, i, j) <==>
      Covered(shape[..k], rows, cols, r0, c0, i, j) || (i == Wrap(r0 + shape[k].0, rows) && j == Wrap(c0 + shape[k].1, cols))
  {
    forall i, j
      ensures Covered(shape[..k + 1], rows, cols, r0, c0, i, j) <==>
        Covered(shape[..k], rows, cols, r0, c0, i, j) || (i == Wrap(r0 + shape[k].0, rows) && j == Wrap(c0 + shape[k].1, cols))
    {
      if Covered(shape[..k + 1], rows, cols, r0, c0, i, j) {
        var m :| 0 <= m < k + 1 && Wrap(r0 + shape[..k + 1][m].0, rows) == i && Wrap(c0 + shape[..k + 1][m].1, cols) == j;
        if m < k {
          assert shape[..k][m] == shape[..k + 1][m];
        }
      }
      if Covered(shape[..k], rows, cols, r0, c0, i, j) {
        var m :| 0 <= m < k && Wrap(r0 + shape[..k][m].0, rows) == i && Wrap(c0 + shape[..k][m].1, cols) == j;
        assert shape[..k + 1][m] == shape[..k][m];
      }
      assert shape[..k + 1][k] == shape[k];
    }
  }
}
