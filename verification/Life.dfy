// Conway's Game of Life on a torus: one generation, its symmetry under all shifts, and the glider.

module Life {

  type Grid = seq<seq<int>>

  predicate IsGrid(g: Grid, rows: nat, cols: nat) {
    |g| == rows && forall r :: 0 <= r < rows ==> |g[r]| == cols
  }

  /** The row or column that i stands for on a ring of n. */
  function Wrap(i: int, n: nat): (w: nat)
    requires n > 0
    ensures w < n
    decreases if i < 0 then n - i else i
  {
    if i < 0 then Wrap(i + n, n) else if i >= n then Wrap(i - n, n) else i
  }

  /** Next to the ring, wrapping is what the remainder operator does. */
  lemma {:induction false} WrapIsRemainder(i: int, n: nat)
    requires n > 0 && -1 <= i <= n
    ensures i % n == Wrap(i, n)
  {
    if i == -1 {
      assert -1 == -1 * n + (n - 1);
    }
  }

  /** The cell at any row and column, wrapped around both edges. */
  function Cell(g: Grid, rows: nat, cols: nat, r: int, c: int): int
    requires rows > 0 && cols > 0 && IsGrid(g, rows, cols)
  {
    g[Wrap(r, rows)][Wrap(c, cols)]
  }

  function Neighbours(g: Grid, rows: nat, cols: nat, r: int, c: int): int
    requires rows > 0 && cols > 0 && IsGrid(g, rows, cols)
  {
    Cell(g, rows, cols, r - 1, c - 1) + Cell(g, rows, cols, r - 1, c) + Cell(g, rows, cols, r - 1, c + 1)
    + Cell(g, rows, cols, r, c - 1) + Cell(g, rows, cols, r, c + 1)
    + Cell(g, rows, cols, r + 1, c - 1) + Cell(g, rows, cols, r + 1, c) + Cell(g, rows, cols, r + 1, c + 1)
  }

  /** Born with three neighbours, surviving with two or three. */
  function Rule(n: int, cell: int): int {
    if n == 3 || (n == 2 && cell != 0) then 1 else 0
  }

  /** The next state of one cell. */
  function Next(g: Grid, rows: nat, cols: nat, r: nat, c: nat): int
    requires IsGrid(g, rows, cols) && r < rows && c < cols
  {
    Rule(Neighbours(g, rows, cols, r, c), g[r][c])
  }

  function StepRow(g: Grid, rows: nat, cols: nat, r: nat): (row: seq<int>)
    requires IsGrid(g, rows, cols) && r < rows
    ensures |row| == cols && forall c :: 0 <= c < cols ==> row[c] == Next(g, rows, cols, r, c)
  {
    seq(cols, c requires 0 <= c < cols => Next(g, rows, cols, r, c))
  }

  /** One generation. */
  function Step(g: Grid, rows: nat, cols: nat): (r: Grid)
    requires IsGrid(g, rows, cols)
    ensures IsGrid(r, rows, cols)
  {
    seq(rows, r requires 0 <= r < rows => StepRow(g, rows, cols, r))
  }

  function ShiftRow(g: Grid, rows: nat, cols: nat, dr: int, dc: int, r: nat): (row: seq<int>)
    requires IsGrid(g, rows, cols) && r < rows
    ensures |row| == cols && forall c :: 0 <= c < cols ==> row[c] == Cell(g, rows, cols, r - dr, c - dc)
  {
    seq(cols, c requires 0 <= c < cols => Cell(g, rows, cols, r - dr, c - dc))
  }

  /** The grid moved down by dr and right by dc, wrapping around. */
  function Shift(g: Grid, rows: nat, cols: nat, dr: int, dc: int): (r: Grid)
    requires IsGrid(g, rows, cols)
    ensures IsGrid(r, rows, cols)
  {
    seq(rows, r requires 0 <= r < rows => ShiftRow(g, rows, cols, dr, dc, r))
  }

  lemma StepAt(g: Grid, rows: nat, cols: nat, r: nat, c: nat)
    requires IsGrid(g, rows, cols) && r < rows && c < cols
    ensures Step(g, rows, cols)[r][c] == Next(g, rows, cols, r, c)
  {
    assert Step(g, rows, cols)[r] == StepRow(g, rows, cols, r);
  }

  lemma ShiftAt(g: Grid, rows: nat, cols: nat, dr: int, dc: int, r: nat, c: nat)
    requires IsGrid(g, rows, cols) && r < rows && c < cols
    ensures Shift(g, rows, cols, dr, dc)[r][c] == Cell(g, rows, cols, r - dr, c - dc)
  {
    assert Shift(g, rows, cols, dr, dc)[r] == ShiftRow(g, rows, cols, dr, dc, r);
  }

  function View(a: array2<int>): (g: Grid)
    reads a
    ensures IsGrid(g, a.Length0, a.Length1)
    ensures forall r, c :: 0 <= r < a.Length0 && 0 <= c < a.Length1 ==> g[r][c] == a[r, c]
  {
    seq(a.Length0, r requires 0 <= r < a.Length0 reads a =>
      seq(a.Length1, c requires 0 <= c < a.Length1 reads a => a[r, c]))
  }

  lemma GridsEqual(g: Grid, h: Grid, rows: nat, cols: nat)
    requires IsGrid(g, rows, cols) && IsGrid(h, rows, cols)
    requires forall r, c :: 0 <= r < rows && 0 <= c < cols ==> g[r][c] == h[r][c]
    ensures g == h
  {
    forall r | 0 <= r < rows
      ensures g[r] == h[r]
    {
    }
  }

  lemma CountIsNeighbours(a: array2<int>, rows: nat, cols: nat, r: nat, c: nat)
    requires a.Length0 == rows && a.Length1 == cols && r < rows && c < cols
    ensures var up, down, left, right := (r - 1) % rows, (r + 1) % rows, (c - 1) % cols, (c + 1) % cols;
            a[up, left] + a[up, c] + a[up, right] + a[r, left] + a[r, right]
            + a[down, left] + a[down, c] + a[down, right]
            == Neighbours(View(a), rows, cols, r, c)
  {
    WrapIsRemainder(r - 1, rows);
    WrapIsRemainder(r + 1, rows);
    WrapIsRemainder(c - 1, cols);
    WrapIsRemainder(c + 1, cols);
  }

  /** The next state of one cell, from its eight neighbours on the torus. */
  method NextState(grid: array2<int>, rows: nat, cols: nat, r: nat, c: nat, ghost g: Grid)
    returns (state: int)
    requires grid.Length0 == rows && grid.Length1 == cols && r < rows && c < cols && g == View(grid)
    ensures state == Step(g, rows, cols)[r][c]
  {
    var up, down := (r - 1) % rows, (r + 1) % rows;
    var left, right := (c - 1) % cols, (c + 1) % cols;
    var n := grid[up, left] + grid[up, c] + grid[up, right]
             + grid[r, left] + grid[r, right]
             + grid[down, left] + grid[down, c] + grid[down, right];
    CountIsNeighbours(grid, rows, cols, r, c);
    StepAt(g, rows, cols, r, c);
    state := if n == 3 || (n == 2 && grid[r, c] != 0) then 1 else 0;
  }

  /** Fills row r of the next generation. */
  method FillRow(grid: array2<int>, next: array2<int>, rows: nat, cols: nat, r: nat, ghost want: Grid)
    requires grid.Length0 == rows && grid.Length1 == cols && next.Length0 == rows && next.Length1 == cols
    requires grid != next && r < rows && want == Step(View(grid), rows, cols)
    modifies next
    ensures forall j :: 0 <= j < cols ==> next[r, j] == want[r][j]
    ensures forall i, j :: 0 <= i < rows && i != r && 0 <= j < cols ==> next[i, j] == old(next[i, j])
  {
    ghost var g := View(grid);
    for c := 0 to cols
      invariant View(grid) == g
      invariant forall j :: 0 <= j < c ==> next[r, j] == want[r][j]
      invariant forall i, j :: 0 <= i < rows && i != r && 0 <= j < cols ==> next[i, j] == old(next[i, j])
    {
      var state := NextState(grid, rows, cols, r, c, g);
      next[r, c] := state;
    }
  }

  /** One generation, cell by cell into a fresh grid. */
  method NextGeneration(grid: array2<int>, rows: nat, cols: nat) returns (next: array2<int>)
    requires grid.Length0 == rows && grid.Length1 == cols
    ensures fresh(next) && next.Length0 == rows && next.Length1 == cols
    ensures View(next) == Step(View(grid), rows, cols)
    ensures ZeroOne(View(grid), rows, cols) ==> forall r, c :: 0 <= r < rows && 0 <= c < cols ==>
              var live := |LiveDirections(View(grid), rows, cols, r, c)|;
              next[r, c] == if live == 3 || (live == 2 && grid[r, c] == 1) then 1 else 0
  {
    next := new int[rows, cols]((r, c) => 0);
    ghost var g := View(grid);
    ghost var want := Step(g, rows, cols);
    for r := 0 to rows
      invariant View(grid) == g
      invariant forall i, j :: 0 <= i < r && 0 <= j < cols ==> next[i, j] == want[i][j]
    {
      FillRow(grid, next, rows, cols, r, want);
    }
    GridsEqual(View(next), want, rows, cols);
    if ZeroOne(g, rows, cols) {
      forall r, c | 0 <= r < rows && 0 <= c < cols
        ensures var live := |LiveDirections(g, rows, cols, r, c)|;
                next[r, c] == if live == 3 || (live == 2 && grid[r, c] == 1) then 1 else 0
      {
        StepIsConway(g, rows, cols, r, c);
      }
    }
  }

  // ----- the rule, counted

  ghost predicate ZeroOne(g: Grid, rows: nat, cols: nat)
    requires IsGrid(g, rows, cols)
  {
    forall r, c :: 0 <= r < rows && 0 <= c < cols ==> g[r][c] == 0 || g[r][c] == 1
  }

  predicate LiveAt(g: Grid, rows: nat, cols: nat, r: int, c: int)
    requires rows > 0 && cols > 0 && IsGrid(g, rows, cols)
  {
    g[r % rows][c % cols] == 1
  }

  /** The directions in which cell (r, c) of the torus has a live neighbour. */
  ghost function LiveDirections(g: Grid, rows: nat, cols: nat, r: int, c: int): set<(int, int)>
    requires rows > 0 && cols > 0 && IsGrid(g, rows, cols)
  {
    set dr: int, dc: int
      | -1 <= dr <= 1 && -1 <= dc <= 1 && (dr != 0 || dc != 0) && LiveAt(g, rows, cols, r + dr, c + dc) :: (dr, dc)
  }

  const AROUND: seq<(int, int)> := [(-1, -1), (-1, 0), (-1, 1), (0, -1), (0, 1), (1, -1), (1, 0), (1, 1)]

  /** How many of the first k directions are in a set. */
  function CountIn(s: set<(int, int)>, k: nat): nat
    requires k <= 8
  {
    if k == 0 then 0 else CountIn(s, k - 1) + if AROUND[k - 1] in s then 1 else 0
  }

  lemma DistinctDirections()
    ensures forall i, j :: 0 <= i < j < |AROUND| ==> AROUND[i] != AROUND[j]
  {
  }

  lemma {:induction false} CountIsCard(s: set<(int, int)>, k: nat)
    requires k <= 8 && forall d :: d in s ==> d in AROUND[..k]
    ensures |s| == CountIn(s, k)
    decreases k
  {
    if k == 0 {
      assert s == {};
    } else {
      var last := AROUND[k - 1];
      assert AROUND[..k] == AROUND[..k - 1] + [last];
      DistinctDirections();
      CountIsCard(s - {last}, k - 1);
      SameCount(s, s - {last}, k - 1);
    }
  }

  lemma {:induction false} SameCount(s: set<(int, int)>, t: set<(int, int)>, k: nat)
    requires k <= 8 && forall i :: 0 <= i < k ==> (AROUND[i] in s <==> AROUND[i] in t)
    ensures CountIn(s, k) == CountIn(t, k)
  {
    if k > 0 {
      SameCount(s, t, k - 1);
    }
  }

  lemma Around(dr: int, dc: int)
    ensures (-1 <= dr <= 1 && -1 <= dc <= 1 && (dr != 0 || dc != 0)) <==> (dr, dc) in AROUND
  {
    if -1 <= dr <= 1 && -1 <= dc <= 1 && (dr != 0 || dc != 0) {
      var k := if dr == -1 then dc + 1 else if dr == 0 then (if dc == -1 then 3 else 4) else dc + 6;
      assert AROUND[k] == (dr, dc);
    }
  }

  /** What a neighbour adds to the count. */
  lemma OneDirection(g: Grid, rows: nat, cols: nat, r: nat, c: nat, k: nat, dr: int, dc: int)
    requires IsGrid(g, rows, cols) && ZeroOne(g, rows, cols) && r < rows && c < cols
    requires k < 8 && AROUND[k] == (dr, dc)
    ensures Cell(g, rows, cols, r + dr, c + dc) == if AROUND[k] in LiveDirections(g, rows, cols, r, c) then 1 else 0
  {
    Around(dr, dc);
    WrapIsRemainder(r + dr, rows);
    WrapIsRemainder(c + dc, cols);
  }

  lemma NeighboursAreCounted(g: Grid, rows: nat, cols: nat, r: nat, c: nat)
    requires IsGrid(g, rows, cols) && ZeroOne(g, rows, cols) && r < rows && c < cols
    ensures Neighbours(g, rows, cols, r, c) == |LiveDirections(g, rows, cols, r, c)|
  {
    hide LiveDirections, Cell, ZeroOne, IsGrid;
    var s := LiveDirections(g, rows, cols, r, c);
    DirectionsAreAround(g, rows, cols, r, c);
    CountIsCard(s, 8);
    OneDirection(g, rows, cols, r, c, 0, -1, -1);
    OneDirection(g, rows, cols, r, c, 1, -1, 0);
    OneDirection(g, rows, cols, r, c, 2, -1, 1);
    OneDirection(g, rows, cols, r, c, 3, 0, -1);
    OneDirection(g, rows, cols, r, c, 4, 0, 1);
    OneDirection(g, rows, cols, r, c, 5, 1, -1);
    OneDirection(g, rows, cols, r, c, 6, 1, 0);
    OneDirection(g, rows, cols, r, c, 7, 1, 1);
    CountOfEight(s);
  }

  lemma {:induction false} CountOfEight(s: set<(int, int)>)
    ensures CountIn(s, 8) ==
              (if AROUND[0] in s then 1 else 0) + (if AROUND[1] in s then 1 else 0)
              + (if AROUND[2] in s then 1 else 0) + (if AROUND[3] in s then 1 else 0)
              + (if AROUND[4] in s then 1 else 0) + (if AROUND[5] in s then 1 else 0)
              + (if AROUND[6] in s then 1 else 0) + (if AROUND[7] in s then 1 else 0)
  {
    assert CountIn(s, 0) == 0;
    assert CountIn(s, 1) == if AROUND[0] in s then 1 else 0;
    assert CountIn(s, 2) == CountIn(s, 1) + if AROUND[1] in s then 1 else 0;
    assert CountIn(s, 3) == CountIn(s, 2) + if AROUND[2] in s then 1 else 0;
    assert CountIn(s, 4) == CountIn(s, 3) + if AROUND[3] in s then 1 else 0;
    assert CountIn(s, 5) == CountIn(s, 4) + if AROUND[4] in s then 1 else 0;
    assert CountIn(s, 6) == CountIn(s, 5) + if AROUND[5] in s then 1 else 0;
    assert CountIn(s, 7) == CountIn(s, 6) + if AROUND[6] in s then 1 else 0;
    assert CountIn(s, 8) == CountIn(s, 7) + if AROUND[7] in s then 1 else 0;
  }

  lemma DirectionsAreAround(g: Grid, rows: nat, cols: nat, r: nat, c: nat)
    requires IsGrid(g, rows, cols) && r < rows && c < cols
    ensures forall d :: d in LiveDirections(g, rows, cols, r, c) ==> d in AROUND[..8]
  {
    assert AROUND[..8] == AROUND;
    forall d | d in LiveDirections(g, rows, cols, r, c)
      ensures d in AROUND
    {
      Around(d.0, d.1);
    }
  }

  /** Main result about the rule: on every torus a cell lives on exactly with three live neighbours, or with two if it
      lives; neighbours are counted by direction, so that on a narrow torus one cell can be several neighbours. */
  lemma StepIsConway(g: Grid, rows: nat, cols: nat, r: nat, c: nat)
    requires IsGrid(g, rows, cols) && ZeroOne(g, rows, cols) && r < rows && c < cols
    ensures var live := |LiveDirections(g, rows, cols, r, c)|;
            Step(g, rows, cols)[r][c] == if live == 3 || (live == 2 && g[r][c] == 1) then 1 else 0
  {
    NeighboursAreCounted(g, rows, cols, r, c);
    StepAt(g, rows, cols, r, c);
  }

  // ----- shifts

  lemma {:induction false} WrapAdd(a: int, b: int, n: nat)
    requires n > 0
    ensures Wrap(Wrap(a, n) + b, n) == Wrap(a + b, n)
    decreases if a < 0 then n - a else a
  {
    if a < 0 {
      WrapAdd(a + n, b, n);
      WrapStep(a + b, n);
    } else if a >= n {
      WrapAdd(a - n, b, n);
      WrapStep(a - n + b, n);
    }
  }

  lemma {:induction false} WrapStep(x: int, n: nat)
    requires n > 0
    ensures Wrap(x + n, n) == Wrap(x, n)
    decreases if x < 0 then n - x else x
  {
    if x + n < 0 {
      WrapStep(x + n, n);
    }
  }

  lemma CellOfShift(g: Grid, rows: nat, cols: nat, dr: int, dc: int, r: int, c: int)
    requires rows > 0 && cols > 0 && IsGrid(g, rows, cols)
    ensures Cell(Shift(g, rows, cols, dr, dc), rows, cols, r, c) == Cell(g, rows, cols, r - dr, c - dc)
  {
    ShiftAt(g, rows, cols, dr, dc, Wrap(r, rows), Wrap(c, cols));
    WrapAdd(r, -dr, rows);
    WrapAdd(c, -dc, cols);
    assert Wrap(Wrap(r, rows) - dr, rows) == Wrap(r - dr, rows);
    assert Wrap(Wrap(c, cols) - dc, cols) == Wrap(c - dc, cols);
  }

  lemma NeighboursOfShift(g: Grid, rows: nat, cols: nat, dr: int, dc: int, r: int, c: int)
    requires rows > 0 && cols > 0 && IsGrid(g, rows, cols)
    ensures Neighbours(Shift(g, rows, cols, dr, dc), rows, cols, r, c) == Neighbours(g, rows, cols, r - dr, c - dc)
  {
    CellOfShift(g, rows, cols, dr, dc, r - 1, c - 1);
    CellOfShift(g, rows, cols, dr, dc, r - 1, c);
    CellOfShift(g, rows, cols, dr, dc, r - 1, c + 1);
    CellOfShift(g, rows, cols, dr, dc, r, c - 1);
    CellOfShift(g, rows, cols, dr, dc, r, c + 1);
    CellOfShift(g, rows, cols, dr, dc, r + 1, c - 1);
    CellOfShift(g, rows, cols, dr, dc, r + 1, c);
    CellOfShift(g, rows, cols, dr, dc, r + 1, c + 1);
  }

  lemma {:induction false} NeighboursWrap(g: Grid, rows: nat, cols: nat, r: int, c: int)
    requires rows > 0 && cols > 0 && IsGrid(g, rows, cols)
    ensures Neighbours(g, rows, cols, Wrap(r, rows), Wrap(c, cols)) == Neighbours(g, rows, cols, r, c)
  {
    WrapAdd(r, -1, rows);
    WrapAdd(r, 0, rows);
    WrapAdd(r, 1, rows);
    WrapAdd(c, -1, cols);
    WrapAdd(c, 0, cols);
    WrapAdd(c, 1, cols);
  }

  lemma StepOfShiftAt(g: Grid, rows: nat, cols: nat, dr: int, dc: int, r: nat, c: nat)
    requires IsGrid(g, rows, cols) && r < rows && c < cols
    ensures Step(Shift(g, rows, cols, dr, dc), rows, cols)[r][c] == Shift(Step(g, rows, cols), rows, cols, dr, dc)[r][c]
  {
    var h, next := Shift(g, rows, cols, dr, dc), Step(g, rows, cols);
    var i, j := Wrap(r - dr, rows), Wrap(c - dc, cols);
    StepAt(h, rows, cols, r, c);
    ShiftAt(g, rows, cols, dr, dc, r, c);
    ShiftAt(next, rows, cols, dr, dc, r, c);
    StepAt(g, rows, cols, i, j);
    NeighboursOfShift(g, rows, cols, dr, dc, r, c);
    NeighboursWrap(g, rows, cols, r - dr, c - dc);
  }

  /** Main result: on every torus, one generation commutes with every shift. */
  lemma StepCommutesWithShift(g: Grid, rows: nat, cols: nat, dr: int, dc: int)
    requires IsGrid(g, rows, cols)
    ensures Step(Shift(g, rows, cols, dr, dc), rows, cols) == Shift(Step(g, rows, cols), rows, cols, dr, dc)
  {
    var a, b := Step(Shift(g, rows, cols, dr, dc), rows, cols), Shift(Step(g, rows, cols), rows, cols, dr, dc);
    forall r, c | 0 <= r < rows && 0 <= c < cols
      ensures a[r][c] == b[r][c]
    {
      StepOfShiftAt(g, rows, cols, dr, dc, r, c);
    }
    GridsEqual(a, b, rows, cols);
  }

  // ----- the glider

  /** The glider's cells in its four phases, and again in the fifth, one row and one column on. */
  predicate Glider(phase: nat, r: int, c: int) {
    match phase
    case 0 => (r == 0 && c == 1) || (r == 1 && c == 2) || (r == 2 && 0 <= c <= 2)
    case 1 => (r == 1 && (c == 0 || c == 2)) || (r == 2 && 1 <= c <= 2) || (r == 3 && c == 1)
    case 2 => (r == 1 && c == 2) || (r == 2 && (c == 0 || c == 2)) || (r == 3 && 1 <= c <= 2)
    case 3 => (r == 1 && c == 1) || (r == 2 && 2 <= c <= 3) || (r == 3 && 1 <= c <= 2)
    case _ => (r == 1 && c == 2) || (r == 2 && c == 3) || (r == 3 && 1 <= c <= 3)
  }

  function State(phase: nat, r: int, c: int): int {
    if Glider(phase, r, c) then 1 else 0
  }

  /** The glider's cells around a position of the unbounded plane. */
  function PlaneNeighbours(phase: nat, r: int, c: int): int {
    State(phase, r - 1, c - 1) + State(phase, r - 1, c) + State(phase, r - 1, c + 1)
    + State(phase, r, c - 1) + State(phase, r, c + 1)
    + State(phase, r + 1, c - 1) + State(phase, r + 1, c) + State(phase, r + 1, c + 1)
  }

  lemma PlaneStep(phase: nat, r: int, c: int)
    requires phase < 4
    ensures Rule(PlaneNeighbours(phase, r, c), State(phase, r, c)) == State(phase + 1, r, c)
  {
  }

  function PhaseRow(phase: nat, cols: nat, r: nat): (row: seq<int>)
    ensures |row| == cols && forall c :: 0 <= c < cols ==> row[c] == State(phase, r, c)
  {
    seq(cols, c requires 0 <= c < cols => State(phase, r, c))
  }

  /** An otherwise empty grid with the glider in its corner. */
  function PhaseGrid(phase: nat, rows: nat, cols: nat): (g: Grid)
    ensures IsGrid(g, rows, cols)
  {
    seq(rows, r requires 0 <= r < rows => PhaseRow(phase, cols, r))
  }

  /** An otherwise empty grid with the glider anywhere. */
  function GliderAt(rows: nat, cols: nat, baseR: int, baseC: int): (g: Grid)
    ensures IsGrid(g, rows, cols)
  {
    Shift(PhaseGrid(0, rows, cols), rows, cols, baseR, baseC)
  }

  /** In a row or column of at least 6, the wrapped grid agrees with the plane around the glider. */
  lemma PlaneCell(phase: nat, rows: nat, cols: nat, r: int, c: int)
    requires rows >= 6 && cols >= 6 && -2 <= r < rows && -2 <= c < cols
    ensures Cell(PhaseGrid(phase, rows, cols), rows, cols, r, c) == State(phase, r, c)
  {
    var i, j := if r < 0 then r + rows else r, if c < 0 then c + cols else c;
    assert Wrap(r, rows) == i && Wrap(c, cols) == j;
    assert PhaseGrid(phase, rows, cols)[i] == PhaseRow(phase, cols, i);
  }

  /** The last row and column stand for those before the first. */
  function Centred(i: nat, n: nat): int {
    if i + 1 == n then -1 else i
  }

  lemma PhaseNeighbours(phase: nat, rows: nat, cols: nat, r: nat, c: nat)
    requires rows >= 6 && cols >= 6 && r < rows && c < cols
    ensures Neighbours(PhaseGrid(phase, rows, cols), rows, cols, r, c) ==
              PlaneNeighbours(phase, Centred(r, rows), Centred(c, cols))
  {
    var g, x, y := PhaseGrid(phase, rows, cols), Centred(r, rows), Centred(c, cols);
    NeighboursWrap(g, rows, cols, x, y);
    assert Wrap(x, rows) == r && Wrap(y, cols) == c;
    PlaneCell(phase, rows, cols, x - 1, y - 1);
    PlaneCell(phase, rows, cols, x - 1, y);
    PlaneCell(phase, rows, cols, x - 1, y + 1);
    PlaneCell(phase, rows, cols, x, y - 1);
    PlaneCell(phase, rows, cols, x, y + 1);
    PlaneCell(phase, rows, cols, x + 1, y - 1);
    PlaneCell(phase, rows, cols, x + 1, y);
    PlaneCell(phase, rows, cols, x + 1, y + 1);
  }

  lemma PhaseStep(phase: nat, rows: nat, cols: nat)
    requires rows >= 6 && cols >= 6 && phase < 4
    ensures Step(PhaseGrid(phase, rows, cols), rows, cols) == PhaseGrid(phase + 1, rows, cols)
  {
    var g, next := PhaseGrid(phase, rows, cols), PhaseGrid(phase + 1, rows, cols);
    forall r, c | 0 <= r < rows && 0 <= c < cols
      ensures Step(g, rows, cols)[r][c] == next[r][c]
    {
      PhaseNeighbours(phase, rows, cols, r, c);
      PlaneStep(phase, Centred(r, rows), Centred(c, cols));
      StepAt(g, rows, cols, r, c);
      assert g[r] == PhaseRow(phase, cols, r) && next[r] == PhaseRow(phase + 1, cols, r);
    }
    GridsEqual(Step(g, rows, cols), next, rows, cols);
  }

  lemma ShiftOfShift(g: Grid, rows: nat, cols: nat, a: int, b: int, dr: int, dc: int)
    requires IsGrid(g, rows, cols)
    ensures Shift(Shift(g, rows, cols, a, b), rows, cols, dr, dc) == Shift(g, rows, cols, a + dr, b + dc)
  {
    var h := Shift(g, rows, cols, a, b);
    forall r, c | 0 <= r < rows && 0 <= c < cols
      ensures Shift(h, rows, cols, dr, dc)[r][c] == Shift(g, rows, cols, a + dr, b + dc)[r][c]
    {
      ShiftAt(h, rows, cols, dr, dc, r, c);
      ShiftAt(g, rows, cols, a + dr, b + dc, r, c);
      CellOfShift(g, rows, cols, a, b, r - dr, c - dc);
      assert r - dr - a == r - (a + dr) && c - dc - b == c - (b + dc);
    }
    GridsEqual(Shift(h, rows, cols, dr, dc), Shift(g, rows, cols, a + dr, b + dc), rows, cols);
  }

  lemma LastPhaseIsShifted(rows: nat, cols: nat)
    requires rows >= 6 && cols >= 6
    ensures PhaseGrid(4, rows, cols) == Shift(PhaseGrid(0, rows, cols), rows, cols, 1, 1)
  {
    var g, h := PhaseGrid(4, rows, cols), PhaseGrid(0, rows, cols);
    forall r, c | 0 <= r < rows && 0 <= c < cols
      ensures g[r][c] == Shift(h, rows, cols, 1, 1)[r][c]
    {
      ShiftAt(h, rows, cols, 1, 1, r, c);
      PlaneCell(0, rows, cols, r - 1, c - 1);
      assert g[r] == PhaseRow(4, cols, r);
    }
    GridsEqual(g, Shift(h, rows, cols, 1, 1), rows, cols);
  }

  function Steps(g: Grid, rows: nat, cols: nat, n: nat): (r: Grid)
    requires IsGrid(g, rows, cols)
    ensures IsGrid(r, rows, cols)
  {
    if n == 0 then g else Step(Steps(g, rows, cols, n - 1), rows, cols)
  }

  lemma {:induction false} PhaseAfter(rows: nat, cols: nat, baseR: int, baseC: int, n: nat)
    requires rows >= 6 && cols >= 6 && n <= 4
    ensures Steps(GliderAt(rows, cols, baseR, baseC), rows, cols, n) ==
              Shift(PhaseGrid(n, rows, cols), rows, cols, baseR, baseC)
  {
    if n > 0 {
      PhaseAfter(rows, cols, baseR, baseC, n - 1);
      StepCommutesWithShift(PhaseGrid(n - 1, rows, cols), rows, cols, baseR, baseC);
      PhaseStep(n - 1, rows, cols);
    }
  }

  /** Main result: on every torus of at least 6 by 6, a lone glider at any position is, four generations later,
      the same glider one row and one column on. */
  lemma {:induction false} GliderTravels(rows: nat, cols: nat, baseR: int, baseC: int)
    requires rows >= 6 && cols >= 6
    ensures Steps(GliderAt(rows, cols, baseR, baseC), rows, cols, 4) == GliderAt(rows, cols, baseR + 1, baseC + 1)
    ensures Steps(GliderAt(rows, cols, baseR, baseC), rows, cols, 4) ==
              Shift(GliderAt(rows, cols, baseR, baseC), rows, cols, 1, 1)
  {
    var g := PhaseGrid(0, rows, cols);
    PhaseAfter(rows, cols, baseR, baseC, 4);
    LastPhaseIsShifted(rows, cols);
    ShiftOfShift(g, rows, cols, 1, 1, baseR, baseC);
    ShiftOfShift(g, rows, cols, baseR, baseC, 1, 1);
  }

  const GLIDER: seq<(nat, nat)> := [(0, 1), (1, 2), (2, 0), (2, 1), (2, 2)]

  /** Drops a glider at a drawn position; fields smaller than 6 by 6 are left alone. */
  method InjectGlider(grid: array2<int>, rows: nat, cols: nat, baseR: nat, baseC: nat)
    requires grid.Length0 == rows && grid.Length1 == cols
    requires rows >= 6 && cols >= 6 ==> 1 <= baseR < rows - 4 && 1 <= baseC < cols - 4
    modifies grid
    ensures rows < 6 || cols < 6 ==> View(grid) == old(View(grid))
    ensures rows >= 6 && cols >= 6 ==> forall r, c :: 0 <= r < rows && 0 <= c < cols ==>
              grid[r, c] == if (r - baseR, c - baseC) in {(0, 1), (1, 2), (2, 0), (2, 1), (2, 2)} then 1
                            else old(grid[r, c])
  {
    if rows < 6 || cols < 6 {
      return;
    }
    for k := 0 to |GLIDER|
      invariant forall r, c :: 0 <= r < rows && 0 <= c < cols ==>
        grid[r, c] == if exists j :: 0 <= j < k && GLIDER[j] == (r - baseR, c - baseC) then 1 else old(grid[r, c])
    {
      var (dr, dc) := GLIDER[k];
      grid[baseR + dr, baseC + dc] := 1;
    }
    forall r, c
      ensures (r, c) in {(0, 1), (1, 2), (2, 0), (2, 1), (2, 2)} <==>
              exists j :: 0 <= j < |GLIDER| && GLIDER[j] == (r, c)
    {
      assert GLIDER[0] == (0, 1) && GLIDER[1] == (1, 2) && GLIDER[2] == (2, 0);
      assert GLIDER[3] == (2, 1) && GLIDER[4] == (2, 2);
    }
  }

  /** The five cells of a glider, and nothing else, are live. */
  ghost predicate OnlyGlider(g: Grid, rows: nat, cols: nat, baseR: nat, baseC: nat)
    requires IsGrid(g, rows, cols)
  {
    forall r, c :: 0 <= r < rows && 0 <= c < cols ==>
      g[r][c] == if (r - baseR, c - baseC) in {(0, 1), (1, 2), (2, 0), (2, 1), (2, 2)} then 1 else 0
  }

  lemma FiveCells(r: int, c: int)
    ensures State(0, r, c) == if (r, c) in {(0, 1), (1, 2), (2, 0), (2, 1), (2, 2)} then 1 else 0
  {
  }

  lemma OnlyGliderIsGliderAt(g: Grid, rows: nat, cols: nat, baseR: nat, baseC: nat)
    requires rows >= 6 && cols >= 6 && IsGrid(g, rows, cols) && 1 <= baseR < rows - 4 && 1 <= baseC < cols - 4
    requires OnlyGlider(g, rows, cols, baseR, baseC)
    ensures g == GliderAt(rows, cols, baseR, baseC)
  {
    hide State, Cell;
    var h := GliderAt(rows, cols, baseR, baseC);
    forall r, c | 0 <= r < rows && 0 <= c < cols
      ensures g[r][c] == h[r][c]
    {
      ShiftAt(PhaseGrid(0, rows, cols), rows, cols, baseR, baseC, r, c);
      InjectedCell(rows, cols, r - baseR, c - baseC);
      FiveCells(r - baseR, c - baseC);
    }
    GridsEqual(g, h, rows, cols);
  }

  lemma ShiftedByOne(g: Grid, rows: nat, cols: nat, r: nat, c: nat)
    requires IsGrid(g, rows, cols) && r < rows && c < cols
    ensures Shift(g, rows, cols, 1, 1)[r][c] == g[(r - 1) % rows][(c - 1) % cols]
  {
    ShiftAt(g, rows, cols, 1, 1, r, c);
    WrapIsRemainder(r - 1, rows);
    WrapIsRemainder(c - 1, cols);
  }

  /** On an empty field the dropped glider travels: four generations later every cell is what the cell one row and one
      column before it was. */
  lemma {:induction false} InjectedGliderTravels(g: Grid, rows: nat, cols: nat, baseR: nat, baseC: nat)
    requires rows >= 6 && cols >= 6 && IsGrid(g, rows, cols) && 1 <= baseR < rows - 4 && 1 <= baseC < cols - 4
    requires OnlyGlider(g, rows, cols, baseR, baseC)
    ensures forall r, c :: 0 <= r < rows && 0 <= c < cols ==>
              Steps(g, rows, cols, 4)[r][c] == g[(r - 1) % rows][(c - 1) % cols]
  {
    hide OnlyGlider, GliderAt, Steps, Shift;
    OnlyGliderIsGliderAt(g, rows, cols, baseR, baseC);
    GliderTravels(rows, cols, baseR, baseC);
    forall r, c | 0 <= r < rows && 0 <= c < cols
      ensures Steps(g, rows, cols, 4)[r][c] == g[(r - 1) % rows][(c - 1) % cols]
    {
      ShiftedByOne(g, rows, cols, r, c);
    }
  }

  lemma InjectedCell(rows: nat, cols: nat, r: int, c: int)
    requires rows >= 6 && cols >= 6 && 4 - rows < r < rows && 4 - cols < c < cols
    ensures Cell(PhaseGrid(0, rows, cols), rows, cols, r, c) == State(0, r, c)
  {
    var i, j := if r < 0 then r + rows else r, if c < 0 then c + cols else c;
    assert Wrap(r, rows) == i && Wrap(c, cols) == j;
    PlaneCell(0, rows, cols, i, j);
  }
}
