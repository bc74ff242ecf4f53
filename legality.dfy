/** The placement rules of isValid as a function of the position, the
    invariant that legal play preserves, and the enumeration of legal moves
    that validMoves produces. */
module Legality {
  import opened Moves

  // ---------------------------------------------------------------------
  // Counting chips
  // ---------------------------------------------------------------------

  /** Number of cells (x, y) with y0 <= y < y1 that hold v. */
  function CountRow(g: Grid, x: int, y0: int, y1: int, v: int): (n: nat)
    requires IsGrid(g) && 0 <= x < SIZE && 0 <= y0 <= y1 <= SIZE
    decreases y1 - y0
  {
    if y1 == y0 then 0
    else CountRow(g, x, y0, y1 - 1, v) + (if g[x][y1 - 1] == v then 1 else 0)
  }

  /** Number of cells in rows x0 <= x < x1 and columns y0 <= y < y1 that hold v. */
  function CountRect(g: Grid, x0: int, x1: int, y0: int, y1: int, v: int): (n: nat)
    requires IsGrid(g) && 0 <= x0 <= x1 <= SIZE && 0 <= y0 <= y1 <= SIZE
    decreases x1 - x0
  {
    if x1 == x0 then 0
    else CountRect(g, x0, x1 - 1, y0, y1, v) + CountRow(g, x1 - 1, y0, y1, v)
  }

  /** The number of v chips in the 3x3 neighbourhood of (x, y), the cell itself included. */
  function Around(g: Grid, x: int, y: int, v: int): nat
    requires IsGrid(g) && 1 <= x <= 8 && 1 <= y <= 8
  {
    CountRect(g, x - 1, x + 2, y - 1, y + 2, v)
  }

  /** How the count of v changes when one cell changes from old to new. */
  function Delta(old_: int, new_: int, v: int): int {
    (if new_ == v then 1 else 0) - (if old_ == v then 1 else 0)
  }

  lemma {:induction false} CountRowSet(g: Grid, x: int, y0: int, y1: int, v: int, a: int, b: int, w: int)
    requires IsGrid(g) && 0 <= x < SIZE && 0 <= y0 <= y1 <= SIZE && 0 <= a < SIZE && 0 <= b < SIZE
    ensures CountRow(SetCell(g, a, b, w), x, y0, y1, v)
         == CountRow(g, x, y0, y1, v) + (if x == a && y0 <= b < y1 then Delta(g[a][b], w, v) else 0)
    decreases y1 - y0
  {
    if y1 > y0 {
      CountRowSet(g, x, y0, y1 - 1, v, a, b, w);
    }
  }

  /** Changing one cell changes a rectangle's count by that cell's Delta, if
      the cell lies inside the rectangle, and by nothing otherwise. */
  lemma {:induction false} CountRectSet(g: Grid, x0: int, x1: int, y0: int, y1: int, v: int, a: int, b: int, w: int)
    requires IsGrid(g) && 0 <= x0 <= x1 <= SIZE && 0 <= y0 <= y1 <= SIZE && 0 <= a < SIZE && 0 <= b < SIZE
    ensures CountRect(SetCell(g, a, b, w), x0, x1, y0, y1, v)
         == CountRect(g, x0, x1, y0, y1, v) + (if x0 <= a < x1 && y0 <= b < y1 then Delta(g[a][b], w, v) else 0)
    decreases x1 - x0
  {
    if x1 > x0 {
      CountRectSet(g, x0, x1 - 1, y0, y1, v, a, b, w);
      CountRowSet(g, x1 - 1, y0, y1, v, a, b, w);
    }
  }

  // ---------------------------------------------------------------------
  // The placement rules
  // ---------------------------------------------------------------------

  /** The four corners of the playable area (padded coordinates). */
  predicate IsCorner(x: int, y: int) {
    (x == 1 && y == 1) || (x == 1 && y == 8) || (y == 1 && x == 8) || (x == 8 && y == 8)
  }

  /** Cells outside the opponent's goals: Black may not use columns 1 and 8
      (White's goals), White may not use rows 1 and 8 (Black's goals). */
  predicate InOwnArea(p: int, x: int, y: int) {
    if p == BLACK then 2 <= x <= 7 && 1 <= y <= 8
    else 1 <= x <= 8 && 2 <= y <= 7
  }

  /** The grid on which the group rule is checked: for a step the moving
      chip is taken off its source first. */
  function Lifted(g: Grid, m: Move): (h: Grid)
    requires WellFormed(g)
    ensures WellFormed(h)
  {
    if m.kind == Step && 0 <= m.x2 <= 7 && 0 <= m.y2 <= 7 then SetCell(g, m.x2 + 1, m.y2 + 1, EMPTY) else g
  }

  /** The "no group of three" rule fails at destination (x, y): its
      neighbourhood already holds two or more p chips, or some p chip next to
      it has another p chip next to it (two or more in its own 3x3). */
  predicate Crowded(g: Grid, x: int, y: int, p: int)
    requires WellFormed(g) && 1 <= x <= 8 && 1 <= y <= 8
  {
    Around(g, x, y, p) >= 2 ||
    exists i, j {:trigger Around(g, i, j, p)} :: x - 1 <= i <= x + 1 && y - 1 <= j <= y + 1 && 1 <= i <= 8 && 1 <= j <= 8 &&
                   g[i][j] == p && Around(g, i, j, p) >= 2
  }

  /** The p chip, if any, at (a, b) has fewer than two p chips around it
      (itself included): the test isValid makes of each neighbour. */
  predicate Calm(g: Grid, p: int, a: int, b: int)
    requires IsGrid(g)
  {
    1 <= a <= 8 && 1 <= b <= 8 && g[a][b] == p ==> Around(g, a, b, p) < 2
  }

  /** Every cell (x, y) with y0 <= y < y1 is Calm. */
  predicate CalmRow(g: Grid, p: int, x: int, y0: int, y1: int)
    requires IsGrid(g) && 0 <= x < SIZE && 0 <= y0 <= y1 <= SIZE
    decreases y1 - y0
  {
    y1 == y0 || (CalmRow(g, p, x, y0, y1 - 1) && Calm(g, p, x, y1 - 1))
  }

  /** Every cell of rows x0 <= x < x1 and columns y0 <= y < y1 is Calm. */
  predicate CalmRect(g: Grid, p: int, x0: int, x1: int, y0: int, y1: int)
    requires IsGrid(g) && 0 <= x0 <= x1 <= SIZE && 0 <= y0 <= y1 <= SIZE
    decreases x1 - x0
  {
    x1 == x0 || (CalmRect(g, p, x0, x1 - 1, y0, y1) && CalmRow(g, p, x1 - 1, y0, y1))
  }

  lemma {:induction false} CalmRowAll(g: Grid, p: int, x: int, y0: int, y1: int)
    requires IsGrid(g) && 0 <= x < SIZE && 0 <= y0 <= y1 <= SIZE
    ensures CalmRow(g, p, x, y0, y1) <==> forall b :: y0 <= b < y1 ==> Calm(g, p, x, b)
    decreases y1 - y0
  {
    if y1 > y0 {
      CalmRowAll(g, p, x, y0, y1 - 1);
    }
  }

  /** A rectangle is calm exactly when each of its cells is. */
  lemma {:induction false} CalmRectAll(g: Grid, p: int, x0: int, x1: int, y0: int, y1: int)
    requires IsGrid(g) && 0 <= x0 <= x1 <= SIZE && 0 <= y0 <= y1 <= SIZE
    ensures CalmRect(g, p, x0, x1, y0, y1) <==> forall a, b :: x0 <= a < x1 && y0 <= b < y1 ==> Calm(g, p, a, b)
    decreases x1 - x0
  {
    if x1 > x0 {
      CalmRectAll(g, p, x0, x1 - 1, y0, y1);
      CalmRowAll(g, p, x1 - 1, y0, y1);
    }
  }

  /** The group rule as isValid's loops check it: the destination's
      neighbourhood holds two or more p chips, or the 3x3 block around it is
      not calm. */
  lemma CrowdedByScan(g: Grid, x: int, y: int, p: int)
    requires WellFormed(g) && 1 <= x <= 8 && 1 <= y <= 8
    ensures Crowded(g, x, y, p) <==> Around(g, x, y, p) >= 2 || !CalmRect(g, p, x - 1, x + 2, y - 1, y + 2)
  {
    CalmRectAll(g, p, x - 1, x + 2, y - 1, y + 2);
    if Crowded(g, x, y, p) && Around(g, x, y, p) < 2 {
      var a, b :| x - 1 <= a <= x + 1 && y - 1 <= b <= y + 1 && 1 <= a <= 8 && 1 <= b <= 8 &&
        g[a][b] == p && Around(g, a, b, p) >= 2;
      assert !Calm(g, p, a, b);
    }
    if !CalmRect(g, p, x - 1, x + 2, y - 1, y + 2) {
      var a, b :| x - 1 <= a < x + 2 && y - 1 <= b < y + 2 && !Calm(g, p, a, b);
      assert Around(g, a, b, p) >= 2;
    }
  }

  /** The answer of isValid(m, p), checked in the source's order: the
      game-over latch, Quit, no chips left for an Add, a Step from a square
      that is not p's, an occupied destination, the corners, the opponent's
      goals, and the group rule. */
  function Legal(s: Position, gameOver: bool, m: Move, p: int): (r: bool)
    requires WellFormed(s.grid) && IsColor(p) && InGrid(m)
    ensures r ==> !gameOver && m.kind != Quit && OnBoard(m) && Applicable(s, m, p)
    ensures r ==> !IsCorner(m.x1 + 1, m.y1 + 1) && InOwnArea(p, m.x1 + 1, m.y1 + 1)
    ensures r ==> (m.kind == Add ==> Chips(s, p) != 0)
    ensures r ==> !Crowded(Lifted(s.grid, m), m.x1 + 1, m.y1 + 1, p)
  {
    if gameOver then false
    else if m.kind == Quit then false
    else if m.kind == Add && Chips(s, p) == 0 then false
    else if m.kind == Step && s.grid[m.x2 + 1][m.y2 + 1] != p then false
    else
      var x, y := m.x1 + 1, m.y1 + 1;
      if s.grid[x][y] != EMPTY then false
      else if IsCorner(x, y) then false
      else if !InOwnArea(p, x, y) then false
      else !Crowded(Lifted(s.grid, m), x, y, p)
  }

  /** The placement rules of isValid after the latch and Quit: chips left
      for an Add, a Step from p's own square, an empty destination that is
      no corner and lies outside the opponent's goals. */
  predicate Fits(s: Position, m: Move, p: int)
    requires WellFormed(s.grid) && IsColor(p) && InGrid(m) && m.kind != Quit
  {
    !(m.kind == Add && Chips(s, p) == 0) &&
    !(m.kind == Step && s.grid[m.x2 + 1][m.y2 + 1] != p) &&
    s.grid[m.x1 + 1][m.y1 + 1] == EMPTY && !IsCorner(m.x1 + 1, m.y1 + 1) && InOwnArea(p, m.x1 + 1, m.y1 + 1)
  }

  /** isValid gets past the placement rules and reaches the group rule,
      which is where it lifts a stepping chip off its source for the
      duration of the check. */
  predicate Placeable(s: Position, gameOver: bool, m: Move, p: int)
    requires WellFormed(s.grid) && IsColor(p) && InGrid(m)
  {
    !gameOver && m.kind != Quit && Fits(s, m, p)
  }

  /** Once past the placement rules, isValid's answer is the group rule's. */
  lemma PlaceableLegal(s: Position, gameOver: bool, m: Move, p: int)
    requires WellFormed(s.grid) && IsColor(p) && InGrid(m) && Placeable(s, gameOver, m, p)
    ensures 1 <= m.x1 + 1 <= 8 && 1 <= m.y1 + 1 <= 8
    ensures Legal(s, gameOver, m, p) == !Crowded(Lifted(s.grid, m), m.x1 + 1, m.y1 + 1, p)
  {
  }

  // ---------------------------------------------------------------------
  // The invariant of legal play
  // ---------------------------------------------------------------------

  /** No p chip has more than one p neighbour, i.e. there is no connected
      group of three or more p chips. */
  predicate NoCluster(g: Grid, p: int)
    requires WellFormed(g)
  {
    forall i, j {:trigger Around(g, i, j, p)} :: 1 <= i <= 8 && 1 <= j <= 8 && g[i][j] == p ==> Around(g, i, j, p) <= 2
  }

  /** Number of cells (x, y), y < |row|, in p's area that hold v, where row
      is the column of items at x. The counts recurse on prefixes rather than
      on an integer bound, so the verifier never unrolls a whole board. */
  function AreaRow(row: seq<int>, p: int, x: int, v: int): (n: nat)
    decreases |row|
  {
    if row == [] then 0
    else
      var y := |row| - 1;
      AreaRow(row[..y], p, x, v) + (if row[y] == v && InOwnArea(p, x, y) then 1 else 0)
  }

  /** Number of cells (x, y), x < |rows|, in p's area that hold v. */
  function AreaCount(rows: seq<seq<int>>, p: int, v: int): (n: nat)
    decreases |rows|
  {
    if rows == [] then 0
    else
      var x := |rows| - 1;
      AreaCount(rows[..x], p, v) + AreaRow(rows[x], p, x, v)
  }

  /** Number of cells (x, y), y < n, in p's area: Black's area is columns
      2..7 from row 1 to 8, White's is columns 1..8 from row 2 to 7. */
  function AreaRowSize(p: int, x: int, n: int): nat {
    if p == BLACK then (if 2 <= x <= 7 then (if n <= 1 then 0 else if n <= 9 then n - 1 else 8) else 0)
    else if 1 <= x <= 8 then (if n <= 2 then 0 else if n <= 8 then n - 2 else 6) else 0
  }

  /** Number of cells (x, y), x < n, in p's area; 48 for the whole board. */
  function AreaSize(p: int, n: int): nat {
    if p == BLACK then 8 * (if n <= 2 then 0 else if n <= 8 then n - 2 else 6)
    else 6 * (if n <= 1 then 0 else if n <= 9 then n - 1 else 8)
  }

  /** The board invariant: each colour has between 0 and 10 chips in hand,
      exactly 10 minus that many on the board, all of them outside the
      opponent's goals, and no group of three. */
  predicate ColorConsistent(s: Position, p: int)
    requires WellFormed(s.grid)
  {
    0 <= Chips(s, p) <= CHIPS &&
    AreaCount(s.grid, p, p) == CHIPS - Chips(s, p) &&
    (forall i, j :: 0 <= i < SIZE && 0 <= j < SIZE && s.grid[i][j] == p ==> InOwnArea(p, i, j)) &&
    NoCluster(s.grid, p)
  }

  predicate Consistent(s: Position) {
    WellFormed(s.grid) && ColorConsistent(s, BLACK) && ColorConsistent(s, WHITE)
  }

  function Initial(): (s: Position)
    ensures WellFormed(s.grid)
  {
    Position(seq(SIZE, i => seq(SIZE, j => EMPTY)), CHIPS, CHIPS)
  }

  lemma {:induction false} AreaRowSet(row: seq<int>, p: int, x: int, v: int, b: int, w: int)
    requires 0 <= b < |row|
    ensures AreaRow(row[b := w], p, x, v)
         == AreaRow(row, p, x, v) + (if InOwnArea(p, x, b) then Delta(row[b], w, v) else 0)
    decreases |row|
  {
    var y := |row| - 1;
    if b < y {
      assert row[b := w][..y] == row[..y][b := w];
      AreaRowSet(row[..y], p, x, v, b, w);
    } else {
      assert row[b := w][..y] == row[..y];
    }
  }

  /** Changing one cell changes p's count of v by that cell's Delta when
      the cell lies in p's area, and by nothing otherwise. */
  lemma {:induction false} AreaCountSet(rows: seq<seq<int>>, p: int, v: int, a: int, b: int, w: int)
    requires 0 <= a < |rows| && 0 <= b < |rows[a]|
    ensures AreaCount(rows[a := rows[a][b := w]], p, v)
         == AreaCount(rows, p, v) + (if InOwnArea(p, a, b) then Delta(rows[a][b], w, v) else 0)
    decreases |rows|
  {
    var x := |rows| - 1;
    var r := rows[a := rows[a][b := w]];
    if a < x {
      assert r[..x] == rows[..x][a := rows[..x][a][b := w]];
      AreaCountSet(rows[..x], p, v, a, b, w);
    } else {
      assert r[..x] == rows[..x];
      AreaRowSet(rows[a], p, x, v, b, w);
    }
  }

  lemma {:induction false} AreaRowSplit(row: seq<int>, p: int, x: int)
    requires forall y :: 0 <= y < |row| ==> IsItem(row[y])
    ensures AreaRow(row, p, x, BLACK) + AreaRow(row, p, x, WHITE) + AreaRow(row, p, x, EMPTY) == AreaRowSize(p, x, |row|)
    decreases |row|
  {
    if row != [] {
      AreaRowSplit(row[..|row| - 1], p, x);
    }
  }

  /** Every cell of p's area holds Black, White or nothing. */
  lemma {:induction false} AreaSplit(rows: seq<seq<int>>, p: int)
    requires forall x :: 0 <= x < |rows| ==> |rows[x]| == SIZE
    requires forall x, y :: 0 <= x < |rows| && 0 <= y < SIZE ==> IsItem(rows[x][y])
    ensures AreaCount(rows, p, BLACK) + AreaCount(rows, p, WHITE) + AreaCount(rows, p, EMPTY) == AreaSize(p, |rows|)
    decreases |rows|
  {
    if rows != [] {
      var x := |rows| - 1;
      AreaSplit(rows[..x], p);
      AreaRowSplit(rows[x], p, x);
    }
  }

  // ---------------------------------------------------------------------
  // Legal moves preserve the invariant
  // ---------------------------------------------------------------------

  /** Emptying a cell never raises a neighbourhood count, so no group of
      three appears. */
  lemma LiftKeepsNoCluster(g: Grid, x: int, y: int, c: int)
    requires WellFormed(g) && IsColor(c) && 1 <= x <= 8 && 1 <= y <= 8 && NoCluster(g, c)
    ensures NoCluster(SetCell(g, x, y, EMPTY), c)
  {
    var h := SetCell(g, x, y, EMPTY);
    forall i, j | 1 <= i <= 8 && 1 <= j <= 8 && h[i][j] == c
      ensures Around(h, i, j, c) <= 2
    {
      CountRectSet(g, i - 1, i + 2, j - 1, j + 2, c, x, y, EMPTY);
      assert g[i][j] == c;
      assert Around(g, i, j, c) <= 2;
    }
  }

  /** Putting p's chip on an empty cell that the group rule accepts leaves p
      without a group of three. */
  lemma PlaceKeepsNoCluster(h: Grid, x: int, y: int, p: int)
    requires WellFormed(h) && IsColor(p) && 1 <= x <= 8 && 1 <= y <= 8 && h[x][y] == EMPTY
    requires NoCluster(h, p) && !Crowded(h, x, y, p)
    ensures NoCluster(SetCell(h, x, y, p), p)
  {
    var g := SetCell(h, x, y, p);
    forall i, j | 1 <= i <= 8 && 1 <= j <= 8 && g[i][j] == p
      ensures Around(g, i, j, p) <= 2
    {
      CountRectSet(h, i - 1, i + 2, j - 1, j + 2, p, x, y, p);
      if (i, j) != (x, y) {
        assert h[i][j] == p;
        if x - 1 <= i <= x + 1 && y - 1 <= j <= y + 1 {
          assert Around(h, i, j, p) < 2;
        } else {
          assert Around(h, i, j, p) <= 2;
        }
      }
    }
  }

  /** Putting p's chip on an empty cell changes no count of the opponent. */
  lemma PlaceKeepsOther(h: Grid, x: int, y: int, p: int, q: int)
    requires WellFormed(h) && IsColor(p) && IsColor(q) && p != q
    requires 1 <= x <= 8 && 1 <= y <= 8 && h[x][y] == EMPTY && NoCluster(h, q)
    ensures NoCluster(SetCell(h, x, y, p), q)
  {
    var g := SetCell(h, x, y, p);
    forall i, j | 1 <= i <= 8 && 1 <= j <= 8 && g[i][j] == q
      ensures Around(g, i, j, q) <= 2
    {
      CountRectSet(h, i - 1, i + 2, j - 1, j + 2, q, x, y, p);
      assert h[i][j] == q;
      assert Around(h, i, j, q) <= 2;
    }
  }

  /** The grid after a legal move: the destination holds p on the lifted
      grid, which for a step is also the grid with the destination set first
      and the source emptied second. */
  lemma ApplyGrid(s: Position, m: Move, p: int)
    requires WellFormed(s.grid) && IsColor(p) && OnBoard(m) && Applicable(s, m, p)
    ensures Apply(s, m, p).grid == SetCell(Lifted(s.grid, m), m.x1 + 1, m.y1 + 1, p)
    ensures m.kind == Step ==>
      Apply(s, m, p).grid == SetCell(SetCell(s.grid, m.x1 + 1, m.y1 + 1, p), m.x2 + 1, m.y2 + 1, EMPTY)
  {
    if m.kind == Step {
      GridEq(Apply(s, m, p).grid, SetCell(Lifted(s.grid, m), m.x1 + 1, m.y1 + 1, p));
    }
  }

  /** Putting p's chip on an empty cell of p's area adds one to p's count
      and nothing to the other colour's. */
  lemma PlaceCount(g: Grid, x: int, y: int, p: int, c: int)
    requires IsGrid(g) && 1 <= x <= 8 && 1 <= y <= 8 && g[x][y] == EMPTY && IsColor(p) && IsColor(c)
    requires InOwnArea(p, x, y)
    ensures AreaCount(SetCell(g, x, y, p), c, c) == AreaCount(g, c, c) + (if c == p then 1 else 0)
  {
    AreaCountSet(g, c, c, x, y, p);
  }

  /** Lifting p's chip from a cell of p's area takes one from p's count and
      nothing from the other colour's. */
  lemma LiftCount(g: Grid, x: int, y: int, p: int, c: int)
    requires IsGrid(g) && 1 <= x <= 8 && 1 <= y <= 8 && g[x][y] == p && IsColor(p) && IsColor(c)
    requires InOwnArea(p, x, y)
    ensures AreaCount(SetCell(g, x, y, EMPTY), c, c) == AreaCount(g, c, c) - (if c == p then 1 else 0)
  {
    AreaCountSet(g, c, c, x, y, EMPTY);
  }

  /** A move changes the mover's count on the board by one for an Add and
      by nothing for a step inside its area, and leaves the opponent's count
      alone. */
  lemma ApplyCounts(s: Position, m: Move, p: int, c: int)
    requires WellFormed(s.grid) && IsColor(p) && IsColor(c) && OnBoard(m) && Applicable(s, m, p)
    requires InOwnArea(p, m.x1 + 1, m.y1 + 1) && (m.kind == Step ==> InOwnArea(p, m.x2 + 1, m.y2 + 1))
    ensures AreaCount(Apply(s, m, p).grid, c, c) == AreaCount(s.grid, c, c) + (if c == p && m.kind != Step then 1 else 0)
  {
    var g1 := SetCell(s.grid, m.x1 + 1, m.y1 + 1, p);
    PlaceCount(s.grid, m.x1 + 1, m.y1 + 1, p, c);
    if m.kind == Step {
      assert Apply(s, m, p).grid == SetCell(g1, m.x2 + 1, m.y2 + 1, EMPTY);
      assert g1[m.x2 + 1][m.y2 + 1] == p;
      LiftCount(g1, m.x2 + 1, m.y2 + 1, p, c);
    } else {
      assert Apply(s, m, p).grid == g1;
    }
  }

  /** After a move of p that the group rule accepts, colour c (either
      player) still has no group of three. */
  lemma ApplyKeepsNoCluster(s: Position, m: Move, p: int, c: int)
    requires WellFormed(s.grid) && IsColor(p) && IsColor(c) && OnBoard(m) && Applicable(s, m, p)
    requires NoCluster(s.grid, c)
    requires c == p ==> !Crowded(Lifted(s.grid, m), m.x1 + 1, m.y1 + 1, p)
    ensures NoCluster(Apply(s, m, p).grid, c)
  {
    var h := Lifted(s.grid, m);
    ApplyGrid(s, m, p);
    if m.kind == Step {
      LiftKeepsNoCluster(s.grid, m.x2 + 1, m.y2 + 1, c);
    }
    if c == p {
      PlaceKeepsNoCluster(h, m.x1 + 1, m.y1 + 1, p);
    } else {
      PlaceKeepsOther(h, m.x1 + 1, m.y1 + 1, p, c);
    }
  }

  /** After a move of p onto a cell of p's area, every chip of colour c is
      still in c's area. */
  lemma ApplyKeepsArea(s: Position, m: Move, p: int, c: int)
    requires WellFormed(s.grid) && IsColor(p) && IsColor(c) && OnBoard(m) && Applicable(s, m, p)
    requires forall i, j :: 0 <= i < SIZE && 0 <= j < SIZE && s.grid[i][j] == c ==> InOwnArea(c, i, j)
    requires InOwnArea(p, m.x1 + 1, m.y1 + 1)
    ensures forall i, j :: 0 <= i < SIZE && 0 <= j < SIZE && Apply(s, m, p).grid[i][j] == c ==> InOwnArea(c, i, j)
  {
    ApplyGrid(s, m, p);
  }

  /** The part of the invariant about colour c (either player) survives a
      legal move of p. */
  lemma LegalKeepsColor(s: Position, gameOver: bool, m: Move, p: int, c: int)
    requires WellFormed(s.grid) && IsColor(p) && IsColor(c) && InGrid(m) && Legal(s, gameOver, m, p)
    requires ColorConsistent(s, c) && ColorConsistent(s, p)
    ensures WellFormed(Apply(s, m, p).grid) && ColorConsistent(Apply(s, m, p), c)
  {
    ApplyGrid(s, m, p);
    SetCellWellFormed(Lifted(s.grid, m), m.x1 + 1, m.y1 + 1, p);
    ApplyKeepsNoCluster(s, m, p, c);
    ApplyKeepsArea(s, m, p, c);
    ApplyCounts(s, m, p, c);
  }

  /** Every move isValid accepts keeps the board invariant: chips in hand and
      on the board still add up to ten for each colour, every chip stays out
      of the opponent's goals, and neither colour has a group of three. */
  lemma LegalKeepsConsistent(s: Position, gameOver: bool, m: Move, p: int)
    requires Consistent(s) && IsColor(p) && InGrid(m) && Legal(s, gameOver, m, p)
    ensures Consistent(Apply(s, m, p))
  {
    LegalKeepsColor(s, gameOver, m, p, BLACK);
    LegalKeepsColor(s, gameOver, m, p, WHITE);
  }

  lemma {:induction false} AreaRowNone(row: seq<int>, p: int, x: int, v: int)
    requires forall y :: 0 <= y < |row| ==> row[y] != v
    ensures AreaRow(row, p, x, v) == 0
    decreases |row|
  {
    if row != [] {
      AreaRowNone(row[..|row| - 1], p, x, v);
    }
  }

  /** A grid without any v counts no v anywhere. */
  lemma {:induction false} AreaCountNone(rows: seq<seq<int>>, p: int, v: int)
    requires forall x, y :: 0 <= x < |rows| && 0 <= y < |rows[x]| ==> rows[x][y] != v
    ensures AreaCount(rows, p, v) == 0
    decreases |rows|
  {
    if rows != [] {
      AreaCountNone(rows[..|rows| - 1], p, v);
      AreaRowNone(rows[|rows| - 1], p, |rows| - 1, v);
    }
  }

  /** The empty board with all chips in hand satisfies the invariant. */
  lemma InitialConsistent()
    ensures Consistent(Initial())
  {
    var g := Initial().grid;
    AreaCountNone(g, BLACK, BLACK);
    AreaCountNone(g, WHITE, WHITE);
  }
}
