/** Colours, moves and board positions of the Network player, and the two
    primitive board updates (placing and lifting one chip) out of which the
    engine builds its apply/undo pair. */
module Moves {

  const BLACK := 0
  const WHITE := 1
  const EMPTY := 2

  /** The padded grid is SIZE x SIZE; the playable area is indices 1..8. */
  const SIZE := 10
  /** Chips each colour starts with. */
  const CHIPS := 10

  predicate IsColor(p: int) { p == BLACK || p == WHITE }

  function Opponent(p: int): (q: int)
    requires IsColor(p)
    ensures IsColor(q) && q != p
  {
    (p + 1) % 2
  }

  datatype Option<T> = None | Some(value: T)

  datatype MoveKind = Quit | Add | Step

  /** A move: for Add the destination is (x1, y1); for Step the chip at
      (x2, y2) moves to (x1, y1). Coordinates are logical (0..7). */
  datatype Move = Move(kind: MoveKind, x1: int, y1: int, x2: int, y2: int)

  function AddMove(x: int, y: int): Move { Move(Add, x, y, 0, 0) }

  function StepMove(x1: int, y1: int, x2: int, y2: int): Move { Move(Step, x1, y1, x2, y2) }

  /** The coordinates the board reads for this move lie inside the padded
      grid once shifted by one, so no array access goes out of bounds. */
  predicate InGrid(m: Move) {
    m.kind == Quit ||
    (-1 <= m.x1 <= 8 && -1 <= m.y1 <= 8 && (m.kind == Step ==> -1 <= m.x2 <= 8 && -1 <= m.y2 <= 8))
  }

  /** The destination (and, for a step, the source) is a logical square. */
  predicate OnBoard(m: Move) {
    0 <= m.x1 <= 7 && 0 <= m.y1 <= 7 && (m.kind == Step ==> 0 <= m.x2 <= 7 && 0 <= m.y2 <= 7)
  }

  /** The item of every padded cell, indexed [x][y]. */
  type Grid = seq<seq<int>>

  predicate IsGrid(g: Grid) {
    |g| == SIZE && forall i :: 0 <= i < SIZE ==> |g[i]| == SIZE
  }

  /** A grid whose items are colours or EMPTY and whose padding ring is empty. */
  predicate WellFormed(g: Grid) {
    IsGrid(g) &&
    (forall i, j :: 0 <= i < SIZE && 0 <= j < SIZE ==> g[i][j] == BLACK || g[i][j] == WHITE || g[i][j] == EMPTY) &&
    (forall i, j :: 0 <= i < SIZE && 0 <= j < SIZE && (i == 0 || i == SIZE - 1 || j == 0 || j == SIZE - 1) ==> g[i][j] == EMPTY)
  }

  predicate IsItem(v: int) { v == BLACK || v == WHITE || v == EMPTY }

  function SetCell(g: Grid, i: int, j: int, v: int): (r: Grid)
    requires IsGrid(g) && 0 <= i < SIZE && 0 <= j < SIZE
    ensures IsGrid(r) && r[i][j] == v
    ensures forall a, b {:trigger r[a][b]} :: 0 <= a < SIZE && 0 <= b < SIZE && (a, b) != (i, j) ==> r[a][b] == g[a][b]
  {
    g[i := g[i][j := v]]
  }

  /** Writing an item to a playable cell keeps the grid well formed. */
  lemma SetCellWellFormed(g: Grid, i: int, j: int, v: int)
    requires WellFormed(g) && 1 <= i <= 8 && 1 <= j <= 8 && IsItem(v)
    ensures WellFormed(SetCell(g, i, j, v))
  {
  }

  /** The items and both chip counters of a board. */
  datatype Position = Position(grid: Grid, blackChips: int, whiteChips: int)

  function Chips(s: Position, p: int): int {
    if p == WHITE then s.whiteChips else s.blackChips
  }

  /** Every cell of h other than (a, b) and (c, d) is as in g. */
  predicate Others(g: Grid, h: Grid, a: int, b: int, c: int, d: int)
    requires IsGrid(g) && IsGrid(h)
  {
    forall i, j {:trigger h[i][j]} :: 0 <= i < SIZE && 0 <= j < SIZE && (i, j) != (a, b) && (i, j) != (c, d) ==> h[i][j] == g[i][j]
  }

  /** addWhite / addBlack: the padded cell of (x, y) holds p's chip and p has
      one chip fewer in hand. Any (x, y) whose padded cell exists is allowed. */
  function Put(s: Position, x: int, y: int, p: int): (r: Position)
    requires IsGrid(s.grid) && IsColor(p) && -1 <= x <= 8 && -1 <= y <= 8
    ensures IsGrid(r.grid) && r.grid[x + 1][y + 1] == p
    ensures Chips(r, p) == Chips(s, p) - 1 && Chips(r, Opponent(p)) == Chips(s, Opponent(p))
    ensures Others(s.grid, r.grid, x + 1, y + 1, x + 1, y + 1)
  {
    var g := SetCell(s.grid, x + 1, y + 1, p);
    if p == WHITE then Position(g, s.blackChips, s.whiteChips - 1)
    else Position(g, s.blackChips - 1, s.whiteChips)
  }

  /** removeChip: the padded cell of (x, y) becomes empty and p has one more
      chip in hand. */
  function Take(s: Position, x: int, y: int, p: int): (r: Position)
    requires IsGrid(s.grid) && IsColor(p) && -1 <= x <= 8 && -1 <= y <= 8
    ensures IsGrid(r.grid) && r.grid[x + 1][y + 1] == EMPTY
    ensures Chips(r, p) == Chips(s, p) + 1 && Chips(r, Opponent(p)) == Chips(s, Opponent(p))
    ensures Others(s.grid, r.grid, x + 1, y + 1, x + 1, y + 1)
  {
    var g := SetCell(s.grid, x + 1, y + 1, EMPTY);
    if p == WHITE then Position(g, s.blackChips, s.whiteChips + 1)
    else Position(g, s.blackChips + 1, s.whiteChips)
  }

  /** updateGameBoard: put p's chip on the destination, then for a step
      lift it from the source. */
  function Apply(s: Position, m: Move, p: int): (r: Position)
    requires IsGrid(s.grid) && IsColor(p) && OnBoard(m)
    ensures IsGrid(r.grid) && Chips(r, Opponent(p)) == Chips(s, Opponent(p))
    ensures m.kind != Step ==> r.grid[m.x1 + 1][m.y1 + 1] == p && Chips(r, p) == Chips(s, p) - 1
    ensures m.kind == Step ==> r.grid[m.x2 + 1][m.y2 + 1] == EMPTY && Chips(r, p) == Chips(s, p)
    ensures m.kind == Step && (m.x1, m.y1) != (m.x2, m.y2) ==> r.grid[m.x1 + 1][m.y1 + 1] == p
    ensures Others(s.grid, r.grid, m.x1 + 1, m.y1 + 1, if m.kind == Step then m.x2 + 1 else m.x1 + 1, if m.kind == Step then m.y2 + 1 else m.y1 + 1)
  {
    var s1 := Put(s, m.x1, m.y1, p);
    if m.kind == Step then Take(s1, m.x2, m.y2, p) else s1
  }

  /** undoMove: nothing when the destination is empty; otherwise lift the
      destination chip and, for a step, put p's chip back on the source. */
  function Undo(s: Position, m: Move, p: int): (r: Position)
    requires IsGrid(s.grid) && IsColor(p) && OnBoard(m)
    ensures s.grid[m.x1 + 1][m.y1 + 1] == EMPTY ==> r == s
    ensures IsGrid(r.grid) && Chips(r, Opponent(p)) == Chips(s, Opponent(p))
    ensures s.grid[m.x1 + 1][m.y1 + 1] != EMPTY && m.kind != Step ==> r.grid[m.x1 + 1][m.y1 + 1] == EMPTY && Chips(r, p) == Chips(s, p) + 1
    ensures s.grid[m.x1 + 1][m.y1 + 1] != EMPTY && m.kind == Step ==> r.grid[m.x2 + 1][m.y2 + 1] == p && Chips(r, p) == Chips(s, p)
    ensures s.grid[m.x1 + 1][m.y1 + 1] != EMPTY && m.kind == Step && (m.x1, m.y1) != (m.x2, m.y2) ==> r.grid[m.x1 + 1][m.y1 + 1] == EMPTY
    ensures Others(s.grid, r.grid, m.x1 + 1, m.y1 + 1, if m.kind == Step then m.x2 + 1 else m.x1 + 1, if m.kind == Step then m.y2 + 1 else m.y1 + 1)
  {
    if s.grid[m.x1 + 1][m.y1 + 1] == EMPTY then s
    else
      var s1 := Take(s, m.x1, m.y1, p);
      if m.kind == Step then Put(s1, m.x2, m.y2, p) else s1
  }

  /** The move's destination is empty and, for a step, its source holds p's
      chip: the situation in which the engine applies a move. */
  predicate Applicable(s: Position, m: Move, p: int)
    requires IsGrid(s.grid) && OnBoard(m)
  {
    s.grid[m.x1 + 1][m.y1 + 1] == EMPTY &&
    (m.kind == Step ==> s.grid[m.x2 + 1][m.y2 + 1] == p)
  }

  lemma GridEq(g: Grid, h: Grid)
    requires IsGrid(g) && IsGrid(h)
    requires forall a, b :: 0 <= a < SIZE && 0 <= b < SIZE ==> g[a][b] == h[a][b]
    ensures g == h
  {
    forall a | 0 <= a < SIZE ensures g[a] == h[a] {
      assert forall b :: 0 <= b < SIZE ==> g[a][b] == h[a][b];
    }
  }

  /** Writing a cell twice keeps the second write. */
  lemma SetCellTwice(g: Grid, i: int, j: int, v: int, w: int)
    requires IsGrid(g) && 0 <= i < SIZE && 0 <= j < SIZE
    ensures SetCell(SetCell(g, i, j, v), i, j, w) == SetCell(g, i, j, w)
  {
    assert g[i][j := v][j := w] == g[i][j := w];
  }

  /** Writing a cell with the item it holds changes nothing. */
  lemma SetCellSame(g: Grid, i: int, j: int)
    requires IsGrid(g) && 0 <= i < SIZE && 0 <= j < SIZE
    ensures SetCell(g, i, j, g[i][j]) == g
  {
    assert g[i][j := g[i][j]] == g[i];
  }

  /** Writes to two different cells commute. */
  lemma SetCellSwap(g: Grid, i: int, j: int, v: int, k: int, l: int, w: int)
    requires IsGrid(g) && 0 <= i < SIZE && 0 <= j < SIZE && 0 <= k < SIZE && 0 <= l < SIZE
    requires (i, j) != (k, l)
    ensures SetCell(SetCell(g, i, j, v), k, l, w) == SetCell(SetCell(g, k, l, w), i, j, v)
  {
    if i == k {
      assert g[i][j := v][l := w] == g[i][l := w][j := v];
    }
  }

  /** Lifting p's chip from a cell and putting it back restores the position:
      this is how isValid undoes its temporary removal of a stepping chip. */
  lemma {:induction false} PutAfterTake(s: Position, x: int, y: int, p: int)
    requires IsGrid(s.grid) && IsColor(p) && 0 <= x <= 7 && 0 <= y <= 7
    requires s.grid[x + 1][y + 1] == p
    ensures Put(Take(s, x, y, p), x, y, p) == s
  {
    SetCellTwice(s.grid, x + 1, y + 1, EMPTY, p);
    SetCellSame(s.grid, x + 1, y + 1);
  }

  /** The grid side of undoing a step: put the chip on the destination,
      lift it from the source, lift it from the destination, put it back on
      the source. */
  lemma StepRoundTrip(g: Grid, d: int, e: int, x: int, y: int, p: int)
    requires IsGrid(g) && 0 <= d < SIZE && 0 <= e < SIZE && 0 <= x < SIZE && 0 <= y < SIZE
    requires (x, y) != (d, e) && g[d][e] == EMPTY && g[x][y] == p
    ensures SetCell(SetCell(SetCell(SetCell(g, d, e, p), x, y, EMPTY), d, e, EMPTY), x, y, p) == g
  {
    var g1 := SetCell(g, d, e, p);
    SetCellSwap(g1, x, y, EMPTY, d, e, EMPTY);
    SetCellTwice(g, d, e, p, EMPTY);
    SetCellSame(g, d, e);
    SetCellTwice(g, x, y, EMPTY, p);
    SetCellSame(g, x, y);
  }

  /** undoMove right after updateGameBoard restores every item and both chip
      counts, provided the destination was empty and a step's source held p's
      chip. */
  lemma UndoApply(s: Position, m: Move, p: int)
    requires IsGrid(s.grid) && IsColor(p) && OnBoard(m)
    requires Applicable(s, m, p)
    ensures Undo(Apply(s, m, p), m, p) == s
  {
    var g := s.grid;
    var d, e := m.x1 + 1, m.y1 + 1;
    if m.kind == Step {
      StepRoundTrip(g, d, e, m.x2 + 1, m.y2 + 1, p);
    } else {
      SetCellTwice(g, d, e, p, EMPTY);
      SetCellSame(g, d, e);
    }
  }
}
