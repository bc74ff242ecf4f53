/** The game board: a padded 10x10 grid of cells, each with an item, the
    coordinate list of the chips it sees and a visited flag, and the two
    chip counters. Every operation is specified against the functions of
    Moves, Legality, MoveLists and Visibility applied to the board's
    contents. */
module Boards {
  import opened Moves
  import opened Legality
  import opened MoveLists
  import opened Visibility

  /** The static GAMEOVER flag, which every board shares. */
  class Latch {
    var over: bool

    constructor ()
      ensures !over
    {
      over := false;
    }
  }

  /** A coordinate list per cell of the padded grid, indexed [x][y]. */
  type Table = seq<seq<seq<Sight>>>

  predicate IsTable(c: Table) {
    |c| == SIZE && forall i :: 0 <= i < SIZE ==> |c[i]| == SIZE
  }

  class Board {
    /** The item of each cell (BLACK, WHITE or EMPTY), indexed [x, y]. */
    const items: array2<int>
    /** The visited flag of each cell, which the network search sets. */
    const visited: array2<bool>
    /** The coordinate list of each cell, which basicSeerFcn fills. */
    const lists: array2<seq<Sight>>
    var blackChips: int
    var whiteChips: int
    const latch: Latch
    /** The contents of the three arrays as values. */
    ghost var grid: Grid
    ghost var marks: Marks
    ghost var table: Table

    ghost predicate Valid()
      reads this, items, visited, lists
    {
      items.Length0 == SIZE && items.Length1 == SIZE &&
      visited.Length0 == SIZE && visited.Length1 == SIZE &&
      lists.Length0 == SIZE && lists.Length1 == SIZE &&
      IsGrid(grid) && IsMarks(marks) && IsTable(table) &&
      (forall i, j :: 0 <= i < SIZE && 0 <= j < SIZE ==> items[i, j] == grid[i][j]) &&
      (forall i, j :: 0 <= i < SIZE && 0 <= j < SIZE ==> visited[i, j] == marks[i][j]) &&
      (forall i, j :: 0 <= i < SIZE && 0 <= j < SIZE ==> lists[i, j] == table[i][j])
    }

    /** The items and both chip counters. */
    ghost function State(): Position
      reads this
    {
      Position(grid, blackChips, whiteChips)
    }

    /** Board(): every cell empty and unvisited with an empty list, ten
        chips in hand for each colour. */
    constructor (latch: Latch)
      ensures Valid() && State() == Initial() && Consistent(State()) && this.latch == latch
      ensures marks == NoMarks() && table == Blank()
      ensures fresh(items) && fresh(visited) && fresh(lists)
    {
      items := new int[SIZE, SIZE]((i, j) => EMPTY);
      visited := new bool[SIZE, SIZE]((i, j) => false);
      lists := new seq<Sight>[SIZE, SIZE]((i, j) => []);
      blackChips, whiteChips := CHIPS, CHIPS;
      this.latch := latch;
      grid := Initial().grid;
      marks := NoMarks();
      table := Blank();
      new;
      InitialConsistent();
    }

    /** validMoves(p): a fresh array of the length the source allocates,
        whose first entries are the moves isValid accepts, in the order of
        the source's loops, and whose other entries are null. */
    method ValidMoves(p: int) returns (moveArr: array<Option<Move>>)
      requires Valid() && Consistent(State()) && IsColor(p)
      modifies latch, items, lists, this`grid, this`table, this`blackChips, this`whiteChips
      ensures Valid() && State() == old(State()) && latch.over == old(latch.over)
      ensures fresh(moveArr) && moveArr.Length == Capacity(Chips(State(), p))
      ensures Listing(moveArr[..], Candidates(State(), latch.over, p))
    {
      var playerChips := if p == BLACK then blackChips else whiteChips;
      moveArr := new Option<Move>[if playerChips > 0 then 48 - (CHIPS - playerChips) else 38 * CHIPS](_ => None);
      CandidatesFit(State(), latch.over, p);
      ghost var listed;
      listed := AllSquares(p, playerChips, moveArr, State(), latch.over, Accepts(State(), latch.over, p),
        Squares(State(), p, Accepts(State(), latch.over, p)));
    }

    /** The loops over i and j of validMoves. */
    method AllSquares(p: int, playerChips: int, moveArr: array<Option<Move>>, ghost s: Position, ghost over: bool, ghost ok: Move -> bool, ghost cells: (int, int) -> seq<Move>)
      returns (ghost listed: seq<Move>)
      requires Valid() && WellFormed(grid) && IsColor(p) && playerChips == Chips(s, p)
      requires State() == s && latch.over == over && Decides(s, over, p, ok) && Tabulates(s, p, ok, cells)
      requires Listing(moveArr[..], []) && |Scan(cells, Lanes(s), Lanes(s))| <= moveArr.Length
      modifies moveArr, latch, items, lists, this`grid, this`table, this`blackChips, this`whiteChips
      ensures Valid() && State() == s && latch.over == over
      ensures listed == Scan(cells, Lanes(s), Lanes(s))
      ensures Listing(moveArr[..], listed)
    {
      ghost var f, lanes := cells, Lanes(s);
      listed := [];
      assert Scan(f, lanes[..0], lanes) == [];
      var counter := 0;
      var i := 0;
      while i < 8
        invariant 0 <= i <= 8 && Valid() && State() == s && latch.over == over
        invariant Listing(moveArr[..], listed) && counter == |listed|
        invariant listed == Scan(f, lanes[..i], lanes)
      {
        ScanUpTo(f, lanes, lanes, i, 8);
        assert lanes[..8] == lanes;
        counter, listed := SquaresRow(i, p, playerChips, moveArr, counter, s, over, ok, cells, listed);
        ScanStep(f, lanes, lanes, i);
        i := i + 1;
      }
      assert lanes[..8] == lanes;
    }

    /** The loop over j of validMoves for the squares of row i. */
    method SquaresRow(i: int, p: int, playerChips: int, moveArr: array<Option<Move>>, counter0: int,
                      ghost s: Position, ghost over: bool, ghost ok: Move -> bool, ghost cells: (int, int) -> seq<Move>, ghost done: seq<Move>)
      returns (counter: int, ghost listed: seq<Move>)
      requires Valid() && WellFormed(grid) && IsColor(p) && 0 <= i <= 7 && playerChips == Chips(s, p)
      requires State() == s && latch.over == over && Decides(s, over, p, ok) && Tabulates(s, p, ok, cells)
      requires Listing(moveArr[..], done) && counter0 == |done|
      requires |done| + |ScanRow(cells, i, Lanes(s))| <= moveArr.Length
      modifies moveArr, latch, items, lists, this`grid, this`table, this`blackChips, this`whiteChips
      ensures Valid() && State() == s && latch.over == over
      ensures listed == done + ScanRow(cells, i, Lanes(s))
      ensures Listing(moveArr[..], listed) && counter == |listed|
    {
      ghost var f, lanes := cells, Lanes(s);
      listed, counter := done, counter0;
      ghost var row := [];
      var j := 0;
      while j < 8
        invariant 0 <= j <= 8 && Valid() && State() == s && latch.over == over
        invariant Listing(moveArr[..], listed) && counter == |listed|
        invariant row == ScanRow(f, i, lanes[..j]) && listed == done + row
      {
        ScanRowNext(f, i, lanes, j);
        counter, listed := Square(i, j, p, playerChips, moveArr, counter, s, over, ok, cells, listed);
        Append3(done, row, f(i, j));
        row := row + f(i, j);
        j := j + 1;
      }
      assert lanes[..8] == lanes;
    }

    /** The body of the loops over (i, j) in validMoves: every step of p's
        chip at (i, j) once p has no chips in hand, otherwise the Add onto
        an empty square (i, j), is offered to isValid. */
    method Square(i: int, j: int, p: int, playerChips: int, moveArr: array<Option<Move>>, counter0: int,
                  ghost s: Position, ghost over: bool, ghost ok: Move -> bool, ghost cells: (int, int) -> seq<Move>, ghost done: seq<Move>)
      returns (counter: int, ghost listed: seq<Move>)
      requires Valid() && WellFormed(grid) && IsColor(p) && 0 <= i <= 7 && 0 <= j <= 7 && playerChips == Chips(s, p)
      requires State() == s && latch.over == over && Decides(s, over, p, ok) && Tabulates(s, p, ok, cells)
      requires Listing(moveArr[..], done) && counter0 == |done|
      requires |done| + |cells(i, j)| <= moveArr.Length
      modifies moveArr, latch, items, lists, this`grid, this`table, this`blackChips, this`whiteChips
      ensures Valid() && State() == s && latch.over == over
      ensures listed == done + cells(i, j)
      ensures Listing(moveArr[..], listed) && counter == |listed|
    {
      assert cells(i, j) == MovesAt(s, p, ok, i, j);
      if playerChips < 1 && items[i + 1, j + 1] == p {
        counter, listed := StepsOf(i, j, p, moveArr, counter0, s, over, ok, done);
      } else if items[i + 1, j + 1] == EMPTY {
        counter, listed := Offer(AddMove(i, j), p, moveArr, counter0, s, over, ok, done);
      } else {
        counter, listed := counter0, done;
      }
    }

    /** The loops of validMoves over the destinations (k, l) of a step from
        the chip at (i, j): the accepted steps are appended to the array. */
    method StepsOf(i: int, j: int, p: int, moveArr: array<Option<Move>>, counter0: int,
                   ghost s: Position, ghost over: bool, ghost ok: Move -> bool, ghost done: seq<Move>)
      returns (counter: int, ghost listed: seq<Move>)
      requires Valid() && WellFormed(grid) && IsColor(p) && 0 <= i <= 7 && 0 <= j <= 7
      requires State() == s && latch.over == over && Decides(s, over, p, ok)
      requires Listing(moveArr[..], done) && counter0 == |done|
      requires |done| + |Scan(StepsFrom(s, ok, i, j), Lanes(s), Lanes(s))| <= moveArr.Length
      modifies moveArr, latch, items, lists, this`grid, this`table, this`blackChips, this`whiteChips
      ensures Valid() && State() == s && latch.over == over
      ensures listed == done + Scan(StepsFrom(s, ok, i, j), Lanes(s), Lanes(s))
      ensures Listing(moveArr[..], listed) && counter == |listed|
    {
      ghost var g, lanes := StepsFrom(s, ok, i, j), Lanes(s);
      listed, counter := done, counter0;
      ghost var rows := [];
      assert Scan(g, lanes[..0], lanes) == [];
      var k := 0;
      while k < 8
        invariant 0 <= k <= 8 && Valid() && State() == s && latch.over == over
        invariant Listing(moveArr[..], listed) && counter == |listed|
        invariant rows == Scan(g, lanes[..k], lanes) && listed == done + rows
      {
        ScanUpTo(g, lanes, lanes, k, 8);
        assert lanes[..8] == lanes;
        counter, listed := StepsRow(i, j, k, p, moveArr, counter, s, over, ok, listed);
        ScanStep(g, lanes, lanes, k);
        Append3(done, rows, ScanRow(g, k, lanes));
        rows := rows + ScanRow(g, k, lanes);
        k := k + 1;
      }
      assert lanes[..8] == lanes;
    }

    /** The loop over l of validMoves for the step destinations in row k. */
    method StepsRow(i: int, j: int, k: int, p: int, moveArr: array<Option<Move>>, counter0: int,
                    ghost s: Position, ghost over: bool, ghost ok: Move -> bool, ghost done: seq<Move>)
      returns (counter: int, ghost listed: seq<Move>)
      requires Valid() && WellFormed(grid) && IsColor(p) && 0 <= i <= 7 && 0 <= j <= 7 && 0 <= k <= 7
      requires State() == s && latch.over == over && Decides(s, over, p, ok)
      requires Listing(moveArr[..], done) && counter0 == |done|
      requires |done| + |ScanRow(StepsFrom(s, ok, i, j), k, Lanes(s))| <= moveArr.Length
      modifies moveArr, latch, items, lists, this`grid, this`table, this`blackChips, this`whiteChips
      ensures Valid() && State() == s && latch.over == over
      ensures listed == done + ScanRow(StepsFrom(s, ok, i, j), k, Lanes(s))
      ensures Listing(moveArr[..], listed) && counter == |listed|
    {
      ghost var g, lanes := StepsFrom(s, ok, i, j), Lanes(s);
      listed, counter := done, counter0;
      ghost var row := [];
      var l := 0;
      while l < 8
        invariant 0 <= l <= 8 && Valid() && State() == s && latch.over == over
        invariant Listing(moveArr[..], listed) && counter == |listed|
        invariant row == ScanRow(g, k, lanes[..l]) && listed == done + row
      {
        ScanRowNext(g, k, lanes, l);
        counter, listed := StepTo(i, j, k, l, p, moveArr, counter, s, over, ok, listed);
        Append3(done, row, g(k, l));
        row := row + g(k, l);
        l := l + 1;
      }
      assert lanes[..8] == lanes;
    }

    /** The body of the loops over (k, l) in validMoves: the step to an
        empty square (k, l) is offered to isValid. */
    method StepTo(i: int, j: int, k: int, l: int, p: int, moveArr: array<Option<Move>>, counter0: int,
                  ghost s: Position, ghost over: bool, ghost ok: Move -> bool, ghost done: seq<Move>)
      returns (counter: int, ghost listed: seq<Move>)
      requires Valid() && WellFormed(grid) && IsColor(p) && 0 <= i <= 7 && 0 <= j <= 7 && 0 <= k <= 7 && 0 <= l <= 7
      requires State() == s && latch.over == over && Decides(s, over, p, ok)
      requires Listing(moveArr[..], done) && counter0 == |done|
      requires |done| + |StepsFrom(s, ok, i, j)(k, l)| <= moveArr.Length
      modifies moveArr, latch, items, lists, this`grid, this`table, this`blackChips, this`whiteChips
      ensures Valid() && State() == s && latch.over == over
      ensures listed == done + StepsFrom(s, ok, i, j)(k, l)
      ensures Listing(moveArr[..], listed) && counter == |listed|
    {
      if items[k + 1, l + 1] == EMPTY {
        counter, listed := Offer(StepMove(k, l, i, j), p, moveArr, counter0, s, over, ok, done);
      } else {
        counter, listed := counter0, done;
      }
    }

    /** One call of isValid in validMoves: an accepted move is written at
        the counter, which then moves on. */
    method Offer(m: Move, p: int, moveArr: array<Option<Move>>, counter0: int,
                 ghost s: Position, ghost over: bool, ghost ok: Move -> bool, ghost done: seq<Move>)
      returns (counter: int, ghost listed: seq<Move>)
      requires Valid() && WellFormed(grid) && IsColor(p) && OnBoard(m) && m.kind != Quit
      requires State() == s && latch.over == over && Decides(s, over, p, ok)
      requires Listing(moveArr[..], done) && counter0 == |done|
      requires |done| < moveArr.Length || !ok(m)
      modifies moveArr, latch, items, lists, this`grid, this`table, this`blackChips, this`whiteChips
      ensures Valid() && State() == s && latch.over == over
      ensures listed == done + if ok(m) then [m] else []
      ensures Listing(moveArr[..], listed) && counter == |listed|
    {
      listed, counter := done, counter0;
      var accepted := IsValid(m, p);
      if accepted {
        moveArr[counter] := Some(m);
        listed, counter := listed + [m], counter + 1;
      }
    }

    /** addBlack: one black chip more on the board, one fewer in hand. */
    method AddBlack(x: int, y: int)
      requires Valid() && -1 <= x <= 8 && -1 <= y <= 8
      modifies items, this`grid, this`blackChips
      ensures Valid() && State() == Put(old(State()), x, y, BLACK)
    {
      items[x + 1, y + 1] := BLACK;
      grid := SetCell(grid, x + 1, y + 1, BLACK);
      blackChips := blackChips - 1;
    }

    /** addWhite: one white chip more on the board, one fewer in hand. */
    method AddWhite(x: int, y: int)
      requires Valid() && -1 <= x <= 8 && -1 <= y <= 8
      modifies items, this`grid, this`whiteChips
      ensures Valid() && State() == Put(old(State()), x, y, WHITE)
    {
      items[x + 1, y + 1] := WHITE;
      grid := SetCell(grid, x + 1, y + 1, WHITE);
      whiteChips := whiteChips - 1;
    }

    /** removeChip: the cell becomes empty with a fresh empty list, and p
        has one chip more in hand. */
    method RemoveChip(x: int, y: int, p: int)
      requires Valid() && IsColor(p) && -1 <= x <= 8 && -1 <= y <= 8
      modifies items, lists, this`grid, this`table, this`blackChips, this`whiteChips
      ensures Valid() && State() == Take(old(State()), x, y, p)
      ensures table == Update(old(table), x + 1, y + 1, [])
    {
      items[x + 1, y + 1] := EMPTY;
      grid := SetCell(grid, x + 1, y + 1, EMPTY);
      lists[x + 1, y + 1] := [];
      table := Update(table, x + 1, y + 1, []);
      if p == WHITE {
        whiteChips := whiteChips + 1;
      } else {
        blackChips := blackChips + 1;
      }
    }

    /** The inner pair of loops of isValid: the p chips in the 3x3
        neighbourhood of (i, j), the cell itself included. */
    method CountAround(i: int, j: int, p: int) returns (n: int)
      requires Valid() && 1 <= i <= 8 && 1 <= j <= 8
      ensures n == Around(grid, i, j, p)
    {
      n := 0;
      var k := i - 1;
      while k <= i + 1
        invariant i - 1 <= k <= i + 2
        invariant n == CountRect(grid, i - 1, k, j - 1, j + 2, p)
      {
        var l := j - 1;
        while l <= j + 1
          invariant j - 1 <= l <= j + 2
          invariant n == CountRect(grid, i - 1, k, j - 1, j + 2, p) + CountRow(grid, k, j - 1, l, p)
        {
          if items[k, l] == p {
            n := n + 1;
          }
          l := l + 1;
        }
        k := k + 1;
      }
    }

    /** Puts a stepping chip back on its source after the group check. */
    method PutBack(m: Move, p: int)
      requires Valid() && IsColor(p) && InGrid(m)
      modifies items, this`grid, this`blackChips, this`whiteChips
      ensures Valid() && State() == if m.kind == Step then Put(old(State()), m.x2, m.y2, p) else old(State())
    {
      if m.kind == Step {
        if p == WHITE {
          AddWhite(m.x2, m.y2);
        } else {
          AddBlack(m.x2, m.y2);
        }
      }
    }

    /** isValid(m, p): the answer is Legal for the board and the latch as
        they were. A Quit sets the latch. The items and chip counts end as
        they began; a step that reaches the group rule leaves its source
        cell with a fresh empty coordinate list. */
    method IsValid(m: Move, p: int) returns (r: bool)
      requires Valid() && WellFormed(grid) && IsColor(p) && InGrid(m)
      modifies latch, items, lists, this`grid, this`table, this`blackChips, this`whiteChips
      ensures Valid() && r == Legal(old(State()), old(latch.over), m, p)
      ensures latch.over == (old(latch.over) || m.kind == Quit)
      ensures State() == old(State())
      ensures table == if m.kind == Step && Placeable(old(State()), old(latch.over), m, p)
        then Update(old(table), m.x2 + 1, m.y2 + 1, []) else old(table)
    {
      if latch.over {
        return false;
      }
      if m.kind == Quit {
        latch.over := true;
        return false;
      }
      var ok := PlacementRules(m, p);
      if !ok {
        return false;
      }
      PlaceableLegal(State(), latch.over, m, p);
      r := GroupCheck(m, p);
    }

    /** The checks of isValid between Quit and the group rule, in the
        source's order; they read the board and change nothing. */
    method PlacementRules(m: Move, p: int) returns (ok: bool)
      requires Valid() && WellFormed(grid) && IsColor(p) && InGrid(m) && m.kind != Quit
      ensures ok == Fits(State(), m, p)
    {
      if m.kind == Add {
        if p == WHITE {
          if whiteChips == 0 {
            return false;
          }
        } else {
          if blackChips == 0 {
            return false;
          }
        }
      }
      if m.kind == Step {
        if items[m.x2 + 1, m.y2 + 1] != p {
          return false;
        }
      }
      var x := m.x1 + 1;
      var y := m.y1 + 1;
      if items[x, y] != EMPTY {
        return false;
      }
      if (x == 1 && y == 1) || (x == 1 && y == 8) || (y == 1 && x == 8) || (x == 8 && y == 8) {
        return false;
      }
      if p == BLACK {
        if x < 2 || x > 7 || y < 1 || y > 8 {
          return false;
        }
      } else {
        if x < 1 || x > 8 || y < 2 || y > 7 {
          return false;
        }
      }
      return true;
    }

    /** The group rule part of isValid: a stepping chip is lifted off its
        source (removeChip, which also empties that cell's list), the rule
        is checked, and the chip is put back. */
    method GroupCheck(m: Move, p: int) returns (r: bool)
      requires Valid() && WellFormed(grid) && IsColor(p) && InGrid(m) && m.kind != Quit && Fits(State(), m, p)
      modifies items, lists, this`grid, this`table, this`blackChips, this`whiteChips
      ensures Valid() && 1 <= m.x1 + 1 <= 8 && 1 <= m.y1 + 1 <= 8
      ensures r == !Crowded(Lifted(old(grid), m), m.x1 + 1, m.y1 + 1, p)
      ensures State() == old(State())
      ensures table == if m.kind == Step then Update(old(table), m.x2 + 1, m.y2 + 1, []) else old(table)
    {
      if m.kind == Step {
        ghost var s := State();
        r := LiftedGroupRule(m, p);
        ghost var c1 := table;
        PutBack(m, p);
        assert table == c1;
        RestoredAfterStep(s, m, p);
      } else {
        r := GroupRule(m.x1 + 1, m.y1 + 1, p);
      }
    }

    /** The group rule for a step: removeChip lifts the chip off its source
        (emptying that cell's list) and the rule is checked on the board
        without it. */
    method LiftedGroupRule(m: Move, p: int) returns (r: bool)
      requires Valid() && WellFormed(grid) && IsColor(p) && InGrid(m) && m.kind == Step && Fits(State(), m, p)
      modifies items, lists, this`grid, this`table, this`blackChips, this`whiteChips
      ensures Valid() && r == !Crowded(Lifted(old(grid), m), m.x1 + 1, m.y1 + 1, p)
      ensures 0 <= m.x2 <= 7 && 0 <= m.y2 <= 7 && old(grid)[m.x2 + 1][m.y2 + 1] == p
      ensures State() == Take(old(State()), m.x2, m.y2, p)
      ensures table == Update(old(table), m.x2 + 1, m.y2 + 1, [])
    {
      assert Lifted(grid, m) == Take(State(), m.x2, m.y2, p).grid;
      RemoveChip(m.x2, m.y2, p);
      r := GroupRule(m.x1 + 1, m.y1 + 1, p);
    }

    /** The group rule of isValid (the double loop over the neighbourhood
        of the destination (x, y) and the final test of countMain): true
        when it lets the move through, that is when the rule is not
        broken. */
    method GroupRule(x: int, y: int, p: int) returns (r: bool)
      requires Valid() && WellFormed(grid) && IsColor(p) && 1 <= x <= 8 && 1 <= y <= 8
      ensures r == !Crowded(grid, x, y, p)
    {
      ghost var h := grid;
      var countMain := 0;
      var i := x - 1;
      while i <= x + 1
        invariant x - 1 <= i <= x + 2
        invariant countMain == CountRect(h, x - 1, i, y - 1, y + 2, p)
        invariant CalmRect(h, p, x - 1, i, y - 1, y + 2)
      {
        var n, calm := GroupRow(i, y, p);
        if !calm {
          CalmRectAll(h, p, x - 1, x + 2, y - 1, y + 2);
          CalmRowAll(h, p, i, y - 1, y + 2);
          CrowdedByScan(h, x, y, p);
          return false;
        }
        countMain := countMain + n;
        i := i + 1;
      }
      CrowdedByScan(h, x, y, p);
      return countMain < 2;
    }

    /** One row i of the group rule's scan, columns y - 1 to y + 1: the p
        chips found (countMain's share) and whether each of them has fewer
        than two p chips around it (countSecondary stays below 2). The scan
        stops at the first chip that fails. */
    method GroupRow(i: int, y: int, p: int) returns (n: int, calm: bool)
      requires Valid() && WellFormed(grid) && IsColor(p) && 0 <= i < SIZE && 1 <= y <= 8
      ensures calm == CalmRow(grid, p, i, y - 1, y + 2)
      ensures calm ==> n == CountRow(grid, i, y - 1, y + 2, p)
    {
      ghost var h := grid;
      n := 0;
      var countSecondary := 0;
      var j := y - 1;
      while j <= y + 1
        invariant y - 1 <= j <= y + 2 && countSecondary == 0
        invariant n == CountRow(h, i, y - 1, j, p)
        invariant CalmRow(h, p, i, y - 1, j)
      {
        if items[i, j] == p {
          n := n + 1;
          var k := CountAround(i, j, p);
          countSecondary := countSecondary + k;
          if countSecondary >= 2 {
            assert !Calm(h, p, i, j);
            CalmRowAll(h, p, i, y - 1, y + 2);
            return n, false;
          }
          countSecondary := 0;
        }
        j := j + 1;
      }
      calm := true;
    }

    /** One of the eight ray loops of basicSeerFcn, in direction d from
        (x, y): a cell holding the opponent's chip or visited sets foundOpp,
        and the first chip of p met before that is inserted at the front of
        the list of (x, y). */
    method Look(x: int, y: int, d: int, p: int, ghost base: Table, ghost acc: seq<Sight>)
      requires Valid() && IsDirection(d) && IsColor(p) && 1 <= x <= 8 && 1 <= y <= 8
      requires IsTable(base) && table == Update(base, x, y, acc)
      modifies lists, this`table
      ensures Valid() && table == Update(base, x, y, Listed(Ray(grid, marks, x, y, d, p)) + acc)
    {
      var opponent := (p + 1) % 2;
      var foundOpp := false;
      var i, j := x + DX(d), y + DY(d);
      while Inside(d, i, j)
        invariant Valid() && table == old(table)
        invariant !foundOpp ==> Ray(grid, marks, x, y, d, p) == FirstOnRay(grid, marks, i, j, d, p)
        invariant foundOpp ==> Ray(grid, marks, x, y, d, p) == None
        decreases Remaining(d, i, j)
      {
        if items[i, j] == opponent || visited[i, j] {
          foundOpp := true;
        }
        if items[i, j] == p && !foundOpp {
          assert Ray(grid, marks, x, y, d, p) == Some(Sight(d, i, j));
          Prepend(x, y, Sight(d, i, j));
          UpdateTwice(base, x, y, acc, [Sight(d, i, j)] + acc);
          return;
        }
        i, j := i + DX(d), j + DY(d);
      }
      assert Ray(grid, marks, x, y, d, p) == None;
      assert [] + acc == acc;
    }

    /** insertFront on the coordinate list of (x, y). */
    method Prepend(x: int, y: int, e: Sight)
      requires Valid() && 0 <= x < SIZE && 0 <= y < SIZE
      modifies lists, this`table
      ensures Valid() && table == Update(old(table), x, y, [e] + old(table)[x][y])
    {
      lists[x, y] := [e] + lists[x, y];
      table := Update(table, x, y, lists[x, y]);
    }

    /** basicSeerFcn(x, y, p): the list of (x, y) becomes what the chip
        there sees, one entry per ray at most (the rays W, E, N, S, NW, NE,
        SW, SE in turn, each find inserted at the front). */
    method BasicSeer(x: int, y: int, p: int)
      requires Valid() && IsColor(p) && 1 <= x <= 8 && 1 <= y <= 8
      modifies lists, this`table
      ensures Valid() && table == Update(old(table), x, y, Seen(grid, marks, x, y, p))
    {
      lists[x, y] := [];
      table := Update(table, x, y, []);
      ghost var acc: seq<Sight> := [];
      Look(x, y, WEST, p, old(table), acc);
      acc := Listed(Ray(grid, marks, x, y, WEST, p)) + acc;
      Look(x, y, EAST, p, old(table), acc);
      acc := Listed(Ray(grid, marks, x, y, EAST, p)) + acc;
      Look(x, y, NORTH, p, old(table), acc);
      acc := Listed(Ray(grid, marks, x, y, NORTH, p)) + acc;
      Look(x, y, SOUTH, p, old(table), acc);
      acc := Listed(Ray(grid, marks, x, y, SOUTH, p)) + acc;
      Look(x, y, NORTHWEST, p, old(table), acc);
      acc := Listed(Ray(grid, marks, x, y, NORTHWEST, p)) + acc;
      Look(x, y, NORTHEAST, p, old(table), acc);
      acc := Listed(Ray(grid, marks, x, y, NORTHEAST, p)) + acc;
      Look(x, y, SOUTHWEST, p, old(table), acc);
      acc := Listed(Ray(grid, marks, x, y, SOUTHWEST, p)) + acc;
      Look(x, y, SOUTHEAST, p, old(table), acc);
      acc := Listed(Ray(grid, marks, x, y, SOUTHEAST, p)) + acc;
      SeenUnfolded(grid, marks, x, y, p);
    }

    /** The filter loop of findNetwork over the list of (x, y): entries whose
        chip is visited, or that lie in the direction last, are removed. */
    method Prune(x: int, y: int, last: int)
      requires Valid() && 0 <= x < SIZE && 0 <= y < SIZE
      requires forall e :: e in table[x][y] ==> 0 <= e.x < SIZE && 0 <= e.y < SIZE
      modifies lists, this`table
      ensures Valid() && table == Update(old(table), x, y, Keep(old(table)[x][y], marks, last))
    {
      var l := lists[x, y];
      var kept := [];
      var k := 0;
      while k < |l|
        invariant 0 <= k <= |l|
        invariant kept == Keep(l[..k], marks, last)
      {
        var e := l[k];
        assert l[..k + 1][..k] == l[..k];
        if visited[e.x, e.y] {
        } else if e.dir == last {
        } else {
          kept := kept + [e];
        }
        k := k + 1;
      }
      assert l[..k] == l;
      lists[x, y] := kept;
      table := Update(table, x, y, kept);
    }

    /** The part of findNetwork between the base cases and the search: a new
        list for (x, y) filled by basicSeerFcn; if it is not empty the cell
        is marked visited and the list filtered. The result is what is left
        to search. */
    method Survey(x: int, y: int, p: int, last: int) returns (kept: seq<Sight>)
      requires Valid() && WellFormed(grid) && IsColor(p) && 1 <= x <= 8 && 1 <= y <= 8
      modifies lists, visited, this`table, this`marks
      ensures Valid() && table == Update(old(table), x, y, kept)
      ensures Seen(grid, old(marks), x, y, p) == [] ==> kept == [] && marks == old(marks)
      ensures Seen(grid, old(marks), x, y, p) != [] ==>
        marks == Update(old(marks), x, y, true) &&
        (forall e :: e in Seen(grid, old(marks), x, y, p) ==> 0 <= e.x < SIZE && 0 <= e.y < SIZE) &&
        kept == Keep(Seen(grid, old(marks), x, y, p), marks, last)
    {
      lists[x, y] := [];
      table := Update(table, x, y, []);
      BasicSeer(x, y, p);
      ghost var seen := table[x][y];
      UpdateTwice(old(table), x, y, [], seen);
      if lists[x, y] == [] {
        return [];
      }
      visited[x, y] := true;
      marks := Update(marks, x, y, true);
      forall e | e in table[x][y] ensures 0 <= e.x < SIZE && 0 <= e.y < SIZE {
        SeenSound(grid, old(marks), x, y, p, e);
      }
      Prune(x, y, last);
      UpdateTwice(old(table), x, y, seen, table[x][y]);
      kept := lists[x, y];
    }

    /** The base cases of findNetwork, in the source's order: Some(b) when
        it returns b at once. */
    method BaseChecks(x: int, y: int, p: int, counter: int) returns (o: Option<bool>)
      requires IsColor(p)
      ensures o == BaseCase(p, x, y, counter)
    {
      if counter > 10 {
        return Some(false);
      }
      if p == WHITE {
        if counter < 6 && x == 1 {
          return Some(false);
        }
        if counter > 1 && x > 7 {
          return Some(false);
        }
        if counter == 10 && x != 1 {
          return Some(false);
        }
        if counter >= 6 && x == 1 {
          return Some(true);
        }
      }
      if p == BLACK {
        if counter < 6 && y == 1 {
          return Some(false);
        }
        if counter > 1 && y > 7 {
          return Some(false);
        }
        if counter == 10 && y != 1 {
          return Some(false);
        }
        if counter >= 6 && y == 1 {
          return Some(true);
        }
      }
      return None;
    }

    /** findNetwork(x, y, p, counter, last): true only along a chain of
        distinct chips of p, unvisited when the search began, that reaches
        the far goal line after six to ten chips without two hops in one
        direction in a row. Every flag set on entry stays set, except
        possibly the flag of (x, y) itself; flags the search sets may stay
        set. */
    method FindNetwork(x: int, y: int, p: int, counter: int, last: int) returns (r: bool, ghost path: seq<Sight>)
      requires Valid() && WellFormed(grid) && IsColor(p) && 1 <= x <= 8 && 1 <= y <= 8
      modifies lists, visited, this`table, this`marks
      ensures Valid()
      ensures BaseCase(p, x, y, counter).Some? ==> r == BaseCase(p, x, y, counter).value && marks == old(marks)
      ensures r ==> Chain(grid, p, x, y, counter, last, path) && Distinct(Cells(x, y, path))
      ensures r ==> forall k :: 0 <= k < |path| ==>
        0 <= path[k].x < SIZE && 0 <= path[k].y < SIZE && (path[k].x, path[k].y) != (x, y) && !old(marks)[path[k].x][path[k].y]
      ensures forall a, b :: 0 <= a < SIZE && 0 <= b < SIZE && old(marks)[a][b] && (a, b) != (x, y) ==> marks[a][b]
      decreases 10 - counter, 1
    {
      path := [];
      var o := BaseChecks(x, y, p, counter);
      if o.Some? {
        return o.value, path;
      }
      ghost var seen := Seen(grid, marks, x, y, p);
      var kept := Survey(x, y, p, last);
      if |kept| == 0 {
        return false, path;
      }
      KeepExact(seen, marks, last);
      forall e | e in kept
        ensures e in Seen(grid, NoMarks(), x, y, p) && e.dir != last
        ensures 1 <= e.x <= 8 && 1 <= e.y <= 8 && (e.x, e.y) != (x, y) && !old(marks)[e.x][e.y]
      {
        SeenSound(grid, old(marks), x, y, p, e);
        SeenFewerMarks(grid, NoMarks(), old(marks), x, y, p, e);
      }
      r, path := Descend(x, y, p, counter, last, kept, old(marks));
    }

    /** isNetwork(p): false while p has more than four chips in hand or no
        chip in its far goal line; otherwise the searches from p's chips in
        its near goal line (top to bottom for WHITE, left to right for
        BLACK), and true as soon as one of them succeeds, with the network
        it found. */
    method IsNetwork(p: int) returns (r: bool, ghost sx: int, ghost sy: int, ghost path: seq<Sight>)
      requires Valid() && WellFormed(grid) && IsColor(p)
      modifies lists, visited, this`table, this`marks
      ensures Valid()
      ensures Chips(State(), p) > 4 ==> !r
      ensures FarGoalEmpty(grid, p) ==> !r
      ensures r ==> Network(grid, p, sx, sy, path)
    {
      sx, sy, path := 0, 0, [];
      if (p == BLACK && blackChips > 4) || (p == WHITE && whiteChips > 4) {
        return false, sx, sy, path;
      }
      var goal := 0;
      var t := 2;
      while t < SIZE - 2
        invariant 2 <= t <= SIZE - 2
        invariant goal == 0 <==> forall u :: 2 <= u < t ==> FarCell(grid, p, u) != p
      {
        assert FarCell(grid, p, t) == if p == WHITE then items[1, t] else items[t, 1];
        if (if p == WHITE then items[1, t] else items[t, 1]) == p {
          goal := goal + 1;
        }
        t := t + 1;
      }
      if goal < 1 {
        return false, sx, sy, path;
      }
      t := 2;
      while t < SIZE - 2
        invariant Valid()
      {
        var a, b := if p == WHITE then 8 else t, if p == WHITE then t else 8;
        if items[a, b] == p {
          var found, chain := FindNetwork(a, b, p, 1, Entry(p));
          if found {
            return true, a, b, chain;
          }
        }
        t := t + 1;
      }
      return false, sx, sy, path;
    }

    /** The recursive loop of findNetwork over the filtered list of (x, y):
        the first entry from which the search succeeds extends the chain;
        when none does, the flag of (x, y) is cleared. */
    method Descend(x: int, y: int, p: int, counter: int, last: int, kept: seq<Sight>, ghost m0: Marks)
      returns (r: bool, ghost path: seq<Sight>)
      requires Valid() && WellFormed(grid) && IsColor(p) && 1 <= x <= 8 && 1 <= y <= 8
      requires BaseCase(p, x, y, counter) == None && IsMarks(m0) && marks == Update(m0, x, y, true)
      requires forall e :: e in kept ==> e in Seen(grid, NoMarks(), x, y, p) && e.dir != last
      requires forall e :: e in kept ==> 1 <= e.x <= 8 && 1 <= e.y <= 8 && (e.x, e.y) != (x, y) && !m0[e.x][e.y]
      modifies lists, visited, this`table, this`marks
      ensures Valid()
      ensures r ==> Chain(grid, p, x, y, counter, last, path) && Distinct(Cells(x, y, path))
      ensures r ==> forall k :: 0 <= k < |path| ==>
        0 <= path[k].x < SIZE && 0 <= path[k].y < SIZE && (path[k].x, path[k].y) != (x, y) && !m0[path[k].x][path[k].y]
      ensures forall a, b :: 0 <= a < SIZE && 0 <= b < SIZE && old(marks)[a][b] && (a, b) != (x, y) ==> marks[a][b]
      decreases 10 - counter, 0
    {
      path := [];
      var k := 0;
      while k < |kept|
        invariant Valid() && marks[x][y] && Fewer(old(marks), marks)
      {
        var e := kept[k];
        assert !old(marks)[e.x][e.y];
        var found, rest := FindNetwork(e.x, e.y, p, counter + 1, e.dir);
        if found {
          path := [e] + rest;
          assert path[0] == e && path[1..] == rest;
          DistinctCons(x, y, e, rest);
          return true, path;
        }
        k := k + 1;
      }
      visited[x, y] := false;
      marks := Update(marks, x, y, false);
      return false, path;
    }
  }

  lemma Append3<T>(a: seq<T>, b: seq<T>, c: seq<T>)
    ensures a + b + c == a + (b + c)
  {
  }

  /** ok gives isValid's answer on every move of the grid. Its trigger
      keeps the loops of validMoves from unfolding the rules of isValid
      until a call of isValid brings them in. */
  ghost predicate Decides(s: Position, over: bool, p: int, ok: Move -> bool)
    requires WellFormed(s.grid) && IsColor(p)
  {
    forall m {:trigger Legal(s, over, m, p)} :: InGrid(m) ==> ok(m) == Legal(s, over, m, p)
  }

  /** cells gives what validMoves lists for each square of the board. Its
      trigger keeps the loops over the squares from unfolding the steps of
      every square. */
  ghost predicate Tabulates(s: Position, p: int, ok: Move -> bool, cells: (int, int) -> seq<Move>)
    requires IsGrid(s.grid)
  {
    forall i, j {:trigger MovesAt(s, p, ok, i, j)} :: 0 <= i <= 7 && 0 <= j <= 7 ==> cells(i, j) == MovesAt(s, p, ok, i, j)
  }

  /** The array validMoves returns holds the list l and then nulls. */
  predicate Listing(a: seq<Option<Move>>, l: seq<Move>) {
    |l| <= |a| && forall t :: 0 <= t < |a| ==> a[t] == if t < |l| then Some(l[t]) else None
  }

  /** The table c with the entry at (a, b) replaced by v. */
  function Update<T>(c: seq<seq<T>>, a: int, b: int, v: T): (d: seq<seq<T>>)
    requires |c| == SIZE && (forall i :: 0 <= i < SIZE ==> |c[i]| == SIZE) && 0 <= a < SIZE && 0 <= b < SIZE
    ensures |d| == SIZE && (forall i :: 0 <= i < SIZE ==> |d[i]| == SIZE) && d[a][b] == v
    ensures forall i, j {:trigger d[i][j]} :: 0 <= i < SIZE && 0 <= j < SIZE && (i, j) != (a, b) ==> d[i][j] == c[i][j]
  {
    c[a := c[a][b := v]]
  }

  /** Writing one entry twice keeps the second write. */
  lemma UpdateTwice<T>(c: seq<seq<T>>, a: int, b: int, v: T, w: T)
    requires |c| == SIZE && (forall i :: 0 <= i < SIZE ==> |c[i]| == SIZE) && 0 <= a < SIZE && 0 <= b < SIZE
    ensures Update(Update(c, a, b, v), a, b, w) == Update(c, a, b, w)
  {
    assert Update(c, a, b, v)[a][b := w] == c[a][b := w];
  }

  /** Every coordinate list empty. */
  function Blank(): (c: Table)
    ensures IsTable(c) && forall i, j :: 0 <= i < SIZE && 0 <= j < SIZE ==> c[i][j] == []
  {
    seq(SIZE, i => seq(SIZE, j => []))
  }

  /** Putting a stepping chip back where isValid lifted it restores the
      position. */
  lemma RestoredAfterStep(s: Position, m: Move, p: int)
    requires IsGrid(s.grid) && IsColor(p) && InGrid(m)
    requires m.kind == Step ==> 0 <= m.x2 <= 7 && 0 <= m.y2 <= 7 && s.grid[m.x2 + 1][m.y2 + 1] == p
    ensures (if m.kind == Step then Put(Take(s, m.x2, m.y2, p), m.x2, m.y2, p) else s) == s
  {
    if m.kind == Step {
      PutAfterTake(s, m.x2, m.y2, p);
    }
  }
}
