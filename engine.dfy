/** The machine player: it keeps its own board up to date with both players'
    moves, applies and undoes hypothetical moves in place, and picks its
    move by a fail-hard alpha-beta search whose leaves are scored by an
    evaluator the model leaves uninterpreted. */
module Engine {
  import opened Moves
  import opened Legality
  import opened MoveLists
  import opened Visibility
  import opened Boards

  /** A searched move (None for the source's null) and its score. */
  datatype Best = Best(move: Option<Move>, score: real)

  /** Which network tests of gameTreeSearch answered true: both colours
      (tested first, colour to move then the other), the machine's colour,
      the opponent's colour. A test that is not reached is false. */
  datatype Tests = Tests(both: bool, mine: bool, theirs: bool)

  /** p has a network on g. */
  ghost predicate HasNetwork(g: Grid, p: int)
    requires WellFormed(g) && IsColor(p)
  {
    exists sx, sy, path :: Network(g, p, sx, sy, path)
  }

  /** The terminal cases of gameTreeSearch, in the order it checks them,
      for a node at the given depth with colour cur to move: both colours
      have networks, the machine (me) has one, the opponent has one, the
      depth bound is passed (then the leaf score is divided by the depth).
      None when the node is searched further. */
  function Terminal(cur: int, me: int, depth: int, maxDepth: int, t: Tests, leaf: real): (r: Option<real>)
    requires depth >= 1
    ensures r.None? <==> !t.both && !t.mine && !t.theirs && depth <= maxDepth
    ensures t.both ==> (r.value < 0.0 <==> cur == me) && (r.value > 0.0 <==> cur != me)
    ensures !t.both && t.mine ==> r.value > 0.0
    ensures !t.both && !t.mine && t.theirs ==> r.value < 0.0
  {
    var d := depth as real;
    if t.both then Some(if cur == me then -50.0 / d else 50.0 / d)
    else if t.mine then Some(if depth == 1 then 100.0 else 50.0 / d)
    else if t.theirs then Some(-50.0 / d)
    else if depth > maxDepth then Some(leaf / d)
    else None
  }

  /** The search prefers a quicker win and a slower loss: a network of the
      machine found at a smaller depth scores strictly higher, one of the
      opponent strictly lower. */
  lemma QuickerWinScoresHigher(me: int, d1: int, d2: int, maxDepth: int, leaf: real)
    requires 1 <= d1 < d2
    ensures Terminal(me, me, d1, maxDepth, Tests(false, true, false), leaf).value
          > Terminal(me, me, d2, maxDepth, Tests(false, true, false), leaf).value
    ensures Terminal(me, me, d1, maxDepth, Tests(false, false, true), leaf).value
          < Terminal(me, me, d2, maxDepth, Tests(false, false, true), leaf).value
  {
    var a, b := d1 as real, d2 as real;
    assert 50.0 / a > 50.0 / b by {
      assert 50.0 / a * a == 50.0 == 50.0 / b * b;
    }
    if d1 == 1 {
      assert 50.0 / b <= 50.0 / 2.0 by {
        assert 50.0 / b * b == 50.0;
      }
    }
  }

  /** The maximum depth chooseMove searches to: the configured depth, or by
      default 2 once the machine has no chips in hand and 3 before. */
  function DefaultDepth(searchDepth: int, chips: int): (d: int)
    ensures searchDepth != -1 ==> d == searchDepth
    ensures searchDepth == -1 ==> (d == 2 <==> chips < 1) && (d == 3 <==> chips >= 1)
  {
    if searchDepth == -1 && chips < 1 then 2
    else if searchDepth == -1 then 3
    else searchDepth
  }

  /** A cell clearCoordinates has reset once it has gone through the first
      n cells of the 9 x 9 block it scans, row by row: occupied cells only. */
  predicate Reset(g: Grid, a: int, b: int, n: int)
    requires IsGrid(g) && 0 <= a < SIZE && 0 <= b < SIZE
  {
    a < 9 && b < 9 && 9 * a + b < n && g[a][b] != EMPTY
  }

  /** c with the cells reset among the first n of the scan replaced by v. */
  function Scrub<T>(g: Grid, c: seq<seq<T>>, v: T, n: int): (d: seq<seq<T>>)
    requires IsGrid(g) && |c| == SIZE && forall i :: 0 <= i < SIZE ==> |c[i]| == SIZE
    ensures |d| == SIZE && forall i :: 0 <= i < SIZE ==> |d[i]| == SIZE
    ensures forall a, b :: 0 <= a < SIZE && 0 <= b < SIZE ==> d[a][b] == if Reset(g, a, b, n) then v else c[a][b]
  {
    seq(SIZE, a requires 0 <= a < SIZE => seq(SIZE, b requires 0 <= b < SIZE => if Reset(g, a, b, n) then v else c[a][b]))
  }

  /** Before the scan nothing is reset. */
  lemma ScrubNone<T>(g: Grid, c: seq<seq<T>>, v: T)
    requires IsGrid(g) && |c| == SIZE && forall i :: 0 <= i < SIZE ==> |c[i]| == SIZE
    ensures Scrub(g, c, v, 0) == c
  {
    var d := Scrub(g, c, v, 0);
    forall a | 0 <= a < SIZE ensures d[a] == c[a] {
      assert forall b :: 0 <= b < SIZE ==> d[a][b] == c[a][b];
    }
  }

  /** Scanning one more cell resets it when it is occupied. */
  lemma ScrubStep<T>(g: Grid, c: seq<seq<T>>, v: T, i: int, j: int)
    requires IsGrid(g) && |c| == SIZE && (forall i :: 0 <= i < SIZE ==> |c[i]| == SIZE) && 0 <= i < 9 && 0 <= j < 9
    ensures Scrub(g, c, v, 9 * i + j + 1)
         == if g[i][j] != EMPTY then Update(Scrub(g, c, v, 9 * i + j), i, j, v) else Scrub(g, c, v, 9 * i + j)
  {
    var d, e := Scrub(g, c, v, 9 * i + j), Scrub(g, c, v, 9 * i + j + 1);
    var f := if g[i][j] != EMPTY then Update(d, i, j, v) else d;
    forall a | 0 <= a < SIZE ensures e[a] == f[a] {
      forall b | 0 <= b < SIZE ensures e[a][b] == f[a][b] {
        assert Reset(g, a, b, 9 * i + j + 1) == (Reset(g, a, b, 9 * i + j) || ((a, b) == (i, j) && g[i][j] != EMPTY));
      }
    }
  }

  class MachinePlayer {
    const gameBoard: Board
    const machinePlayerColor: int
    const oppColor: int
    /** The configured search depth; -1 selects the default policy. */
    const searchDepth: int
    /** The leaf evaluator, from the machine's point of view. It sees only
        the items and chip counts; the visited flags that evaluatorFcn also
        reads, and its NaN on 0/0, are outside the model. */
    const evaluator: (Position, int) -> real

    ghost predicate Valid()
      reads this, gameBoard, gameBoard.items, gameBoard.visited, gameBoard.lists
    {
      gameBoard.Valid() && WellFormed(gameBoard.grid) &&
      IsColor(machinePlayerColor) && oppColor == Opponent(machinePlayerColor)
    }

    /** MachinePlayer(color, searchDepth) on a fresh board. */
    constructor (color: int, searchDepth: int, evaluator: (Position, int) -> real, latch: Latch)
      requires IsColor(color)
      ensures Valid() && Consistent(gameBoard.State()) && gameBoard.State() == Initial()
      ensures machinePlayerColor == color && oppColor == Opponent(color) && this.searchDepth == searchDepth
      ensures gameBoard.latch == latch && fresh(gameBoard)
      ensures fresh(gameBoard.items) && fresh(gameBoard.visited) && fresh(gameBoard.lists)
    {
      gameBoard := new Board(latch);
      machinePlayerColor := color;
      oppColor := (color + 1) % 2;
      this.searchDepth := searchDepth;
      this.evaluator := evaluator;
    }

    /** MachinePlayer(color): the default search depth. */
    constructor Default(color: int, evaluator: (Position, int) -> real, latch: Latch)
      requires IsColor(color)
      ensures Valid() && Consistent(gameBoard.State()) && gameBoard.State() == Initial()
      ensures machinePlayerColor == color && oppColor == Opponent(color) && searchDepth == -1
      ensures gameBoard.latch == latch && fresh(gameBoard)
      ensures fresh(gameBoard.items) && fresh(gameBoard.visited) && fresh(gameBoard.lists)
    {
      gameBoard := new Board(latch);
      machinePlayerColor := color;
      oppColor := (color + 1) % 2;
      searchDepth := -1;
      this.evaluator := evaluator;
    }

    /** updateGameBoard: p's chip goes on the destination and, for a step,
        comes off the source (whose coordinate list removeChip empties). */
    method UpdateGameBoard(m: Move, p: int)
      requires Valid() && IsColor(p) && OnBoard(m)
      modifies gameBoard.items, gameBoard.lists, gameBoard`grid, gameBoard`table, gameBoard`blackChips, gameBoard`whiteChips
      ensures gameBoard.Valid() && gameBoard.State() == Apply(old(gameBoard.State()), m, p)
      ensures gameBoard.table == if m.kind == Step then Update(old(gameBoard.table), m.x2 + 1, m.y2 + 1, []) else old(gameBoard.table)
    {
      if p == WHITE {
        gameBoard.AddWhite(m.x1, m.y1);
        if m.kind == Step {
          gameBoard.RemoveChip(m.x2, m.y2, p);
        }
      } else {
        gameBoard.AddBlack(m.x1, m.y1);
        if m.kind == Step {
          gameBoard.RemoveChip(m.x2, m.y2, p);
        }
      }
    }

    /** undoMove: nothing when the destination is empty; otherwise the
        destination chip comes off and, for a step, p's chip goes back on
        the source. */
    method UndoMove(m: Move, p: int)
      requires Valid() && IsColor(p) && OnBoard(m)
      modifies gameBoard.items, gameBoard.lists, gameBoard`grid, gameBoard`table, gameBoard`blackChips, gameBoard`whiteChips
      ensures gameBoard.Valid() && gameBoard.State() == Undo(old(gameBoard.State()), m, p)
      ensures old(gameBoard.grid)[m.x1 + 1][m.y1 + 1] == EMPTY ==> gameBoard.table == old(gameBoard.table)
    {
      if gameBoard.items[m.x1 + 1, m.y1 + 1] == EMPTY {
        return;
      }
      gameBoard.RemoveChip(m.x1, m.y1, p);
      if m.kind == Step {
        if p == WHITE {
          gameBoard.AddWhite(m.x2, m.y2);
        } else {
          gameBoard.AddBlack(m.x2, m.y2);
        }
      }
    }

    /** Records m for colour p when isValid accepts it; otherwise leaves
        the items and chip counts alone. The move kinds isValid sees set
        the latch as it does. */
    method Record(m: Move, p: int) returns (r: bool)
      requires Valid() && IsColor(p) && InGrid(m)
      modifies gameBoard.latch, gameBoard.items, gameBoard.lists, gameBoard`grid, gameBoard`table, gameBoard`blackChips, gameBoard`whiteChips
      ensures Valid() && r == Legal(old(gameBoard.State()), old(gameBoard.latch.over), m, p)
      ensures gameBoard.latch.over == (old(gameBoard.latch.over) || m.kind == Quit)
      ensures r ==> gameBoard.State() == Apply(old(gameBoard.State()), m, p)
      ensures !r ==> gameBoard.State() == old(gameBoard.State())
      ensures Consistent(old(gameBoard.State())) ==> Consistent(gameBoard.State())
    {
      r := gameBoard.IsValid(m, p);
      if r {
        ghost var s := gameBoard.State();
        LegalKeepsConsistentGrid(s, old(gameBoard.latch.over), m, p);
        UpdateGameBoard(m, p);
        if Consistent(old(gameBoard.State())) {
          LegalKeepsConsistent(s, old(gameBoard.latch.over), m, p);
        }
      }
    }

    /** opponentMove: exactly isValid for the opponent's colour; the move is
        applied when legal and nothing changes on the board otherwise. */
    method OpponentMove(m: Move) returns (r: bool)
      requires Valid() && InGrid(m)
      modifies gameBoard.latch, gameBoard.items, gameBoard.lists, gameBoard`grid, gameBoard`table, gameBoard`blackChips, gameBoard`whiteChips
      ensures Valid() && r == Legal(old(gameBoard.State()), old(gameBoard.latch.over), m, oppColor)
      ensures gameBoard.latch.over == (old(gameBoard.latch.over) || m.kind == Quit)
      ensures r ==> gameBoard.State() == Apply(old(gameBoard.State()), m, oppColor)
      ensures !r ==> gameBoard.State() == old(gameBoard.State())
      ensures Consistent(old(gameBoard.State())) ==> Consistent(gameBoard.State())
    {
      r := Record(m, oppColor);
    }

    /** forceMove: exactly isValid for the machine's colour; the move is
        applied when legal and nothing changes on the board otherwise. */
    method ForceMove(m: Move) returns (r: bool)
      requires Valid() && InGrid(m)
      modifies gameBoard.latch, gameBoard.items, gameBoard.lists, gameBoard`grid, gameBoard`table, gameBoard`blackChips, gameBoard`whiteChips
      ensures Valid() && r == Legal(old(gameBoard.State()), old(gameBoard.latch.over), m, machinePlayerColor)
      ensures gameBoard.latch.over == (old(gameBoard.latch.over) || m.kind == Quit)
      ensures r ==> gameBoard.State() == Apply(old(gameBoard.State()), m, machinePlayerColor)
      ensures !r ==> gameBoard.State() == old(gameBoard.State())
      ensures Consistent(old(gameBoard.State())) ==> Consistent(gameBoard.State())
    {
      r := Record(m, machinePlayerColor);
    }

    /** clearCoordinates: every occupied cell with both indices below 9 gets
        an empty coordinate list and an unset visited flag; every other cell
        keeps both. The items are untouched. */
    method ClearCoordinates()
      requires Valid()
      modifies gameBoard.visited, gameBoard.lists, gameBoard`marks, gameBoard`table
      ensures Valid()
      ensures gameBoard.marks == Scrub(gameBoard.grid, old(gameBoard.marks), false, 81)
      ensures gameBoard.table == Scrub(gameBoard.grid, old(gameBoard.table), [], 81)
    {
      ScrubNone(gameBoard.grid, gameBoard.marks, false);
      ScrubNone(gameBoard.grid, gameBoard.table, []);
      var i := 0;
      while i < 9
        invariant 0 <= i <= 9 && Valid()
        invariant gameBoard.marks == Scrub(gameBoard.grid, old(gameBoard.marks), false, 9 * i)
        invariant gameBoard.table == Scrub(gameBoard.grid, old(gameBoard.table), [], 9 * i)
      {
        ClearRow(i, old(gameBoard.marks), old(gameBoard.table));
        i := i + 1;
      }
    }

    /** One pass of the inner loop of clearCoordinates, over row i. */
    method ClearRow(i: int, ghost m0: Marks, ghost t0: Table)
      requires Valid() && 0 <= i < 9 && IsMarks(m0) && IsTable(t0)
      requires gameBoard.marks == Scrub(gameBoard.grid, m0, false, 9 * i)
      requires gameBoard.table == Scrub(gameBoard.grid, t0, [], 9 * i)
      modifies gameBoard.visited, gameBoard.lists, gameBoard`marks, gameBoard`table
      ensures Valid()
      ensures gameBoard.marks == Scrub(gameBoard.grid, m0, false, 9 * i + 9)
      ensures gameBoard.table == Scrub(gameBoard.grid, t0, [], 9 * i + 9)
    {
      var j := 0;
      while j < 9
        invariant 0 <= j <= 9 && Valid()
        invariant gameBoard.marks == Scrub(gameBoard.grid, m0, false, 9 * i + j)
        invariant gameBoard.table == Scrub(gameBoard.grid, t0, [], 9 * i + j)
      {
        ScrubStep(gameBoard.grid, m0, false, i, j);
        ScrubStep(gameBoard.grid, t0, [], i, j);
        if gameBoard.items[i, j] != EMPTY {
          ClearCell(i, j);
        }
        j := j + 1;
      }
    }

    /** The body of the loops of clearCoordinates for one occupied cell: a
        new empty coordinate list and the visited flag unset. */
    method ClearCell(i: int, j: int)
      requires Valid() && 0 <= i < SIZE && 0 <= j < SIZE
      modifies gameBoard.visited, gameBoard.lists, gameBoard`marks, gameBoard`table
      ensures Valid()
      ensures gameBoard.marks == Update(old(gameBoard.marks), i, j, false)
      ensures gameBoard.table == Update(old(gameBoard.table), i, j, [])
    {
      gameBoard.lists[i, j] := [];
      gameBoard.visited[i, j] := false;
      gameBoard.table := Update(gameBoard.table, i, j, []);
      gameBoard.marks := Update(gameBoard.marks, i, j, false);
    }

    /** isNetwork(p) on the current board; a true answer is backed by a
        network of p. The search flags and coordinate lists change. */
    method TestNetwork(p: int) returns (r: bool)
      requires Valid() && IsColor(p)
      modifies gameBoard.lists, gameBoard.visited, gameBoard`table, gameBoard`marks
      ensures Valid() && (r ==> HasNetwork(gameBoard.grid, p))
    {
      ghost var sx, sy, path;
      r, sx, sy, path := gameBoard.IsNetwork(p);
    }

    /** The items and chip counts of the board: the part of its state the
        stand-in evaluator is given. */
    method Snapshot() returns (s: Position)
      requires Valid()
      ensures s == gameBoard.State()
    {
      var items := gameBoard.items;
      var g := seq(SIZE, i requires 0 <= i < SIZE reads items => seq(SIZE, j requires 0 <= j < SIZE reads items => items[i, j]));
      GridEq(g, gameBoard.grid);
      s := Position(g, gameBoard.blackChips, gameBoard.whiteChips);
    }

    /** gameTreeSearch: fail-hard alpha-beta search for colour currPlayer
        at the given depth. A terminal node (in the order of Terminal)
        returns no move and its terminal score. Otherwise the node starts
        from alpha (the machine to move) or beta (the opponent to move),
        tries the moves validMoves lists, in order, each applied, searched
        one level deeper and undone, keeps a move only when its reply is
        strictly better, and stops early once alpha >= beta. The board's
        items and counts are as they were on return. tests records the
        network tests that answered true; tried counts the moves searched. */
    method GameTreeSearch(currPlayer: int, alpha: real, beta: real, depth: int, maxDepth: int)
      returns (best: Best, tests: Tests, ghost tried: nat)
      requires Valid() && Consistent(gameBoard.State()) && IsColor(currPlayer) && depth >= 1
      modifies gameBoard.latch, gameBoard.items, gameBoard.visited, gameBoard.lists
      modifies gameBoard`grid, gameBoard`marks, gameBoard`table, gameBoard`blackChips, gameBoard`whiteChips
      ensures Valid() && gameBoard.State() == old(gameBoard.State()) && gameBoard.latch.over == old(gameBoard.latch.over)
      ensures tests.both ==> HasNetwork(old(gameBoard.grid), currPlayer) && HasNetwork(old(gameBoard.grid), Opponent(currPlayer))
      ensures tests.mine ==> HasNetwork(old(gameBoard.grid), machinePlayerColor)
      ensures tests.theirs ==> HasNetwork(old(gameBoard.grid), oppColor)
      ensures Terminal(currPlayer, machinePlayerColor, depth, maxDepth, tests, evaluator(old(gameBoard.State()), machinePlayerColor)).Some? ==>
        best == Best(None, Terminal(currPlayer, machinePlayerColor, depth, maxDepth, tests, evaluator(old(gameBoard.State()), machinePlayerColor)).value)
      ensures Terminal(currPlayer, machinePlayerColor, depth, maxDepth, tests, evaluator(old(gameBoard.State()), machinePlayerColor)).None? ==>
        Searched(currPlayer, alpha, beta, Candidates(old(gameBoard.State()), old(gameBoard.latch.over), currPlayer), best, tried)
      decreases maxDepth - depth, 3
    {
      var verdict;
      verdict, tests := Verdict(currPlayer, depth, maxDepth);
      if verdict.Some? {
        best := Best(None, verdict.value);
        tried := 0;
        return;
      }
      best, tried := SearchMoves(currPlayer, alpha, beta, depth, maxDepth);
    }

    /** The terminal tests of gameTreeSearch, in its order: both colours
        have a network (colour to move tested first), the machine has one,
        the opponent has one, the depth bound is passed. */
    method Verdict(currPlayer: int, depth: int, maxDepth: int) returns (verdict: Option<real>, tests: Tests)
      requires Valid() && IsColor(currPlayer) && depth >= 1
      modifies gameBoard.visited, gameBoard.lists, gameBoard`marks, gameBoard`table
      ensures Valid()
      ensures tests.both ==> HasNetwork(gameBoard.grid, currPlayer) && HasNetwork(gameBoard.grid, Opponent(currPlayer))
      ensures tests.mine ==> HasNetwork(gameBoard.grid, machinePlayerColor)
      ensures tests.theirs ==> HasNetwork(gameBoard.grid, oppColor)
      ensures verdict == Terminal(currPlayer, machinePlayerColor, depth, maxDepth, tests, evaluator(gameBoard.State(), machinePlayerColor))
    {
      ClearCoordinates();
      tests := Networks(currPlayer);
      var d := depth as real;
      if tests.both {
        verdict := Some(if currPlayer == machinePlayerColor then -50.0 / d else 50.0 / d);
      } else if tests.mine {
        verdict := Some(if depth == 1 then 100.0 else 50.0 / d);
      } else if tests.theirs {
        verdict := Some(-50.0 / d);
      } else if depth > maxDepth {
        var position := Snapshot();
        verdict := Some(evaluator(position, machinePlayerColor) / d);
      } else {
        verdict := None;
      }
    }

    /** The network tests of gameTreeSearch, each made only when the ones
        before it answered false: colour to move and then the other colour
        (both must answer true), the machine's colour, the opponent's. */
    method Networks(currPlayer: int) returns (tests: Tests)
      requires Valid() && IsColor(currPlayer)
      modifies gameBoard.visited, gameBoard.lists, gameBoard`marks, gameBoard`table
      ensures Valid()
      ensures tests.both ==> HasNetwork(gameBoard.grid, currPlayer) && HasNetwork(gameBoard.grid, Opponent(currPlayer))
      ensures tests.mine ==> HasNetwork(gameBoard.grid, machinePlayerColor)
      ensures tests.theirs ==> HasNetwork(gameBoard.grid, oppColor)
      ensures tests.both ==> !tests.mine && !tests.theirs
      ensures tests.mine ==> !tests.theirs
    {
      var both := TestNetwork(currPlayer);
      if both {
        both := TestNetwork((currPlayer + 1) % 2);
      }
      if both {
        return Tests(true, false, false);
      }
      var mine := TestNetwork(machinePlayerColor);
      if mine {
        return Tests(false, true, false);
      }
      var theirs := TestNetwork(oppColor);
      return Tests(false, false, theirs);
    }

    /** The move loop of gameTreeSearch, at a node that is not terminal. */
    method SearchMoves(currPlayer: int, alpha: real, beta: real, depth: int, maxDepth: int) returns (best: Best, ghost tried: nat)
      requires Valid() && Consistent(gameBoard.State()) && IsColor(currPlayer) && 1 <= depth <= maxDepth
      modifies gameBoard.latch, gameBoard.items, gameBoard.visited, gameBoard.lists
      modifies gameBoard`grid, gameBoard`marks, gameBoard`table, gameBoard`blackChips, gameBoard`whiteChips
      ensures Valid() && gameBoard.State() == old(gameBoard.State()) && gameBoard.latch.over == old(gameBoard.latch.over)
      ensures Searched(currPlayer, alpha, beta, Candidates(old(gameBoard.State()), old(gameBoard.latch.over), currPlayer), best, tried)
      decreases maxDepth - depth, 2
    {
      ghost var s, over := gameBoard.State(), gameBoard.latch.over;
      tried := 0;
      best := Best(None, if currPlayer == machinePlayerColor then alpha else beta);
      ClearCoordinates();
      var moves := gameBoard.ValidMoves(currPlayer);
      ghost var c := Candidates(s, over, currPlayer);
      CandidatesLegal(s, over, currPlayer);
      best, tried := MoveLoop(currPlayer, alpha, beta, depth, maxDepth, moves, c, best);
    }

    /** The loop of gameTreeSearch over the array validMoves returned, which
        lists the legal moves c. */
    method MoveLoop(currPlayer: int, alpha: real, beta: real, depth: int, maxDepth: int,
                    moves: array<Option<Move>>, ghost c: seq<Move>, start: Best) returns (best: Best, ghost tried: nat)
      requires Valid() && Consistent(gameBoard.State()) && IsColor(currPlayer) && 1 <= depth <= maxDepth
      requires Listing(moves[..], c) && AllLegal(gameBoard.State(), gameBoard.latch.over, c, currPlayer)
      requires start == Best(None, if currPlayer == machinePlayerColor then alpha else beta)
      modifies gameBoard.latch, gameBoard.items, gameBoard.visited, gameBoard.lists
      modifies gameBoard`grid, gameBoard`marks, gameBoard`table, gameBoard`blackChips, gameBoard`whiteChips
      ensures Valid() && gameBoard.State() == old(gameBoard.State()) && gameBoard.latch.over == old(gameBoard.latch.over)
      ensures Searched(currPlayer, alpha, beta, c, best, tried)
      decreases maxDepth - depth, 1
    {
      ghost var s, over := gameBoard.State(), gameBoard.latch.over;
      best, tried := start, 0;
      var a, b := alpha, beta;
      var k := 0;
      while k < moves.Length
        invariant 0 <= k <= moves.Length && k <= |c| && tried == k
        invariant Valid() && Consistent(gameBoard.State()) && gameBoard.State() == s && gameBoard.latch.over == over
        invariant Listing(moves[..], c)
        invariant Progress(currPlayer, alpha, beta, c[..k], best, a, b)
      {
        if moves[k].None? {
          break;
        }
        var m := moves[k].value;
        assert m == c[k];
        var reply := Probe(m, currPlayer, a, b, depth, maxDepth);
        if currPlayer == machinePlayerColor && reply.score > best.score {
          best := Best(Some(m), reply.score);
          a := reply.score;
        } else if currPlayer == oppColor && reply.score < best.score {
          best := Best(Some(m), reply.score);
          b := reply.score;
        }
        assert c[..k + 1] == c[..k] + [m];
        k := k + 1;
        tried := k;
        if a >= b {
          return;
        }
      }
      assert c[..k] == c;
    }

    /** One turn of the move loop of gameTreeSearch: apply m for
        currPlayer, search the reply one level deeper, undo m. */
    method Probe(m: Move, currPlayer: int, alpha: real, beta: real, depth: int, maxDepth: int) returns (reply: Best)
      requires Valid() && Consistent(gameBoard.State()) && IsColor(currPlayer) && 1 <= depth <= maxDepth
      requires InGrid(m) && Legal(gameBoard.State(), gameBoard.latch.over, m, currPlayer)
      modifies gameBoard.latch, gameBoard.items, gameBoard.visited, gameBoard.lists
      modifies gameBoard`grid, gameBoard`marks, gameBoard`table, gameBoard`blackChips, gameBoard`whiteChips
      ensures Valid() && gameBoard.State() == old(gameBoard.State()) && gameBoard.latch.over == old(gameBoard.latch.over)
      decreases maxDepth - depth, 0
    {
      ghost var s := gameBoard.State();
      LegalKeepsConsistent(s, gameBoard.latch.over, m, currPlayer);
      UpdateGameBoard(m, currPlayer);
      ghost var tried;
      var tests;
      reply, tests, tried := GameTreeSearch((currPlayer + 1) % 2, alpha, beta, depth + 1, maxDepth);
      UndoMove(m, currPlayer);
      UndoApply(s, m, currPlayer);
    }

    /** The state of the move loop of gameTreeSearch after the moves done:
        the best move so far is one of them, and its score is the running
        bound of the side to move, which started from alpha (machine) or
        beta (opponent) and moved only when a move was kept. */
    ghost predicate Progress(currPlayer: int, alpha: real, beta: real, done: seq<Move>, best: Best, a: real, b: real)
    {
      (best.move.Some? ==> best.move.value in done) &&
      (currPlayer == machinePlayerColor ==>
        a == best.score && b == beta && best.score >= alpha && (best.move.Some? <==> best.score > alpha)) &&
      (currPlayer != machinePlayerColor ==>
        b == best.score && a == alpha && best.score <= beta && (best.move.Some? <==> best.score < beta))
    }

    /** What a searched (non-terminal) node returns, given the moves c
        validMoves lists: a move among the first tried of them or none; for
        the machine a score at least alpha, above alpha exactly when a move
        is returned, and at least beta when the loop was cut off before the
        end of the list; for the opponent the mirror image. */
    ghost predicate Searched(currPlayer: int, alpha: real, beta: real, c: seq<Move>, best: Best, tried: nat)
    {
      tried <= |c| && (best.move.Some? ==> best.move.value in c[..tried]) &&
      (currPlayer == machinePlayerColor ==>
        best.score >= alpha && (best.move.Some? <==> best.score > alpha) && (tried < |c| ==> best.score >= beta)) &&
      (currPlayer != machinePlayerColor ==>
        best.score <= beta && (best.move.Some? <==> best.score < beta) && (tried < |c| ==> best.score <= alpha))
    }

    /** chooseMove as written: the pre-search over the opponent's moves,
        whose early return is never taken (see PreSearchAsWritten), then
        the search from the machine's colour, whose move is recorded. */
    method ChooseMove() returns (choice: Option<Move>)
      requires Valid() && Consistent(gameBoard.State())
      modifies gameBoard.latch, gameBoard.items, gameBoard.visited, gameBoard.lists
      modifies gameBoard`grid, gameBoard`marks, gameBoard`table, gameBoard`blackChips, gameBoard`whiteChips
      ensures Valid() && Consistent(gameBoard.State()) && gameBoard.latch.over == old(gameBoard.latch.over)
      ensures choice.None? ==> gameBoard.State() == old(gameBoard.State())
      ensures choice.Some? ==> InGrid(choice.value) && Legal(old(gameBoard.State()), old(gameBoard.latch.over), choice.value, machinePlayerColor)
      ensures choice.Some? ==> gameBoard.State() == Apply(old(gameBoard.State()), choice.value, machinePlayerColor)
    {
      PreSearchAsWritten();
      choice := SearchAndRecord();
    }

    /** chooseMove with the pre-search corrected (see PreSearch): a move
        that blocks an opponent network is recorded without a search;
        otherwise the search decides as in ChooseMove. */
    method ChooseMoveCorrected() returns (choice: Option<Move>)
      requires Valid() && Consistent(gameBoard.State())
      modifies gameBoard.latch, gameBoard.items, gameBoard.visited, gameBoard.lists
      modifies gameBoard`grid, gameBoard`marks, gameBoard`table, gameBoard`blackChips, gameBoard`whiteChips
      ensures Valid() && Consistent(gameBoard.State()) && gameBoard.latch.over == old(gameBoard.latch.over)
      ensures choice.None? ==> gameBoard.State() == old(gameBoard.State())
      ensures choice.Some? ==> InGrid(choice.value) && Legal(old(gameBoard.State()), old(gameBoard.latch.over), choice.value, machinePlayerColor)
      ensures choice.Some? ==> gameBoard.State() == Apply(old(gameBoard.State()), choice.value, machinePlayerColor)
    {
      ghost var s, over := gameBoard.State(), gameBoard.latch.over;
      var block := PreSearch();
      if block.Some? {
        LegalKeepsConsistent(s, over, block.value, machinePlayerColor);
        UpdateGameBoard(block.value, machinePlayerColor);
        choice := block;
      } else {
        choice := SearchAndRecord();
      }
    }

    /** The rest of chooseMove: a search from the machine's colour with
        alpha -50, beta 50 at depth 1 down to DefaultDepth; the move found
        is recorded on the board. None stands for the source's null search
        result, on which the source fails; the model then leaves the board
        as it was. */
    method SearchAndRecord() returns (choice: Option<Move>)
      requires Valid() && Consistent(gameBoard.State())
      modifies gameBoard.latch, gameBoard.items, gameBoard.visited, gameBoard.lists
      modifies gameBoard`grid, gameBoard`marks, gameBoard`table, gameBoard`blackChips, gameBoard`whiteChips
      ensures Valid() && Consistent(gameBoard.State()) && gameBoard.latch.over == old(gameBoard.latch.over)
      ensures choice.None? ==> gameBoard.State() == old(gameBoard.State())
      ensures choice.Some? ==> InGrid(choice.value) && Legal(old(gameBoard.State()), old(gameBoard.latch.over), choice.value, machinePlayerColor)
      ensures choice.Some? ==> gameBoard.State() == Apply(old(gameBoard.State()), choice.value, machinePlayerColor)
    {
      ghost var s, over := gameBoard.State(), gameBoard.latch.over;
      var chips := if machinePlayerColor == WHITE then gameBoard.whiteChips else gameBoard.blackChips;
      var best, tests;
      ghost var tried;
      best, tests, tried := GameTreeSearch(machinePlayerColor, -50.0, 50.0, 1, DefaultDepth(searchDepth, chips));
      CandidatesLegal(s, over, machinePlayerColor);
      choice := best.move;
      if choice.Some? {
        LegalKeepsConsistent(s, over, choice.value, machinePlayerColor);
        UpdateGameBoard(choice.value, machinePlayerColor);
      }
    }

    /** The pre-search of chooseMove as corrected: for each move the
        opponent could make, in validMoves order, apply it, test for an
        opponent network, undo it, and when it completes one, offer the
        same move to the machine; the first one isValid accepts is
        returned. The board is as it was on return. */
    method PreSearch() returns (block: Option<Move>)
      requires Valid() && Consistent(gameBoard.State())
      modifies gameBoard.latch, gameBoard.items, gameBoard.visited, gameBoard.lists
      modifies gameBoard`grid, gameBoard`marks, gameBoard`table, gameBoard`blackChips, gameBoard`whiteChips
      ensures Valid() && gameBoard.State() == old(gameBoard.State()) && gameBoard.latch.over == old(gameBoard.latch.over)
      ensures block.Some? ==> InGrid(block.value) && Legal(old(gameBoard.State()), old(gameBoard.latch.over), block.value, machinePlayerColor)
      ensures block.Some? ==> Legal(old(gameBoard.State()), old(gameBoard.latch.over), block.value, oppColor)
      ensures block.Some? ==> Threat(old(gameBoard.State()), block.value, oppColor)
    {
      ghost var s, over := gameBoard.State(), gameBoard.latch.over;
      var moves := gameBoard.ValidMoves(oppColor);
      CandidatesLegal(s, over, oppColor);
      block := BlockLoop(moves, Candidates(s, over, oppColor));
    }

    /** The loop of the corrected pre-search over the array validMoves
        returned for the opponent, which lists the legal moves c. */
    method BlockLoop(moves: array<Option<Move>>, ghost c: seq<Move>) returns (block: Option<Move>)
      requires Valid() && Listing(moves[..], c) && AllLegal(gameBoard.State(), gameBoard.latch.over, c, oppColor)
      modifies gameBoard.latch, gameBoard.items, gameBoard.visited, gameBoard.lists
      modifies gameBoard`grid, gameBoard`marks, gameBoard`table, gameBoard`blackChips, gameBoard`whiteChips
      ensures Valid() && gameBoard.State() == old(gameBoard.State()) && gameBoard.latch.over == old(gameBoard.latch.over)
      ensures block.Some? ==> InGrid(block.value) && Legal(old(gameBoard.State()), old(gameBoard.latch.over), block.value, machinePlayerColor)
      ensures block.Some? ==> Legal(old(gameBoard.State()), old(gameBoard.latch.over), block.value, oppColor)
      ensures block.Some? ==> Threat(old(gameBoard.State()), block.value, oppColor)
    {
      ghost var s, over := gameBoard.State(), gameBoard.latch.over;
      var k := 0;
      while k < moves.Length
        invariant 0 <= k <= moves.Length
        invariant Valid() && gameBoard.State() == s && gameBoard.latch.over == over
        invariant Listing(moves[..], c)
      {
        if moves[k].Some? {
          var m := moves[k].value;
          assert m in c;
          var ok := Guard(m);
          if ok {
            return Some(m);
          }
        }
        k := k + 1;
      }
      return None;
    }

    /** The pre-search loop of chooseMove as written: the machine's isValid
        is asked while the opponent's trial chip still stands on the
        square, so it never accepts (TrialSquareTaken) and the early
        return never happens; every trial is undone. */
    method PreSearchAsWritten()
      requires Valid() && Consistent(gameBoard.State())
      modifies gameBoard.latch, gameBoard.items, gameBoard.visited, gameBoard.lists
      modifies gameBoard`grid, gameBoard`marks, gameBoard`table, gameBoard`blackChips, gameBoard`whiteChips
      ensures Valid() && gameBoard.State() == old(gameBoard.State()) && gameBoard.latch.over == old(gameBoard.latch.over)
    {
      ghost var s, over := gameBoard.State(), gameBoard.latch.over;
      var moves := gameBoard.ValidMoves(oppColor);
      CandidatesLegal(s, over, oppColor);
      LoopAsWritten(moves, Candidates(s, over, oppColor));
    }

    /** The loop of the pre-search as written. */
    method LoopAsWritten(moves: array<Option<Move>>, ghost c: seq<Move>)
      requires Valid() && Listing(moves[..], c) && AllLegal(gameBoard.State(), gameBoard.latch.over, c, oppColor)
      modifies gameBoard.latch, gameBoard.items, gameBoard.visited, gameBoard.lists
      modifies gameBoard`grid, gameBoard`marks, gameBoard`table, gameBoard`blackChips, gameBoard`whiteChips
      ensures Valid() && gameBoard.State() == old(gameBoard.State()) && gameBoard.latch.over == old(gameBoard.latch.over)
    {
      ghost var s, over := gameBoard.State(), gameBoard.latch.over;
      var k := 0;
      while k < moves.Length
        invariant 0 <= k <= moves.Length
        invariant Valid() && gameBoard.State() == s && gameBoard.latch.over == over
        invariant Listing(moves[..], c)
      {
        if moves[k].Some? {
          var m := moves[k].value;
          assert m in c;
          TrialAsWritten(m);
        }
        k := k + 1;
      }
    }

    /** One turn of the pre-search loop as written. */
    method TrialAsWritten(m: Move)
      requires Valid() && InGrid(m) && Legal(gameBoard.State(), gameBoard.latch.over, m, oppColor)
      modifies gameBoard.latch, gameBoard.items, gameBoard.visited, gameBoard.lists
      modifies gameBoard`grid, gameBoard`marks, gameBoard`table, gameBoard`blackChips, gameBoard`whiteChips
      ensures Valid() && gameBoard.State() == old(gameBoard.State()) && gameBoard.latch.over == old(gameBoard.latch.over)
    {
      ghost var s, over := gameBoard.State(), gameBoard.latch.over;
      LegalKeepsConsistentGrid(s, over, m, oppColor);
      UpdateGameBoard(m, oppColor);
      var threat := TestNetwork(oppColor);
      if threat {
        BlockAsWritten(m, s, over);
      }
      UndoMove(m, oppColor);
      UndoApply(s, m, oppColor);
    }

    /** The branch of the pre-search as written taken when the trial move
        completes an opponent network: the coordinates are cleared and the
        machine's isValid is asked with the trial chip still in place. */
    method BlockAsWritten(m: Move, ghost s: Position, ghost over: bool)
      requires Valid() && WellFormed(s.grid) && InGrid(m) && Legal(s, over, m, oppColor)
      requires gameBoard.State() == Apply(s, m, oppColor) && gameBoard.latch.over == over
      modifies gameBoard.latch, gameBoard.items, gameBoard.visited, gameBoard.lists
      modifies gameBoard`grid, gameBoard`marks, gameBoard`table, gameBoard`blackChips, gameBoard`whiteChips
      ensures Valid() && gameBoard.State() == old(gameBoard.State()) && gameBoard.latch.over == over
    {
      ClearCoordinates();
      var ok := gameBoard.IsValid(m, machinePlayerColor);
      TrialSquareTaken(s, over, over, m, oppColor, machinePlayerColor);
      assert !ok;
    }

    /** One turn of the corrected pre-search: whether m completes an
        opponent network and is a legal move for the machine. */
    method Guard(m: Move) returns (ok: bool)
      requires Valid() && InGrid(m) && Legal(gameBoard.State(), gameBoard.latch.over, m, oppColor)
      modifies gameBoard.latch, gameBoard.items, gameBoard.visited, gameBoard.lists
      modifies gameBoard`grid, gameBoard`marks, gameBoard`table, gameBoard`blackChips, gameBoard`whiteChips
      ensures Valid() && gameBoard.State() == old(gameBoard.State()) && gameBoard.latch.over == old(gameBoard.latch.over)
      ensures ok ==> Legal(old(gameBoard.State()), old(gameBoard.latch.over), m, machinePlayerColor)
      ensures ok ==> Threat(old(gameBoard.State()), m, oppColor)
    {
      var threat := Trial(m);
      ok := false;
      if threat {
        ClearCoordinates();
        ok := gameBoard.IsValid(m, machinePlayerColor);
      }
    }

    /** Applies m for the opponent, tests for an opponent network, and
        undoes m. */
    method Trial(m: Move) returns (threat: bool)
      requires Valid() && InGrid(m) && Legal(gameBoard.State(), gameBoard.latch.over, m, oppColor)
      modifies gameBoard.items, gameBoard.visited, gameBoard.lists
      modifies gameBoard`grid, gameBoard`marks, gameBoard`table, gameBoard`blackChips, gameBoard`whiteChips
      ensures Valid() && gameBoard.State() == old(gameBoard.State())
      ensures threat ==> Threat(gameBoard.State(), m, oppColor)
    {
      ghost var s := gameBoard.State();
      LegalKeepsConsistentGrid(s, gameBoard.latch.over, m, oppColor);
      UpdateGameBoard(m, oppColor);
      threat := TestNetwork(oppColor);
      UndoMove(m, oppColor);
      UndoApply(s, m, oppColor);
    }
  }

  /** Every move of c is one isValid accepts for p. */
  ghost predicate AllLegal(s: Position, over: bool, c: seq<Move>, p: int)
    requires WellFormed(s.grid) && IsColor(p)
  {
    forall m :: m in c ==> InGrid(m) && Legal(s, over, m, p)
  }

  /** Every move validMoves lists is legal. */
  lemma CandidatesLegal(s: Position, over: bool, p: int)
    requires WellFormed(s.grid) && IsColor(p)
    ensures AllLegal(s, over, Candidates(s, over, p), p)
  {
  }

  /** p's move m on s completes a network of p. */
  ghost predicate Threat(s: Position, m: Move, p: int)
    requires IsGrid(s.grid) && IsColor(p) && OnBoard(m)
  {
    WellFormed(Apply(s, m, p).grid) && HasNetwork(Apply(s, m, p).grid, p)
  }

  /** Once p's legal move m is on the board, m is legal for nobody: its
      destination is taken. */
  lemma TrialSquareTaken(s: Position, over: bool, over2: bool, m: Move, p: int, q: int)
    requires WellFormed(s.grid) && IsColor(p) && IsColor(q) && InGrid(m) && Legal(s, over, m, p)
    ensures WellFormed(Apply(s, m, p).grid) && !Legal(Apply(s, m, p), over2, m, q)
  {
    LegalKeepsConsistentGrid(s, over, m, p);
    assert Apply(s, m, p).grid[m.x1 + 1][m.y1 + 1] == p;
  }

  /** A legal move keeps the grid well formed. */
  lemma LegalKeepsConsistentGrid(s: Position, gameOver: bool, m: Move, p: int)
    requires WellFormed(s.grid) && IsColor(p) && InGrid(m) && Legal(s, gameOver, m, p)
    ensures WellFormed(Apply(s, m, p).grid)
  {
    SetCellWellFormed(s.grid, m.x1 + 1, m.y1 + 1, p);
    if m.kind == Step {
      SetCellWellFormed(Put(s, m.x1, m.y1, p).grid, m.x2 + 1, m.y2 + 1, EMPTY);
    }
  }
}
