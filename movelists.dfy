/** The list of moves validMoves returns, as a function of the position:
    its order follows the four nested loops of the source, its entries are
    exactly the legal moves of the current phase, and it fits the array the
    source allocates for it. Both loop pairs, over the squares (i, j) and
    over the destinations (k, l) of a step, are one row-major Scan of the
    8x8 board that concatenates what each square contributes. Scan
    recurses on prefixes of two sequences whose lengths are the loop
    bounds rather than on an integer bound, which keeps the verifier from
    unrolling the whole 8x8x8x8 scan whenever the list is mentioned. */
module MoveLists {
  import opened Moves
  import opened Legality

  /** The test validMoves applies to every move it tries: isValid(m, p). */
  function Accepts(s: Position, gameOver: bool, p: int): Move -> bool
    requires WellFormed(s.grid) && IsColor(p)
  {
    m => InGrid(m) && Legal(s, gameOver, m, p)
  }

  /** What the capacity argument needs of the acceptance test: an accepted
      move lands on a square of p's area, and an Add needs a chip in hand. */
  ghost predicate Sensible(s: Position, p: int, ok: Move -> bool) {
    forall m :: ok(m) ==> OnBoard(m) && InOwnArea(p, m.x1 + 1, m.y1 + 1) && (m.kind == Add ==> Chips(s, p) != 0)
  }

  lemma AcceptsSensible(s: Position, gameOver: bool, p: int)
    requires WellFormed(s.grid) && IsColor(p)
    ensures Sensible(s, p, Accepts(s, gameOver, p))
  {
    forall m | Accepts(s, gameOver, p)(m)
      ensures OnBoard(m) && InOwnArea(p, m.x1 + 1, m.y1 + 1) && (m.kind == Add ==> Chips(s, p) != 0)
    {
      assert Legal(s, gameOver, m, p);
    }
  }

  /** The shape of a move validMoves can produce: an Add with no source onto
      a square, or, once p has no chips in hand, a step between squares. */
  predicate Shaped(s: Position, p: int, m: Move) {
    (m.kind == Add && m == AddMove(m.x1, m.y1) && OnBoard(m)) ||
    (m.kind == Step && OnBoard(m) && Chips(s, p) < 1)
  }

  /** A move that validMoves lists for p: isValid accepts it, an Add carries
      no source, and a step is tried only once p has no chips in hand. */
  predicate Listable(s: Position, gameOver: bool, m: Move, p: int)
    requires WellFormed(s.grid) && IsColor(p)
  {
    InGrid(m) && Legal(s, gameOver, m, p) &&
    (m.kind == Add ==> m == AddMove(m.x1, m.y1)) &&
    (m.kind == Step ==> Chips(s, p) < 1)
  }

  // ---------------------------------------------------------------------
  // The row-major scan
  // ---------------------------------------------------------------------

  /** What the squares (i, 0), ..., (i, |cols| - 1) contribute, in order. */
  function ScanRow<T>(f: (int, int) -> seq<Move>, i: int, cols: seq<T>): seq<Move>
    decreases |cols|
  {
    if cols == [] then []
    else
      var j := |cols| - 1;
      ScanRow(f, i, cols[..j]) + f(i, j)
  }

  /** What the squares of the rows 0, ..., |rows| - 1 contribute, row by
      row; only the lengths of rows and cols matter. */
  function Scan<T>(f: (int, int) -> seq<Move>, rows: seq<T>, cols: seq<T>): seq<Move>
    decreases |rows|
  {
    if rows == [] then []
    else
      var i := |rows| - 1;
      Scan(f, rows[..i], cols) + ScanRow(f, i, cols)
  }

  /** Sum of a weight over the squares a ScanRow visits. */
  function RowTotal<T>(w: (int, int) -> int, i: int, cols: seq<T>): int
    decreases |cols|
  {
    if cols == [] then 0 else RowTotal(w, i, cols[..|cols| - 1]) + w(i, |cols| - 1)
  }

  /** Sum of a weight over the squares a Scan visits. */
  function Total<T>(w: (int, int) -> int, rows: seq<T>, cols: seq<T>): int
    decreases |rows|
  {
    if rows == [] then 0 else Total(w, rows[..|rows| - 1], cols) + RowTotal(w, |rows| - 1, cols)
  }

  lemma {:induction false} ScanRowHas<T>(f: (int, int) -> seq<Move>, i: int, cols: seq<T>, j: int, m: Move)
    requires 0 <= j < |cols| && m in f(i, j)
    ensures m in ScanRow(f, i, cols)
    decreases |cols|
  {
    var n := |cols| - 1;
    var before, last := ScanRow(f, i, cols[..n]), f(i, n);
    assert ScanRow(f, i, cols) == before + last;
    if j < n {
      ScanRowHas(f, i, cols[..n], j, m);
      assert m in before;
    } else {
      assert m in last;
    }
    assert m in before + last;
  }

  /** Whatever a visited square contributes is in the scan. */
  lemma {:induction false} ScanHas<T>(f: (int, int) -> seq<Move>, rows: seq<T>, cols: seq<T>, i: int, j: int, m: Move)
    requires 0 <= i < |rows| && 0 <= j < |cols| && m in f(i, j)
    ensures m in Scan(f, rows, cols)
    decreases |rows|
  {
    var n := |rows| - 1;
    var before, last := Scan(f, rows[..n], cols), ScanRow(f, n, cols);
    assert Scan(f, rows, cols) == before + last;
    if i < n {
      ScanHas(f, rows[..n], cols, i, j, m);
      assert m in before;
    } else {
      ScanRowHas(f, n, cols, j, m);
      assert m in last;
    }
    assert m in before + last;
  }

  lemma {:induction false} ScanRowSound<T>(f: (int, int) -> seq<Move>, i: int, cols: seq<T>, P: Move -> bool)
    requires forall j, m :: 0 <= j < |cols| && m in f(i, j) ==> P(m)
    ensures forall m :: m in ScanRow(f, i, cols) ==> P(m)
    decreases |cols|
  {
    if cols != [] {
      var n := |cols| - 1;
      assert ScanRow(f, i, cols) == ScanRow(f, i, cols[..n]) + f(i, n);
      ScanRowSound(f, i, cols[..n], P);
    }
  }

  /** Everything in the scan was contributed by a visited square, so a
      property of every contribution holds of the whole list. */
  lemma {:induction false} ScanSound<T>(f: (int, int) -> seq<Move>, rows: seq<T>, cols: seq<T>, P: Move -> bool)
    requires forall i, j, m :: 0 <= i < |rows| && 0 <= j < |cols| && m in f(i, j) ==> P(m)
    ensures forall m :: m in Scan(f, rows, cols) ==> P(m)
    decreases |rows|
  {
    if rows != [] {
      var n := |rows| - 1;
      assert Scan(f, rows, cols) == Scan(f, rows[..n], cols) + ScanRow(f, n, cols);
      ScanSound(f, rows[..n], cols, P);
      ScanRowSound(f, n, cols, P);
    }
  }

  lemma {:induction false} ScanRowSize<T>(f: (int, int) -> seq<Move>, w: (int, int) -> int, i: int, cols: seq<T>)
    requires forall j :: 0 <= j < |cols| ==> |f(i, j)| <= w(i, j)
    ensures |ScanRow(f, i, cols)| <= RowTotal(w, i, cols)
    decreases |cols|
  {
    if cols != [] {
      var n := |cols| - 1;
      assert ScanRow(f, i, cols) == ScanRow(f, i, cols[..n]) + f(i, n);
      ScanRowSize(f, w, i, cols[..n]);
    }
  }

  /** The scan is no longer than the total of any weight that bounds what
      each visited square contributes. */
  lemma {:induction false} ScanSize<T>(f: (int, int) -> seq<Move>, w: (int, int) -> int, rows: seq<T>, cols: seq<T>)
    requires forall i, j :: 0 <= i < |rows| && 0 <= j < |cols| ==> |f(i, j)| <= w(i, j)
    ensures |Scan(f, rows, cols)| <= Total(w, rows, cols)
    decreases |rows|
  {
    if rows != [] {
      var n := |rows| - 1;
      assert Scan(f, rows, cols) == Scan(f, rows[..n], cols) + ScanRow(f, n, cols);
      ScanSize(f, w, rows[..n], cols);
      ScanRowSize(f, w, n, cols);
    }
  }

  /** One more square of a row: the loop over j of validMoves appends what
      the square (i, j) contributes. */
  lemma ScanRowStep<T>(f: (int, int) -> seq<Move>, i: int, cols: seq<T>, j: int)
    requires 0 <= j < |cols|
    ensures ScanRow(f, i, cols[..j + 1]) == ScanRow(f, i, cols[..j]) + f(i, j)
  {
    assert cols[..j + 1][..j] == cols[..j];
  }

  /** One more row: the loop over i of validMoves appends the row i. */
  lemma ScanStep<T>(f: (int, int) -> seq<Move>, rows: seq<T>, cols: seq<T>, i: int)
    requires 0 <= i < |rows|
    ensures Scan(f, rows[..i + 1], cols) == Scan(f, rows[..i], cols) + ScanRow(f, i, cols)
  {
    assert rows[..i + 1][..i] == rows[..i];
  }

  lemma {:induction false} ScanRowPrefix<T>(f: (int, int) -> seq<Move>, i: int, cols: seq<T>, j: int)
    requires 0 <= j <= |cols|
    ensures ScanRow(f, i, cols[..j]) <= ScanRow(f, i, cols)
    decreases |cols|
  {
    if j < |cols| {
      var n := |cols| - 1;
      assert cols[..n][..j] == cols[..j];
      ScanRowPrefix(f, i, cols[..n], j);
      assert ScanRow(f, i, cols) == ScanRow(f, i, cols[..n]) + f(i, n);
    } else {
      assert cols[..j] == cols;
    }
  }

  lemma {:induction false} ScanPrefix<T>(f: (int, int) -> seq<Move>, rows: seq<T>, cols: seq<T>, i: int)
    requires 0 <= i <= |rows|
    ensures Scan(f, rows[..i], cols) <= Scan(f, rows, cols)
    decreases |rows|
  {
    if i < |rows| {
      var n := |rows| - 1;
      assert rows[..n][..i] == rows[..i];
      ScanPrefix(f, rows[..n], cols, i);
      assert Scan(f, rows, cols) == Scan(f, rows[..n], cols) + ScanRow(f, n, cols);
    } else {
      assert rows[..i] == rows;
    }
  }

  /** The loop over j of validMoves at the square (i, j): what it appends
      fits within what the whole row contributes. */
  lemma ScanRowNext<T>(f: (int, int) -> seq<Move>, i: int, cols: seq<T>, j: int)
    requires 0 <= j < |cols|
    ensures ScanRow(f, i, cols[..j + 1]) == ScanRow(f, i, cols[..j]) + f(i, j)
    ensures |ScanRow(f, i, cols[..j])| + |f(i, j)| <= |ScanRow(f, i, cols)|
  {
    ScanRowStep(f, i, cols, j);
    ScanRowPrefix(f, i, cols, j + 1);
  }

  /** The loop over i of validMoves at the row i: what it appends fits
      within the whole scan. */
  lemma ScanNext<T>(f: (int, int) -> seq<Move>, rows: seq<T>, cols: seq<T>, i: int)
    requires 0 <= i < |rows|
    ensures Scan(f, rows[..i + 1], cols) == Scan(f, rows[..i], cols) + ScanRow(f, i, cols)
    ensures |Scan(f, rows[..i], cols)| + |ScanRow(f, i, cols)| <= |Scan(f, rows, cols)|
  {
    ScanStep(f, rows, cols, i);
    ScanPrefix(f, rows, cols, i + 1);
  }

  /** What the loops of validMoves have listed before the square (i, j) is
      a prefix of the whole scan. */
  lemma ScanUpTo<T>(f: (int, int) -> seq<Move>, rows: seq<T>, cols: seq<T>, i: int, j: int)
    requires 0 <= i < |rows| && 0 <= j <= |cols|
    ensures Scan(f, rows[..i], cols) + ScanRow(f, i, cols[..j]) <= Scan(f, rows, cols)
  {
    ScanStep(f, rows, cols, i);
    ScanRowPrefix(f, i, cols, j);
    ScanPrefix(f, rows, cols, i + 1);
  }

  // ---------------------------------------------------------------------
  // What validMoves lists
  // ---------------------------------------------------------------------

  /** The eight playable rows of the grid: a sequence of length 8 that the
      scans below use for both loop bounds. */
  function Lanes(s: Position): (r: seq<seq<int>>)
    requires IsGrid(s.grid)
    ensures |r| == 8
  {
    s.grid[1..9]
  }

  /** The inner loops of validMoves for the chip at (i, j): the step to
      the destination (k, l) is tried when that square is empty and listed
      when ok accepts it. */
  function StepsFrom(s: Position, ok: Move -> bool, i: int, j: int): (int, int) -> seq<Move>
    requires IsGrid(s.grid)
  {
    (k, l) =>
      if 0 <= k <= 7 && 0 <= l <= 7 && s.grid[k + 1][l + 1] == EMPTY && ok(StepMove(k, l, i, j))
      then [StepMove(k, l, i, j)] else []
  }

  /** What validMoves lists for the square (i, j): every accepted step of
      the chip there once p has no chips in hand, otherwise the Add onto it
      if it is empty and accepted. */
  function MovesAt(s: Position, p: int, ok: Move -> bool, i: int, j: int): seq<Move>
    requires IsGrid(s.grid) && 0 <= i <= 7 && 0 <= j <= 7
  {
    var item := s.grid[i + 1][j + 1];
    if Chips(s, p) < 1 && item == p then Scan(StepsFrom(s, ok, i, j), Lanes(s), Lanes(s))
    else if item == EMPTY then (if ok(AddMove(i, j)) then [AddMove(i, j)] else [])
    else []
  }

  /** The outer loops of validMoves: what each square contributes. */
  function Squares(s: Position, p: int, ok: Move -> bool): (int, int) -> seq<Move>
    requires IsGrid(s.grid)
  {
    (i, j) => if 0 <= i <= 7 && 0 <= j <= 7 then MovesAt(s, p, ok, i, j) else []
  }

  /** Every step listed from (i, j) goes to an accepted square of the board. */
  lemma StepsSound(s: Position, p: int, ok: Move -> bool, i: int, j: int)
    requires IsGrid(s.grid)
    ensures forall m :: m in Scan(StepsFrom(s, ok, i, j), Lanes(s), Lanes(s)) ==>
      m == StepMove(m.x1, m.y1, i, j) && 0 <= m.x1 <= 7 && 0 <= m.y1 <= 7 && ok(m)
  {
    var P := (m: Move) => m == StepMove(m.x1, m.y1, i, j) && 0 <= m.x1 <= 7 && 0 <= m.y1 <= 7 && ok(m);
    ScanSound(StepsFrom(s, ok, i, j), Lanes(s), Lanes(s), P);
  }

  /** Everything listed for a square is accepted and has the shape the
      source builds: an Add of the square, or a step once p's chips are
      all on the board. */
  lemma MovesAtSound(s: Position, p: int, ok: Move -> bool, i: int, j: int)
    requires IsGrid(s.grid) && 0 <= i <= 7 && 0 <= j <= 7
    ensures forall m :: m in MovesAt(s, p, ok, i, j) ==> ok(m) && Shaped(s, p, m)
  {
    if Chips(s, p) < 1 && s.grid[i + 1][j + 1] == p {
      StepsSound(s, p, ok, i, j);
    }
  }

  /** Everything the whole scan lists is accepted and well shaped. */
  lemma ScanSquaresSound(s: Position, p: int, ok: Move -> bool)
    requires IsGrid(s.grid)
    ensures forall m :: m in Scan(Squares(s, p, ok), Lanes(s), Lanes(s)) ==> ok(m) && Shaped(s, p, m)
  {
    var P := (m: Move) => ok(m) && Shaped(s, p, m);
    forall i, j, m | 0 <= i < 8 && 0 <= j < 8 && m in Squares(s, p, ok)(i, j)
      ensures P(m)
    {
      MovesAtSound(s, p, ok, i, j);
    }
    ScanSound(Squares(s, p, ok), Lanes(s), Lanes(s), P);
  }

  /** The non-null prefix of the array validMoves returns. While p has chips
      in hand only Adds are listed, once it has none only steps. */
  function Candidates(s: Position, gameOver: bool, p: int): (r: seq<Move>)
    requires WellFormed(s.grid) && IsColor(p)
    ensures forall m :: m in r ==> Listable(s, gameOver, m, p)
    ensures Chips(s, p) > 0 ==> forall m :: m in r ==> m.kind == Add
    ensures Chips(s, p) == 0 ==> forall m :: m in r ==> m.kind == Step
  {
    ScanSquaresSound(s, p, Accepts(s, gameOver, p));
    Scan(Squares(s, p, Accepts(s, gameOver, p)), Lanes(s), Lanes(s))
  }

  /** The length of the array validMoves allocates: one slot per empty
      square of p's area during the add phase, 38 per chip afterwards. */
  function Capacity(chips: int): int {
    if chips > 0 then 48 - (CHIPS - chips) else 38 * CHIPS
  }

  /** An accepted step onto an empty square, from a square holding p's
      chip once p has no chips in hand, is in the scan. */
  lemma StepListed(s: Position, p: int, ok: Move -> bool, m: Move)
    requires IsGrid(s.grid) && m.kind == Step && OnBoard(m) && ok(m) && Chips(s, p) < 1
    requires s.grid[m.x1 + 1][m.y1 + 1] == EMPTY && s.grid[m.x2 + 1][m.y2 + 1] == p
    ensures m in Scan(Squares(s, p, ok), Lanes(s), Lanes(s))
  {
    var f := StepsFrom(s, ok, m.x2, m.y2);
    assert m == StepMove(m.x1, m.y1, m.x2, m.y2);
    assert m in f(m.x1, m.y1);
    ScanHas(f, Lanes(s), Lanes(s), m.x1, m.y1, m);
    assert m in Squares(s, p, ok)(m.x2, m.y2);
    ScanHas(Squares(s, p, ok), Lanes(s), Lanes(s), m.x2, m.y2, m);
  }

  /** An accepted Add onto an empty square is in the scan. */
  lemma AddListed(s: Position, p: int, ok: Move -> bool, m: Move)
    requires IsGrid(s.grid) && IsColor(p) && m == AddMove(m.x1, m.y1) && OnBoard(m) && ok(m)
    requires s.grid[m.x1 + 1][m.y1 + 1] == EMPTY
    ensures m in Scan(Squares(s, p, ok), Lanes(s), Lanes(s))
  {
    assert m in Squares(s, p, ok)(m.x1, m.y1);
    ScanHas(Squares(s, p, ok), Lanes(s), Lanes(s), m.x1, m.y1, m);
  }

  /** validMoves lists exactly the moves isValid accepts in the current
      phase: every listed move is legal, and every legal Add, and every legal
      step once p has no chips in hand, is listed. */
  lemma CandidatesExact(s: Position, gameOver: bool, p: int, m: Move)
    requires WellFormed(s.grid) && IsColor(p)
    ensures m in Candidates(s, gameOver, p) <==> Listable(s, gameOver, m, p)
  {
    var ok := Accepts(s, gameOver, p);
    if Listable(s, gameOver, m, p) {
      assert ok(m) && OnBoard(m) && Applicable(s, m, p);
      if m.kind == Step {
        StepListed(s, p, ok, m);
      } else {
        AddListed(s, p, ok, m);
      }
    }
  }

  // ---------------------------------------------------------------------
  // The list fits the array validMoves allocates
  // ---------------------------------------------------------------------

  /** 1 for each square (a, b) of the board in p's area that holds v. */
  function AreaWeight(g: Grid, p: int, v: int): (int, int) -> int
    requires IsGrid(g)
  {
    (a, b) => if 0 <= a <= 7 && 0 <= b <= 7 && g[a + 1][b + 1] == v && InOwnArea(p, a + 1, b + 1) then 1 else 0
  }

  /** k times a weight. */
  function Scaled(w: (int, int) -> int, k: int): (int, int) -> int {
    (a, b) => k * w(a, b)
  }

  lemma {:induction false} RowTotalScaled<T>(w: (int, int) -> int, k: int, i: int, cols: seq<T>)
    ensures RowTotal(Scaled(w, k), i, cols) == k * RowTotal(w, i, cols)
    decreases |cols|
  {
    if cols != [] {
      var n := |cols| - 1;
      RowTotalScaled(w, k, i, cols[..n]);
      assert k * (RowTotal(w, i, cols[..n]) + w(i, n)) == k * RowTotal(w, i, cols[..n]) + k * w(i, n);
    }
  }

  /** Scaling the weight scales its total. */
  lemma {:induction false} TotalScaled<T>(w: (int, int) -> int, k: int, rows: seq<T>, cols: seq<T>)
    ensures Total(Scaled(w, k), rows, cols) == k * Total(w, rows, cols)
    decreases |rows|
  {
    if rows != [] {
      var n := |rows| - 1;
      TotalScaled(w, k, rows[..n], cols);
      RowTotalScaled(w, k, n, cols);
      assert k * (Total(w, rows[..n], cols) + RowTotal(w, n, cols)) == k * Total(w, rows[..n], cols) + k * RowTotal(w, n, cols);
    }
  }

  /** The last cell of a row adds nothing to an area count. */
  lemma RowEnd(row: seq<int>, p: int, x: int, v: int)
    requires |row| == SIZE
    ensures AreaRow(row, p, x, v) == AreaRow(row[..9], p, x, v)
  {
  }

  /** The last row of a grid adds nothing to an area count. */
  lemma GridEnd(g: Grid, p: int, v: int)
    requires IsGrid(g)
    ensures AreaCount(g, p, v) >= AreaCount(g[..9], p, v)
  {
  }

  /** Row 0 of the grid lies outside both areas. */
  lemma {:induction false} OutsideRow(row: seq<int>, p: int, v: int)
    ensures AreaRow(row, p, 0, v) == 0
    decreases |row|
  {
    if row != [] {
      OutsideRow(row[..|row| - 1], p, v);
    }
  }

  lemma RowPrefix(row: seq<int>, p: int, x: int, v: int, n: int)
    requires 0 <= n < |row|
    ensures AreaRow(row[..n + 1], p, x, v) == AreaRow(row[..n], p, x, v) + (if row[n] == v && InOwnArea(p, x, n) then 1 else 0)
  {
    assert row[..n + 1][..n] == row[..n];
  }

  lemma GridPrefix(g: Grid, p: int, v: int, n: int)
    requires 0 <= n < |g|
    ensures AreaCount(g[..n + 1], p, v) == AreaCount(g[..n], p, v) + AreaRow(g[n], p, n, v)
  {
    assert g[..n + 1][..n] == g[..n];
  }

  lemma {:induction false} RowTotalArea<T>(g: Grid, p: int, v: int, a: int, cols: seq<T>)
    requires IsGrid(g) && 0 <= a <= 7 && |cols| <= 8
    ensures RowTotal(AreaWeight(g, p, v), a, cols) == AreaRow(g[a + 1][..|cols| + 1], p, a + 1, v)
    decreases |cols|
  {
    var w := AreaWeight(g, p, v);
    if cols != [] {
      var n := |cols| - 1;
      assert RowTotal(w, a, cols) == RowTotal(w, a, cols[..n]) + w(a, n);
      RowTotalArea(g, p, v, a, cols[..n]);
      RowPrefix(g[a + 1], p, a + 1, v, n + 1);
    } else {
      RowPrefix(g[a + 1], p, a + 1, v, 0);
    }
  }

  /** Summing AreaWeight over the scanned rows counts the squares of p's
      area in those rows that hold v. */
  lemma {:induction false} TotalArea<T>(g: Grid, p: int, v: int, rows: seq<T>, cols: seq<T>)
    requires IsGrid(g) && |rows| <= 8 && |cols| == 8
    ensures Total(AreaWeight(g, p, v), rows, cols) == AreaCount(g[..|rows| + 1], p, v)
    decreases |rows|
  {
    var w := AreaWeight(g, p, v);
    if rows != [] {
      var n := |rows| - 1;
      assert Total(w, rows, cols) == Total(w, rows[..n], cols) + RowTotal(w, n, cols);
      TotalArea(g, p, v, rows[..n], cols);
      RowTotalArea(g, p, v, n, cols);
      RowEnd(g[n + 1], p, n + 1, v);
      GridPrefix(g, p, v, n + 1);
    } else {
      OutsideRow(g[0], p, v);
      GridPrefix(g, p, v, 0);
    }
  }

  /** On a consistent board p has 10 minus its chips in hand on the board,
      all in its area of 48 squares, so the rest of the area is at most that
      many squares smaller. */
  lemma EmptyInArea(s: Position, p: int)
    requires Consistent(s) && IsColor(p)
    ensures AreaCount(s.grid, p, EMPTY) <= 48 - (CHIPS - Chips(s, p))
  {
    assert ColorConsistent(s, p);
    AreaSplit(s.grid, p);
  }

  /** The steps of one chip are at most the empty squares of p's area. */
  lemma StepsSize(s: Position, p: int, ok: Move -> bool, i: int, j: int)
    requires WellFormed(s.grid) && IsColor(p) && Sensible(s, p, ok)
    ensures |Scan(StepsFrom(s, ok, i, j), Lanes(s), Lanes(s))| <= AreaCount(s.grid, p, EMPTY)
  {
    var w := AreaWeight(s.grid, p, EMPTY);
    forall a, b | 0 <= a < 8 && 0 <= b < 8
      ensures |StepsFrom(s, ok, i, j)(a, b)| <= w(a, b)
    {
      if s.grid[a + 1][b + 1] == EMPTY && ok(StepMove(a, b, i, j)) {
        assert InOwnArea(p, a + 1, b + 1);
      }
    }
    ScanSize(StepsFrom(s, ok, i, j), w, Lanes(s), Lanes(s));
    TotalArea(s.grid, p, EMPTY, Lanes(s), Lanes(s));
    GridEnd(s.grid, p, EMPTY);
  }

  /** What the step-phase bound uses of a consistent board: p has no chips
      in hand, at most 38 squares of its area are empty, and its chips all
      stand in its area. */
  ghost predicate StepBounded(s: Position, p: int)
    requires WellFormed(s.grid)
  {
    Chips(s, p) == 0 && AreaCount(s.grid, p, EMPTY) <= 38 &&
    forall i, j :: 0 <= i < SIZE && 0 <= j < SIZE && s.grid[i][j] == p ==> InOwnArea(p, i, j)
  }

  lemma ConsistentStepBounded(s: Position, p: int)
    requires Consistent(s) && IsColor(p) && Chips(s, p) == 0
    ensures StepBounded(s, p)
  {
    assert ColorConsistent(s, p);
    EmptyInArea(s, p);
  }

  /** While p has chips in hand each square contributes at most one move,
      and only an empty square of p's area does. */
  lemma AddPhaseFit(s: Position, p: int, ok: Move -> bool)
    requires WellFormed(s.grid) && IsColor(p) && Sensible(s, p, ok) && Chips(s, p) > 0
    ensures |Scan(Squares(s, p, ok), Lanes(s), Lanes(s))| <= AreaCount(s.grid, p, EMPTY)
  {
    var w := AreaWeight(s.grid, p, EMPTY);
    forall i, j | 0 <= i < 8 && 0 <= j < 8
      ensures |Squares(s, p, ok)(i, j)| <= w(i, j)
    {
      if s.grid[i + 1][j + 1] == EMPTY && ok(AddMove(i, j)) {
        assert InOwnArea(p, i + 1, j + 1);
      }
    }
    ScanSize(Squares(s, p, ok), w, Lanes(s), Lanes(s));
    TotalArea(s.grid, p, EMPTY, Lanes(s), Lanes(s));
    GridEnd(s.grid, p, EMPTY);
  }

  /** Once p has no chips in hand each of its chips contributes at most 38
      steps. */
  lemma StepPhaseFit(s: Position, p: int, ok: Move -> bool)
    requires WellFormed(s.grid) && IsColor(p) && Sensible(s, p, ok) && StepBounded(s, p)
    ensures |Scan(Squares(s, p, ok), Lanes(s), Lanes(s))| <= 38 * AreaCount(s.grid, p, p)
  {
    var w := AreaWeight(s.grid, p, p);
    forall i, j | 0 <= i < 8 && 0 <= j < 8
      ensures |Squares(s, p, ok)(i, j)| <= Scaled(w, 38)(i, j)
    {
      if s.grid[i + 1][j + 1] == p {
        StepsSize(s, p, ok, i, j);
      }
    }
    ScanSize(Squares(s, p, ok), Scaled(w, 38), Lanes(s), Lanes(s));
    TotalScaled(w, 38, Lanes(s), Lanes(s));
    TotalArea(s.grid, p, p, Lanes(s), Lanes(s));
    GridEnd(s.grid, p, p);
  }

  /** On a consistent board the listed moves fit the array validMoves
      allocates, so the source never writes past its end. */
  lemma CandidatesFit(s: Position, gameOver: bool, p: int)
    requires Consistent(s) && IsColor(p)
    ensures |Candidates(s, gameOver, p)| <= Capacity(Chips(s, p))
  {
    var ok := Accepts(s, gameOver, p);
    AcceptsSensible(s, gameOver, p);
    assert ColorConsistent(s, p);
    if Chips(s, p) > 0 {
      AddPhaseFit(s, p, ok);
      EmptyInArea(s, p);
    } else {
      ConsistentStepBounded(s, p);
      StepPhaseFit(s, p, ok);
    }
  }
}
