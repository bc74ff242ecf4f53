/** What a chip sees along the eight compass rays (basicSeerFcn), and the
    networks that findNetwork and isNetwork look for, as functions of the
    grid of items and of the grid of visited flags. */
module Visibility {
  import opened Moves

  const NORTH := 1
  const NORTHEAST := 2
  const EAST := 3
  const SOUTHEAST := 4
  const SOUTH := 5
  const SOUTHWEST := 6
  const WEST := 7
  const NORTHWEST := 8

  predicate IsDirection(d: int) { NORTH <= d <= NORTHWEST }

  /** The step of direction d along the first index (x grows eastwards). */
  function DX(d: int): int {
    if d == NORTHEAST || d == EAST || d == SOUTHEAST then 1
    else if d == SOUTHWEST || d == WEST || d == NORTHWEST then -1
    else 0
  }

  /** The step of direction d along the second index (y grows southwards). */
  function DY(d: int): int {
    if d == SOUTHEAST || d == SOUTH || d == SOUTHWEST then 1
    else if d == NORTHEAST || d == NORTH || d == NORTHWEST then -1
    else 0
  }

  /** The loop guard of the ray in direction d, as basicSeerFcn writes it:
      the straight rays stop before the padding, the north-going diagonals
      stop at the padding row 0, the south-going ones only past row 9. The
      cell must also exist, which the guards imply on every ray that starts
      next to a playable cell. */
  predicate Inside(d: int, i: int, j: int) {
    0 <= i < SIZE && 0 <= j < SIZE &&
    if d == WEST then i > 0
    else if d == EAST then i < SIZE - 1
    else if d == NORTH then j > 0
    else if d == SOUTH then j < SIZE - 1
    else if d == NORTHWEST then i > 0 && j >= 1
    else if d == NORTHEAST then i < SIZE - 1 && j >= 1
    else if d == SOUTHWEST then i > 0 && j <= SIZE - 1
    else i < SIZE - 1 && j <= SIZE - 1
  }

  /** The distance left to the edge along d; it falls by one per step. */
  function Remaining(d: int, i: int, j: int): int {
    if DX(d) < 0 then i else if DX(d) > 0 then SIZE - i else if DY(d) < 0 then j else SIZE - j
  }

  /** The visited flags of the padded grid, indexed [x][y]. */
  type Marks = seq<seq<bool>>

  predicate IsMarks(v: Marks) {
    |v| == SIZE && forall i :: 0 <= i < SIZE ==> |v[i]| == SIZE
  }

  /** No cell visited. */
  function NoMarks(): (v: Marks)
    ensures IsMarks(v) && forall i, j :: 0 <= i < SIZE && 0 <= j < SIZE ==> !v[i][j]
  {
    seq(SIZE, i => seq(SIZE, j => false))
  }

  /** Every cell visited in v is visited in w. */
  predicate Fewer(v: Marks, w: Marks)
    requires IsMarks(v) && IsMarks(w)
  {
    forall i, j :: 0 <= i < SIZE && 0 <= j < SIZE && v[i][j] ==> w[i][j]
  }

  /** One entry of a chip's coordinate list: the direction of the hop and
      the padded coordinates of the chip it reaches. */
  datatype Sight = Sight(dir: int, x: int, y: int)

  /** The ray in direction d from (i, j) on: the first cell that holds a
      chip or is visited decides. An opponent chip or a visited cell hides
      everything behind it; an unvisited chip of p is seen. */
  function FirstOnRay(g: Grid, vis: Marks, i: int, j: int, d: int, p: int): (r: Option<Sight>)
    requires IsGrid(g) && IsMarks(vis) && IsDirection(d) && IsColor(p)
    ensures r.Some? ==> r.value.dir == d && Inside(d, r.value.x, r.value.y) && g[r.value.x][r.value.y] == p && !vis[r.value.x][r.value.y]
    decreases Remaining(d, i, j)
  {
    if !Inside(d, i, j) then None
    else if g[i][j] == Opponent(p) || vis[i][j] then None
    else if g[i][j] == p then Some(Sight(d, i, j))
    else FirstOnRay(g, vis, i + DX(d), j + DY(d), d, p)
  }

  /** What the chip at (x, y) sees in direction d. */
  function Ray(g: Grid, vis: Marks, x: int, y: int, d: int, p: int): Option<Sight>
    requires IsGrid(g) && IsMarks(vis) && IsDirection(d) && IsColor(p)
  {
    FirstOnRay(g, vis, x + DX(d), y + DY(d), d, p)
  }

  function Listed(o: Option<Sight>): seq<Sight> {
    if o.Some? then [o.value] else []
  }

  /** The order of the finds in the coordinate list basicSeerFcn builds:
      the rays are scanned W, E, N, S, NW, NE, SW, SE and each find is
      inserted at the front. */
  const ORDER: seq<int> := [SOUTHEAST, SOUTHWEST, NORTHEAST, NORTHWEST, SOUTH, NORTH, EAST, WEST]

  /** The finds of the first n directions of order, in that order. */
  function ListedAll(g: Grid, vis: Marks, x: int, y: int, p: int, order: seq<int>, n: nat): (l: seq<Sight>)
    requires IsGrid(g) && IsMarks(vis) && IsColor(p) && n <= |order|
    requires forall k :: 0 <= k < |order| ==> IsDirection(order[k])
    ensures |l| <= n
  {
    if n == 0 then [] else ListedAll(g, vis, x, y, p, order, n - 1) + Listed(Ray(g, vis, x, y, order[n - 1], p))
  }

  /** The coordinate list basicSeerFcn builds for (x, y). */
  function Seen(g: Grid, vis: Marks, x: int, y: int, p: int): (l: seq<Sight>)
    requires IsGrid(g) && IsMarks(vis) && IsColor(p)
    ensures |l| <= 8
  {
    ListedAll(g, vis, x, y, p, ORDER, |ORDER|)
  }

  /** Eight lists joined from the left are the same eight joined from the
      right. */
  lemma Regroup<T>(a0: seq<T>, a1: seq<T>, a2: seq<T>, a3: seq<T>, a4: seq<T>, a5: seq<T>, a6: seq<T>, a7: seq<T>)
    ensures [] + a0 + a1 + a2 + a3 + a4 + a5 + a6 + a7 == a0 + (a1 + (a2 + (a3 + (a4 + (a5 + (a6 + (a7 + [])))))))
  {
  }

  /** The list basicSeerFcn builds, written out ray by ray. */
  lemma SeenUnfolded(g: Grid, vis: Marks, x: int, y: int, p: int)
    requires IsGrid(g) && IsMarks(vis) && IsColor(p)
    ensures Seen(g, vis, x, y, p) ==
      Listed(Ray(g, vis, x, y, SOUTHEAST, p)) + (Listed(Ray(g, vis, x, y, SOUTHWEST, p)) +
      (Listed(Ray(g, vis, x, y, NORTHEAST, p)) + (Listed(Ray(g, vis, x, y, NORTHWEST, p)) +
      (Listed(Ray(g, vis, x, y, SOUTH, p)) + (Listed(Ray(g, vis, x, y, NORTH, p)) +
      (Listed(Ray(g, vis, x, y, EAST, p)) + (Listed(Ray(g, vis, x, y, WEST, p)) + [])))))))
  {
    var a0, a1, a2, a3 := Listed(Ray(g, vis, x, y, SOUTHEAST, p)), Listed(Ray(g, vis, x, y, SOUTHWEST, p)),
                          Listed(Ray(g, vis, x, y, NORTHEAST, p)), Listed(Ray(g, vis, x, y, NORTHWEST, p));
    var a4, a5, a6, a7 := Listed(Ray(g, vis, x, y, SOUTH, p)), Listed(Ray(g, vis, x, y, NORTH, p)),
                          Listed(Ray(g, vis, x, y, EAST, p)), Listed(Ray(g, vis, x, y, WEST, p));
    assert ORDER[0] == SOUTHEAST && ORDER[1] == SOUTHWEST && ORDER[2] == NORTHEAST && ORDER[3] == NORTHWEST;
    assert ORDER[4] == SOUTH && ORDER[5] == NORTH && ORDER[6] == EAST && ORDER[7] == WEST;
    assert forall k :: 0 <= k < |ORDER| ==> IsDirection(ORDER[k]);
    assert ListedAll(g, vis, x, y, p, ORDER, 1) == [] + a0;
    assert ListedAll(g, vis, x, y, p, ORDER, 2) == [] + a0 + a1;
    assert ListedAll(g, vis, x, y, p, ORDER, 3) == [] + a0 + a1 + a2;
    assert ListedAll(g, vis, x, y, p, ORDER, 4) == [] + a0 + a1 + a2 + a3;
    assert ListedAll(g, vis, x, y, p, ORDER, 5) == [] + a0 + a1 + a2 + a3 + a4;
    assert ListedAll(g, vis, x, y, p, ORDER, 6) == [] + a0 + a1 + a2 + a3 + a4 + a5;
    assert ListedAll(g, vis, x, y, p, ORDER, 7) == [] + a0 + a1 + a2 + a3 + a4 + a5 + a6;
    assert Seen(g, vis, x, y, p) == [] + a0 + a1 + a2 + a3 + a4 + a5 + a6 + a7;
    Regroup(a0, a1, a2, a3, a4, a5, a6, a7);
  }

  /** (a, b) lies on the ray in direction d that starts at (i, j). */
  predicate OnRay(d: int, i: int, j: int, a: int, b: int) {
    (if DX(d) < 0 then a <= i else if DX(d) > 0 then a >= i else a == i) &&
    (if DY(d) < 0 then b <= j else if DY(d) > 0 then b >= j else b == j) &&
    (DX(d) != 0 && DY(d) != 0 ==> (if DX(d) == DY(d) then a - i == b - j else a - i == j - b))
  }

  /** A find is an unvisited chip of p in direction d, on the ray, at a cell
      the ray's guard admits. */
  lemma {:induction false} RaySound(g: Grid, vis: Marks, i: int, j: int, d: int, p: int)
    requires IsGrid(g) && IsMarks(vis) && IsDirection(d) && IsColor(p)
    ensures var r := FirstOnRay(g, vis, i, j, d, p);
      r.Some? ==> r.value.dir == d && Inside(d, r.value.x, r.value.y) && OnRay(d, i, j, r.value.x, r.value.y) &&
                  g[r.value.x][r.value.y] == p && !vis[r.value.x][r.value.y]
    decreases Remaining(d, i, j)
  {
    if Inside(d, i, j) && g[i][j] != Opponent(p) && !vis[i][j] && g[i][j] != p {
      RaySound(g, vis, i + DX(d), j + DY(d), d, p);
    }
  }

  /** Clearing visited flags never hides a chip a ray saw: the cells in
      front of it were empty and unvisited, and stay so. */
  lemma {:induction false} RayFewerMarks(g: Grid, v: Marks, w: Marks, i: int, j: int, d: int, p: int)
    requires IsGrid(g) && IsMarks(v) && IsMarks(w) && IsDirection(d) && IsColor(p) && Fewer(v, w)
    requires FirstOnRay(g, w, i, j, d, p).Some?
    ensures FirstOnRay(g, v, i, j, d, p) == FirstOnRay(g, w, i, j, d, p)
    decreases Remaining(d, i, j)
  {
    if g[i][j] != p {
      RayFewerMarks(g, v, w, i + DX(d), j + DY(d), d, p);
    }
  }

  /** Each ray's find lies in the ray's own direction. */
  lemma RaysOwnDirection(g: Grid, vis: Marks, x: int, y: int, p: int)
    requires IsGrid(g) && IsMarks(vis) && IsColor(p)
    ensures forall d | IsDirection(d) :: var r := Ray(g, vis, x, y, d, p); r.Some? ==> r.value.dir == d
  {
    forall d | IsDirection(d) ensures var r := Ray(g, vis, x, y, d, p); r.Some? ==> r.value.dir == d {
      RaySound(g, vis, x + DX(d), y + DY(d), d, p);
    }
  }

  /** Listing the finds of distinct directions in a given order yields
      exactly those finds, one per direction. */
  lemma {:induction false} ListedInOrder(g: Grid, vis: Marks, x: int, y: int, p: int, order: seq<int>, n: nat)
    requires IsGrid(g) && IsMarks(vis) && IsColor(p) && n <= |order|
    requires forall k :: 0 <= k < |order| ==> IsDirection(order[k])
    requires forall a, b :: 0 <= a < b < |order| ==> order[a] != order[b]
    requires forall d | IsDirection(d) :: var r := Ray(g, vis, x, y, d, p); r.Some? ==> r.value.dir == d
    ensures var l := ListedAll(g, vis, x, y, p, order, n);
      (forall s :: s in l <==> s.dir in order[..n] && Ray(g, vis, x, y, s.dir, p) == Some(s)) &&
      (forall a, b :: 0 <= a < b < |l| ==> l[a].dir != l[b].dir)
  {
    if n > 0 {
      ListedInOrder(g, vis, x, y, p, order, n - 1);
      var d := order[n - 1];
      var before, last := ListedAll(g, vis, x, y, p, order, n - 1), Listed(Ray(g, vis, x, y, d, p));
      var l := before + last;
      assert order[..n] == order[..n - 1] + [d];
      assert d !in order[..n - 1];
      forall a | 0 <= a < |before| ensures before[a].dir != d {
        assert before[a] in before;
      }
      forall a, b | 0 <= a < b < |l| ensures l[a].dir != l[b].dir {
        if b >= |before| {
          assert l[b] == last[b - |before|] && l[b].dir == d;
          if a < |before| { assert l[a] == before[a]; }
        } else {
          assert l[a] == before[a] && l[b] == before[b];
        }
      }
    }
  }

  /** The list holds exactly the rays' finds, at most one per compass
      direction: an entry is the find of the ray in its own direction, and
      every find is listed. */
  lemma SeenExact(g: Grid, vis: Marks, x: int, y: int, p: int)
    requires IsGrid(g) && IsMarks(vis) && IsColor(p)
    ensures var l := Seen(g, vis, x, y, p);
      (forall s :: s in l <==> IsDirection(s.dir) && Ray(g, vis, x, y, s.dir, p) == Some(s)) &&
      (forall a, b :: 0 <= a < b < |l| ==> l[a].dir != l[b].dir)
  {
    RaysOwnDirection(g, vis, x, y, p);
    ListedInOrder(g, vis, x, y, p, ORDER, |ORDER|);
    assert ORDER[..|ORDER|] == ORDER;
    forall d | IsDirection(d) ensures d in ORDER {
      assert d == ORDER[5] || d == ORDER[2] || d == ORDER[6] || d == ORDER[0] || d == ORDER[4] || d == ORDER[1] || d == ORDER[7] || d == ORDER[3];
    }
  }

  /** An entry of the list is an unvisited chip of p on the board proper,
      other than the chip that looks. */
  lemma SeenSound(g: Grid, vis: Marks, x: int, y: int, p: int, s: Sight)
    requires WellFormed(g) && IsMarks(vis) && IsColor(p) && s in Seen(g, vis, x, y, p)
    ensures 1 <= s.x <= 8 && 1 <= s.y <= 8 && (s.x, s.y) != (x, y)
    ensures IsDirection(s.dir) && g[s.x][s.y] == p && !vis[s.x][s.y]
  {
    SeenExact(g, vis, x, y, p);
    RaySound(g, vis, x + DX(s.dir), y + DY(s.dir), s.dir, p);
  }

  /** Clearing visited flags keeps every entry of the list in it. */
  lemma SeenFewerMarks(g: Grid, v: Marks, w: Marks, x: int, y: int, p: int, s: Sight)
    requires IsGrid(g) && IsMarks(v) && IsMarks(w) && IsColor(p) && Fewer(v, w)
    requires s in Seen(g, w, x, y, p)
    ensures s in Seen(g, v, x, y, p)
  {
    SeenExact(g, w, x, y, p);
    SeenExact(g, v, x, y, p);
    RayFewerMarks(g, v, w, x + DX(s.dir), y + DY(s.dir), s.dir, p);
  }

  // ---------------------------------------------------------------------
  // The network search
  // ---------------------------------------------------------------------

  /** The filter loop of findNetwork: the entries whose chip is visited and
      those in the direction of the hop that arrived are dropped. */
  function Keep(l: seq<Sight>, vis: Marks, last: int): (r: seq<Sight>)
    requires IsMarks(vis) && forall e :: e in l ==> 0 <= e.x < SIZE && 0 <= e.y < SIZE
    ensures |r| <= |l|
    ensures forall e :: e in r ==> e in l && !vis[e.x][e.y] && e.dir != last
  {
    if l == [] then []
    else
      var e := l[|l| - 1];
      Keep(l[..|l| - 1], vis, last) + (if !vis[e.x][e.y] && e.dir != last then [e] else [])
  }

  /** The filter keeps exactly the entries to unvisited chips in another
      direction than the last hop's, and never lengthens the list. */
  lemma {:induction false} KeepExact(l: seq<Sight>, vis: Marks, last: int)
    requires IsMarks(vis) && forall e :: e in l ==> 0 <= e.x < SIZE && 0 <= e.y < SIZE
    ensures |Keep(l, vis, last)| <= |l|
    ensures forall e :: e in Keep(l, vis, last) <==> e in l && !vis[e.x][e.y] && e.dir != last
  {
    if l != [] {
      var init, e := l[..|l| - 1], l[|l| - 1];
      assert l == init + [e];
      KeepExact(init, vis, last);
    }
  }

  /** The index that measures progress towards the far goal: x for White,
      whose network runs from column 8 to column 1, y for Black, whose
      network runs from row 8 to row 1. */
  function Goal(p: int, x: int, y: int): int {
    if p == WHITE then x else y
  }

  /** The checks findNetwork makes before it looks further: Some(b) when it
      returns b at once, None when it goes on. */
  function BaseCase(p: int, x: int, y: int, counter: int): (r: Option<bool>)
    requires IsColor(p)
    ensures r == Some(true) <==> 6 <= counter <= 10 && Goal(p, x, y) == 1
    ensures r == None ==> counter <= 9 && Goal(p, x, y) != 1 && (counter > 1 ==> Goal(p, x, y) <= 7)
  {
    if counter > 10 then Some(false)
    else
      var c := Goal(p, x, y);
      if counter < 6 && c == 1 then Some(false)
      else if counter > 1 && c > 7 then Some(false)
      else if counter == 10 && c != 1 then Some(false)
      else if counter >= 6 && c == 1 then Some(true)
      else None
  }

  /** A path of hops from the chip at (x, y), reached with the given counter
      by a hop in direction last, on which findNetwork can succeed: every
      hop goes to a chip the current one sees (visits aside), never in the
      direction of the hop before, and the last chip passes the base case. */
  predicate Chain(g: Grid, p: int, x: int, y: int, counter: int, last: int, path: seq<Sight>)
    requires IsGrid(g) && IsColor(p)
    ensures Chain(g, p, x, y, counter, last, path) ==> 6 <= counter + |path| <= 10
    decreases |path|
  {
    if path == [] then BaseCase(p, x, y, counter) == Some(true)
    else
      BaseCase(p, x, y, counter) == None && path[0].dir != last &&
      path[0] in Seen(g, NoMarks(), x, y, p) &&
      Chain(g, p, path[0].x, path[0].y, counter + 1, path[0].dir, path[1..])
  }

  /** The cells of a path from (x, y). */
  function Cells(x: int, y: int, path: seq<Sight>): (c: seq<(int, int)>)
    ensures |c| == |path| + 1 && c[0] == (x, y)
    ensures forall k :: 0 <= k < |path| ==> c[k + 1] == (path[k].x, path[k].y)
  {
    [(x, y)] + seq(|path|, k requires 0 <= k < |path| => (path[k].x, path[k].y))
  }

  predicate Distinct<T(==)>(c: seq<T>) {
    forall a, b :: 0 <= a < b < |c| ==> c[a] != c[b]
  }

  /** A path that starts with a hop to a new chip and goes on along a
      path of distinct chips that avoids the start is a path of distinct
      chips. */
  lemma DistinctCons(x: int, y: int, e: Sight, rest: seq<Sight>)
    requires Distinct(Cells(e.x, e.y, rest)) && (e.x, e.y) != (x, y)
    requires forall k :: 0 <= k < |rest| ==> (rest[k].x, rest[k].y) != (x, y)
    ensures Distinct(Cells(x, y, [e] + rest))
  {
    var c, d := Cells(x, y, [e] + rest), Cells(e.x, e.y, rest);
    assert forall k :: 1 <= k < |c| ==> c[k] == d[k - 1];
  }

  /** The chip the direction of the first hop is compared with: a network
      search for White starts in column 8 as if it had arrived going south,
      one for Black in row 8 as if it had arrived going west. */
  function Entry(p: int): int {
    if p == WHITE then SOUTH else WEST
  }

  /** A network isNetwork accepts: it starts at a chip of p in p's near goal
      line (away from the corners), follows a chain of distinct chips and
      ends in the far goal line. */
  predicate Network(g: Grid, p: int, sx: int, sy: int, path: seq<Sight>)
    requires IsGrid(g) && IsColor(p)
    ensures Network(g, p, sx, sy, path) ==> 5 <= |path| <= 9
  {
    (if p == WHITE then sx == 8 && 2 <= sy <= 7 else sy == 8 && 2 <= sx <= 7) &&
    g[sx][sy] == p && Chain(g, p, sx, sy, 1, Entry(p), path) && Distinct(Cells(sx, sy, path))
  }

  /** A chain's length and course: it ends in the far goal line after six to
      ten chips counted from the counter, touches that line nowhere else,
      holds only chips of p and never hops twice in a row in one direction. */
  lemma {:induction false} ChainShape(g: Grid, p: int, x: int, y: int, counter: int, last: int, path: seq<Sight>)
    requires WellFormed(g) && IsColor(p) && Chain(g, p, x, y, counter, last, path)
    ensures 6 <= counter + |path| <= 10
    ensures var c := Cells(x, y, path); Goal(p, c[|path|].0, c[|path|].1) == 1
    ensures forall k :: 0 <= k < |path| ==> 1 <= path[k].x <= 8 && 1 <= path[k].y <= 8 && g[path[k].x][path[k].y] == p
    ensures forall k :: 0 <= k < |path| - 1 ==> Goal(p, path[k].x, path[k].y) != 1
    ensures forall k :: 0 <= k < |path| - 1 ==> path[k].dir != path[k + 1].dir
    ensures path != [] ==> path[0].dir != last
    decreases |path|
  {
    if path != [] {
      var h, rest := path[0], path[1..];
      SeenSound(g, NoMarks(), x, y, p, h);
      ChainShape(g, p, h.x, h.y, counter + 1, h.dir, rest);
      assert Cells(x, y, path)[|path|] == Cells(h.x, h.y, rest)[|rest|];
      forall k | 0 <= k < |path| ensures 1 <= path[k].x <= 8 && 1 <= path[k].y <= 8 && g[path[k].x][path[k].y] == p {
        if k > 0 { assert path[k] == rest[k - 1]; }
      }
      forall k | 0 <= k < |path| - 1 ensures Goal(p, path[k].x, path[k].y) != 1 {
        if k > 0 { assert path[k] == rest[k - 1]; }
      }
    }
  }

  /** A network has at least six chips, all of p, and ends in the far goal
      line. */
  lemma NetworkShape(g: Grid, p: int, sx: int, sy: int, path: seq<Sight>)
    requires WellFormed(g) && IsColor(p) && Network(g, p, sx, sy, path)
    ensures |path| >= 5 && |Cells(sx, sy, path)| >= 6
    ensures forall k :: 0 <= k < |path| ==> 1 <= path[k].x <= 8 && 1 <= path[k].y <= 8 && g[path[k].x][path[k].y] == p
    ensures Goal(p, path[|path| - 1].x, path[|path| - 1].y) == 1
  {
    ChainShape(g, p, sx, sy, 1, Entry(p), path);
  }

  /** The cell of p's far goal line at position t along it: column 0 of
      the board for WHITE, row 0 for BLACK (index 1 of the padded grid). */
  function FarCell(g: Grid, p: int, t: int): int
    requires IsGrid(g) && 0 <= t < SIZE
  {
    if p == WHITE then g[1][t] else g[t][1]
  }

  /** No chip of p in the far goal line away from the corners. */
  predicate FarGoalEmpty(g: Grid, p: int)
    requires IsGrid(g)
  {
    forall t :: 2 <= t <= 7 ==> FarCell(g, p, t) != p
  }

  /** A network ends on a chip in the far goal line, so isNetwork is right
      to give up when that line holds none of p's chips (the corners are
      never occupied). */
  lemma NetworkNeedsFarGoal(g: Grid, p: int, sx: int, sy: int, path: seq<Sight>)
    requires WellFormed(g) && IsColor(p) && Network(g, p, sx, sy, path)
    requires g[1][1] == EMPTY && g[1][8] == EMPTY && g[8][1] == EMPTY && g[8][8] == EMPTY
    ensures !FarGoalEmpty(g, p)
  {
    NetworkShape(g, p, sx, sy, path);
    var e := path[|path| - 1];
    if p == WHITE {
      assert FarCell(g, p, e.y) == p;
    } else {
      assert FarCell(g, p, e.x) == p;
    }
  }
}
