/** The search engine: the Manhattan heuristic, the table of the four unit
    moves, frontier insertion, neighbour expansion and the main loop. */
module Search {
  import opened Grid
  import opened Frontier

  /** The four unit moves, tried in this order: north, west, south, east. */
  const GridChangeMove: seq<(int, int)> := [(-1, 0), (0, -1), (1, 0), (0, 1)]

  function Abs(n: int): int
  {
    if n < 0 then -n else n
  }

  /** The heuristic: the number of unit moves between two cells when nothing
      is in the way. */
  function ManhattanDistance(x0: int, y0: int, x1: int, y1: int): (d: int)
    ensures d >= 0
    ensures d == 0 <==> x0 == x1 && y0 == y1
  {
    Abs(x0 - x1) + Abs(y0 - y1)
  }

  lemma ManhattanIsSymmetric(x0: int, y0: int, x1: int, y1: int)
    ensures ManhattanDistance(x0, y0, x1, y1) == ManhattanDistance(x1, y1, x0, y0)
  {
  }

  lemma ManhattanTriangle(a: Point, b: Point, c: Point)
    ensures ManhattanDistance(a.0, a.1, c.0, c.1)
            <= ManhattanDistance(a.0, a.1, b.0, b.1) + ManhattanDistance(b.0, b.1, c.0, c.1)
  {
  }

  /** The cell reached from p by move k of the table. */
  function Step(p: Point, k: int): Point
    requires 0 <= k < 4
  {
    (p.0 + GridChangeMove[k].0, p.1 + GridChangeMove[k].1)
  }

  /** p and q share a side. */
  predicate Adjacent(p: Point, q: Point)
  {
    ManhattanDistance(p.0, p.1, q.0, q.1) == 1
  }

  /** The move table reaches exactly the four cells that share a side with p,
      each by one move only. */
  lemma StepsAreTheNeighbours(p: Point, q: Point)
    ensures Adjacent(p, q) <==> exists k :: 0 <= k < 4 && q == Step(p, k)
  {
    if Adjacent(p, q) {
      if q.0 == p.0 - 1 {
        assert q == Step(p, 0);
      } else if q.1 == p.1 - 1 {
        assert q == Step(p, 1);
      } else if q.0 == p.0 + 1 {
        assert q == Step(p, 2);
      } else {
        assert q == Step(p, 3);
      }
    }
  }

  lemma StepsAreDistinct(p: Point, k: int, m: int)
    requires 0 <= k < 4 && 0 <= m < 4 && k != m
    ensures Step(p, k) != Step(p, m)
  {
  }

  /** One move changes the heuristic by exactly one, so it never
      overestimates the moves left on an open grid. */
  lemma HeuristicChangesByOne(p: Point, k: int, goal: Point)
    requires 0 <= k < 4
    ensures var q := Step(p, k);
      Abs(ManhattanDistance(p.0, p.1, goal.0, goal.1) - ManhattanDistance(q.0, q.1, goal.0, goal.1)) == 1
  {
  }

  /** The coordinates of the entries of a frontier, in order. */
  function Positions(entries: seq<Entry>): (ps: seq<Point>)
    ensures |ps| == |entries|
    ensures forall i :: 0 <= i < |ps| ==> ps[i] == (entries[i].x, entries[i].y)
  {
    seq(|entries|, i requires 0 <= i < |entries| => (entries[i].x, entries[i].y))
  }

  /** The entry pushed for move k from curr: the neighbour, the parent's g
      unchanged, and the neighbour's distance to the goal. */
  function Successor(curr: Entry, k: int, goal: Point): Entry
    requires 0 <= k < 4
  {
    var q := Step((curr.x, curr.y), k);
    Entry(q.0, q.1, curr.g, ManhattanDistance(q.0, q.1, goal.0, goal.1))
  }

  /** The entries that expanding curr pushes when the open cells are `open`,
      for the first n moves of the table. */
  function Expansion(curr: Entry, goal: Point, open: set<Point>, n: nat): seq<Entry>
    requires n <= 4
  {
    if n == 0 then []
    else
      Expansion(curr, goal, open, n - 1) +
        (if Step((curr.x, curr.y), n - 1) in open then [Successor(curr, n - 1, goal)] else [])
  }

  /** Every pushed entry comes from one of the first n moves and lands on an
      open cell; so there are at most n of them. */
  lemma {:induction false} ExpansionIsSound(curr: Entry, goal: Point, open: set<Point>, n: nat)
    requires n <= 4
    ensures |Expansion(curr, goal, open, n)| <= n
    ensures forall e :: e in Expansion(curr, goal, open, n) ==>
              exists k :: 0 <= k < n && e == Successor(curr, k, goal) && Step((curr.x, curr.y), k) in open
  {
    if n > 0 {
      ExpansionIsSound(curr, goal, open, n - 1);
    }
  }

  /** Every one of the first n moves that lands on an open cell is pushed. */
  lemma {:induction false} ExpansionIsComplete(curr: Entry, goal: Point, open: set<Point>, n: nat)
    requires n <= 4
    ensures forall k :: 0 <= k < n && Step((curr.x, curr.y), k) in open ==>
              Successor(curr, k, goal) in Expansion(curr, goal, open, n)
  {
    if n > 0 {
      ExpansionIsComplete(curr, goal, open, n - 1);
    }
  }

  /** No cell is pushed twice by one expansion, and none of the moves still to
      come has been pushed yet. */
  lemma {:induction false} ExpansionIsDistinct(curr: Entry, goal: Point, open: set<Point>, n: nat)
    requires n <= 4
    ensures Distinct(Positions(Expansion(curr, goal, open, n)))
    ensures forall m :: n <= m < 4 ==> Step((curr.x, curr.y), m) !in Positions(Expansion(curr, goal, open, n))
  {
    if n > 0 {
      ExpansionIsDistinct(curr, goal, open, n - 1);
      ExpansionIsSound(curr, goal, open, n - 1);
      var p := (curr.x, curr.y);
      var before := Expansion(curr, goal, open, n - 1);
      forall m | n <= m < 4 ensures Step(p, m) !in Positions(Expansion(curr, goal, open, n)) {
        assert Step(p, m) != Step(p, n - 1);
      }
      if Step(p, n - 1) in open {
        assert Positions(Expansion(curr, goal, open, n)) == Positions(before) + [Step(p, n - 1)];
      } else {
        assert Expansion(curr, goal, open, n) == before;
      }
    }
  }

  /** w is a walk of side-sharing cells whose every cell after the first is
      open. */
  ghost predicate IsWalk(open: set<Point>, w: seq<Point>)
  {
    |w| > 0 && forall k :: 0 < k < |w| ==> w[k] in open && Adjacent(w[k - 1], w[k])
  }

  /** to can be reached from `from` by unit moves through open cells. */
  ghost predicate Reachable(open: set<Point>, from: Point, to: Point)
  {
    exists w :: IsWalk(open, w) && w[0] == from && w[|w| - 1] == to
  }

  lemma ReachableFromItself(open: set<Point>, p: Point)
    ensures Reachable(open, p, p)
  {
    assert IsWalk(open, [p]);
  }

  /** A walk to p extends by one move onto an open neighbour q. */
  lemma ReachableExtend(open: set<Point>, from: Point, p: Point, q: Point)
    requires Reachable(open, from, p)
    requires Adjacent(p, q) && q in open
    ensures Reachable(open, from, q)
  {
    var w :| IsWalk(open, w) && w[0] == from && w[|w| - 1] == p;
    var w' := w + [q];
    assert IsWalk(open, w');
  }

  /** A set of cells that holds `from` and every open neighbour of each of its
      cells holds every cell reachable from `from`: a target outside it is
      unreachable. */
  lemma ClosedRegionBlocks(open: set<Point>, region: set<Point>, from: Point, to: Point)
    requires from in region && to !in region
    requires forall p, k :: p in region && 0 <= k < 4 && Step(p, k) in open ==> Step(p, k) in region
    ensures !Reachable(open, from, to)
  {
    if Reachable(open, from, to) {
      var w :| IsWalk(open, w) && w[0] == from && w[|w| - 1] == to;
      WalkStaysInRegion(open, region, w, |w| - 1);
    }
  }

  lemma {:induction false} WalkStaysInRegion(open: set<Point>, region: set<Point>, w: seq<Point>, n: nat)
    requires IsWalk(open, w) && w[0] in region && n < |w|
    requires forall p, k :: p in region && 0 <= k < 4 && Step(p, k) in open ==> Step(p, k) in region
    ensures w[n] in region
  {
    if n > 0 {
      WalkStaysInRegion(open, region, w, n - 1);
      StepsAreTheNeighbours(w[n - 1], w[n]);
    }
  }

  /** Pushes {x, y, g, h} onto the frontier and closes the cell, the only
      cell that changes. */
  method AddPoint(x: int, y: int, g: int, h: int, frontier: seq<Entry>, grid: seq<seq<State>>)
    returns (frontier': seq<Entry>, grid': seq<seq<State>>)
    requires InBounds(grid, x, y)
    ensures frontier' == frontier + [Entry(x, y, g, h)]
    ensures SameShape(grid', grid) && grid'[x][y] == Closed
    ensures forall i, j :: InBounds(grid, i, j) && (i, j) != (x, y) ==> grid'[i][j] == grid[i][j]
  {
    frontier' := frontier + [Entry(x, y, g, h)];
    grid' := grid[x := grid[x][y := Closed]];
  }

  /** Closing one cell, as AddPoint does, takes exactly that cell out of the
      open cells. */
  lemma ClosingRemovesOneOpenCell(grid: seq<seq<State>>, grid': seq<seq<State>>, x: int, y: int)
    requires InBounds(grid, x, y)
    requires SameShape(grid', grid) && grid'[x][y] == Closed
    requires forall i, j :: InBounds(grid, i, j) && (i, j) != (x, y) ==> grid'[i][j] == grid[i][j]
    ensures EmptyCells(grid') == EmptyCells(grid) - {(x, y)}
  {
  }

  /** grid' is grid with exactly the cells ps closed. */
  ghost predicate ClosedExactly(grid': seq<seq<State>>, grid: seq<seq<State>>, ps: seq<Point>)
  {
    && SameShape(grid', grid)
    && forall a, b :: InBounds(grid, a, b) ==> grid'[a][b] == if (a, b) in ps then Closed else grid[a][b]
  }

  /** Closing one more cell extends the closed cells by it. */
  lemma ClosedOneMore(grid: seq<seq<State>>, before: seq<seq<State>>, after: seq<seq<State>>,
                      ps: seq<Point>, q: Point)
    requires ClosedExactly(before, grid, ps) && InBounds(grid, q.0, q.1)
    requires SameShape(after, before) && after[q.0][q.1] == Closed
    requires forall i, j :: InBounds(before, i, j) && (i, j) != q ==> after[i][j] == before[i][j]
    ensures ClosedExactly(after, grid, ps + [q])
  {
  }

  /** Closing the cells ps of a grid whose open cells are `open` leaves the
      open cells that are not in ps. */
  lemma ClosedExactlyOpenCells(grid: seq<seq<State>>, grid': seq<seq<State>>, open: set<Point>, ps: seq<Point>)
    requires OpenCellsAre(grid, open) && ClosedExactly(grid', grid, ps)
    ensures OpenCellsAre(grid', open - set p | p in ps)
  {
  }

  /** Move k of an expansion in progress: its target is a valid cell exactly
      when it is open, and the expansion grows by its entry exactly then. */
  lemma ExpandStep(curr: Entry, goal: Point, open: set<Point>, grid: seq<seq<State>>, grid': seq<seq<State>>,
                   frontier: seq<Entry>, k: nat)
    requires k < 4 && |grid| > 0 && IsRectangular(grid) && OpenCellsAre(grid, open)
    requires ClosedExactly(grid', grid, Positions(Expansion(curr, goal, open, k)))
    ensures |grid'| > 0 && IsRectangular(grid')
    ensures var q := Step((curr.x, curr.y), k);
            && (IsValidCell(q.0, q.1, grid') <==> q in open)
            && (q in open ==>
                  && InBounds(grid, q.0, q.1)
                  && frontier + Expansion(curr, goal, open, k + 1)
                     == (frontier + Expansion(curr, goal, open, k)) + [Successor(curr, k, goal)]
                  && Positions(Expansion(curr, goal, open, k + 1)) == Positions(Expansion(curr, goal, open, k)) + [q])
            && (q !in open ==> Expansion(curr, goal, open, k + 1) == Expansion(curr, goal, open, k))
  {
    ExpansionIsDistinct(curr, goal, open, k);
    var q := Step((curr.x, curr.y), k);
    if q in open {
      assert Positions(Expansion(curr, goal, open, k + 1)) == Positions(Expansion(curr, goal, open, k)) + [q];
      assert frontier + Expansion(curr, goal, open, k + 1)
             == (frontier + Expansion(curr, goal, open, k)) + [Successor(curr, k, goal)];
    }
  }

  /** Tries the four moves from curr in table order and pushes every
      neighbour that is still open, closing it at once. The ghost open names
      the open cells of grid. */
  method ExpandNeighbours(curr: Entry, frontier: seq<Entry>, grid: seq<seq<State>>, goal: Point,
                          ghost open: set<Point>)
    returns (frontier': seq<Entry>, grid': seq<seq<State>>)
    requires |grid| > 0 && IsRectangular(grid)
    requires OpenCellsAre(grid, open)
    ensures frontier' == frontier + Expansion(curr, goal, open, 4)
    ensures ClosedExactly(grid', grid, Positions(Expansion(curr, goal, open, 4)))
    ensures OpenCellsAre(grid', open - set p | p in Positions(Expansion(curr, goal, open, 4)))
  {
    frontier' := frontier;
    grid' := grid;
    var x := curr.x;
    var y := curr.y;
    var g := curr.g;
    for i := 0 to 4
      invariant frontier' == frontier + Expansion(curr, goal, open, i)
      invariant ClosedExactly(grid', grid, Positions(Expansion(curr, goal, open, i)))
    {
      var x1 := x + GridChangeMove[i].0;
      var y1 := y + GridChangeMove[i].1;
      ExpandStep(curr, goal, open, grid, grid', frontier, i);
      if IsValidCell(x1, y1, grid') {
        var h := ManhattanDistance(x1, y1, goal.0, goal.1);
        ghost var before := grid';
        frontier', grid' := AddPoint(x1, y1, g, h, frontier', grid');
        ClosedOneMore(grid, before, grid', Positions(Expansion(curr, goal, open, i)), (x1, y1));
      }
    }
    ClosedExactlyOpenCells(grid, grid', open, Positions(Expansion(curr, goal, open, 4)));
  }

  /** The record a cell has on the frontier during a search: g is never
      incremented, so it stays 0, and h is the cell's distance to the goal. */
  function EntryAt(p: Point, goal: Point): Entry
  {
    Entry(p.0, p.1, 0, ManhattanDistance(p.0, p.1, goal.0, goal.1))
  }

  /** Pushes: the start cell is pushed first, whatever its state, no cell is
      pushed twice and every later cell was open in the input. */
  ghost predicate PushesOk(open: set<Point>, start: Point, enqueued: seq<Point>)
  {
    && |enqueued| > 0 && enqueued[0] == start && Distinct(enqueued)
    && (forall k :: 0 < k < |enqueued| ==> enqueued[k] in open)
  }

  /** No cell is popped twice, and only pushed cells are popped. */
  ghost predicate PoppedOnce(enqueued: seq<Point>, popped: seq<Point>)
  {
    Distinct(popped) && forall p :: p in popped ==> p in enqueued
  }

  /** Pops during the search: popped once each, and the goal not yet. */
  ghost predicate PopsOk(enqueued: seq<Point>, popped: seq<Point>, goal: Point)
  {
    PoppedOnce(enqueued, popped) && goal !in popped
  }

  /** A cell is still open exactly when it was open and has never been pushed. */
  ghost predicate StillOpen(open: set<Point>, enqueued: seq<Point>, openNow: set<Point>)
  {
    forall p :: p in openNow <==> p in open && p !in enqueued
  }

  /** The frontier holds exactly one record, with g == 0, for each pushed but
      unpopped cell. */
  ghost predicate FrontierMatches(frontier: seq<Entry>, enqueued: seq<Point>, popped: seq<Point>, goal: Point)
  {
    && (forall e :: e in frontier ==>
          e == EntryAt((e.x, e.y), goal) && (e.x, e.y) in enqueued && (e.x, e.y) !in popped)
    && Distinct(frontier)
    && (forall p :: p in enqueued && p !in popped ==> EntryAt(p, goal) in frontier)
  }

  /** Every open neighbour of a popped cell other than the goal, which is
      never expanded, has been pushed. */
  ghost predicate NeighboursPushed(open: set<Point>, goal: Point, enqueued: seq<Point>, popped: seq<Point>)
  {
    forall p, k :: p in popped && p != goal && 0 <= k < 4 && Step(p, k) in open ==> Step(p, k) in enqueued
  }

  /** Every pushed cell is reachable from the start. */
  ghost predicate AllReachable(open: set<Point>, start: Point, enqueued: seq<Point>)
  {
    forall k :: 0 <= k < |enqueued| ==> Reachable(open, start, enqueued[k])
  }

  /** What holds between iterations of the search, stated on values:
      `open` is the set of open cells of the input, `openNow` the set of cells
      still open in the working grid, `enqueued` and `popped` the cells in the
      order they were pushed and popped. The two counts say that each push
      consumes an open cell and each pop a frontier record. */
  ghost predicate SearchInvariant(open: set<Point>, start: Point, goal: Point, frontier: seq<Entry>,
                                  enqueued: seq<Point>, popped: seq<Point>, openNow: set<Point>)
  {
    && PushesOk(open, start, enqueued)
    && PopsOk(enqueued, popped, goal)
    && StillOpen(open, enqueued, openNow)
    && FrontierMatches(frontier, enqueued, popped, goal)
    && NeighboursPushed(open, goal, enqueued, popped)
    && AllReachable(open, start, enqueued)
    && |frontier| + |popped| == |enqueued|
    && |openNow| + |enqueued| == |open| + (if start in open then 0 else 1)
  }

  /** Pushing the start cell establishes the invariant. */
  lemma InitialInvariant(open: set<Point>, start: Point, goal: Point, openNow: set<Point>)
    requires forall p :: p in openNow <==> p in open && p != start
    ensures SearchInvariant(open, start, goal, [EntryAt(start, goal)], [start], [], openNow)
  {
    ReachableFromItself(open, start);
    if start in open {
      assert openNow == open - {start};
    } else {
      assert openNow == open;
    }
  }

  /** Sorting the frontier keeps the invariant: it is about which records
      the frontier holds, not their order. */
  lemma SortKeepsInvariant(open: set<Point>, start: Point, goal: Point, frontier: seq<Entry>, sorted: seq<Entry>,
                           enqueued: seq<Point>, popped: seq<Point>, openNow: set<Point>)
    requires SearchInvariant(open, start, goal, frontier, enqueued, popped, openNow)
    requires multiset(sorted) == multiset(frontier) && Distinct(sorted)
    ensures SearchInvariant(open, start, goal, sorted, enqueued, popped, openNow)
  {
    assert forall e :: e in sorted <==> e in frontier by {
      forall e ensures e in sorted <==> e in frontier {
        assert e in sorted <==> e in multiset(sorted);
        assert e in frontier <==> e in multiset(frontier);
      }
    }
    assert |sorted| == |frontier| by {
      assert |multiset(sorted)| == |multiset(frontier)|;
    }
  }

  /** What one expansion of a g == 0 record pushes: g == 0 records of open
      neighbours, each cell once, and every open neighbour. */
  lemma ExpansionFacts(curr: Entry, goal: Point, openNow: set<Point>)
    requires curr.g == 0
    ensures var added := Expansion(curr, goal, openNow, 4);
      var ps := Positions(added);
      && (forall i :: 0 <= i < |added| ==>
            added[i] == EntryAt(ps[i], goal) && ps[i] in openNow && Adjacent((curr.x, curr.y), ps[i]))
      && Distinct(ps)
      && (forall k :: 0 <= k < 4 && Step((curr.x, curr.y), k) in openNow ==> Step((curr.x, curr.y), k) in ps)
  {
    var c := (curr.x, curr.y);
    var added := Expansion(curr, goal, openNow, 4);
    var ps := Positions(added);
    ExpansionIsSound(curr, goal, openNow, 4);
    ExpansionIsDistinct(curr, goal, openNow, 4);
    forall i | 0 <= i < |added|
      ensures added[i] == EntryAt(ps[i], goal) && ps[i] in openNow && Adjacent(c, ps[i])
    {
      assert added[i] in added;
      var k :| 0 <= k < 4 && added[i] == Successor(curr, k, goal) && Step(c, k) in openNow;
      assert ps[i] == Step(c, k);
    }
    ExpansionCoversOpen(curr, goal, openNow);
  }

  /** Every neighbour of curr still open is among the cells its expansion
      pushes. */
  lemma ExpansionCoversOpen(curr: Entry, goal: Point, openNow: set<Point>)
    ensures var c := (curr.x, curr.y);
      forall k :: 0 <= k < 4 && Step(c, k) in openNow ==> Step(c, k) in Positions(Expansion(curr, goal, openNow, 4))
  {
    var c := (curr.x, curr.y);
    var added := Expansion(curr, goal, openNow, 4);
    var ps := Positions(added);
    ExpansionIsComplete(curr, goal, openNow, 4);
    forall k | 0 <= k < 4 && Step(c, k) in openNow ensures Step(c, k) in ps {
      var i :| 0 <= i < |added| && added[i] == Successor(curr, k, goal);
      assert ps[i] == Step(c, k);
    }
  }

  lemma PushesKept(open: set<Point>, start: Point, enqueued: seq<Point>, openNow: set<Point>, ps: seq<Point>)
    requires PushesOk(open, start, enqueued) && StillOpen(open, enqueued, openNow)
    requires Distinct(ps) && forall p :: p in ps ==> p in openNow
    ensures PushesOk(open, start, enqueued + ps)
  {
    var enqueued' := enqueued + ps;
    forall i, j | 0 <= i < j < |enqueued'| ensures enqueued'[i] != enqueued'[j] {
      if j >= |enqueued| {
        assert enqueued'[j] == ps[j - |enqueued|];
        assert ps[j - |enqueued|] in ps;
        if i >= |enqueued| {
          assert enqueued'[i] == ps[i - |enqueued|];
        } else {
          assert enqueued'[i] == enqueued[i];
          assert enqueued[i] in enqueued;
        }
      }
    }
    forall k | 0 < k < |enqueued'| ensures enqueued'[k] in open {
      if k >= |enqueued| {
        assert enqueued'[k] == ps[k - |enqueued|];
        assert ps[k - |enqueued|] in ps;
      }
    }
  }

  lemma PopsKept(enqueued: seq<Point>, popped: seq<Point>, goal: Point, c: Point, ps: seq<Point>)
    requires PopsOk(enqueued, popped, goal)
    requires c in enqueued && c !in popped && c != goal
    ensures PopsOk(enqueued + ps, popped + [c], goal)
  {
  }

  lemma StillOpenKept(open: set<Point>, enqueued: seq<Point>, openNow: set<Point>, ps: seq<Point>, openAfter: set<Point>)
    requires StillOpen(open, enqueued, openNow)
    requires forall p :: p in openAfter <==> p in openNow && p !in ps
    ensures StillOpen(open, enqueued + ps, openAfter)
  {
  }

  /** The records left after popping the back one are all different from it. */
  lemma RestExcludesBack(frontier: seq<Entry>)
    requires Distinct(frontier) && |frontier| > 0
    ensures forall e :: e in frontier[..|frontier| - 1] ==> e in frontier && e != frontier[|frontier| - 1]
  {
    var rest := frontier[..|frontier| - 1];
    forall e | e in rest ensures e in frontier && e != frontier[|frontier| - 1] {
      var i :| 0 <= i < |rest| && rest[i] == e;
      assert frontier[i] == e;
    }
  }

  lemma FrontierKept(frontier: seq<Entry>, enqueued: seq<Point>, popped: seq<Point>, goal: Point,
                     open: set<Point>, openNow: set<Point>, added: seq<Entry>)
    requires FrontierMatches(frontier, enqueued, popped, goal)
    requires StillOpen(open, enqueued, openNow)
    requires forall p :: p in popped ==> p in enqueued
    requires |frontier| > 0
    requires Distinct(Positions(added))
    requires forall i :: 0 <= i < |added| ==>
               added[i] == EntryAt(Positions(added)[i], goal) && Positions(added)[i] in openNow
    ensures var curr := frontier[|frontier| - 1];
      FrontierMatches(frontier[..|frontier| - 1] + added, enqueued + Positions(added),
                      popped + [(curr.x, curr.y)], goal)
  {
    var curr := frontier[|frontier| - 1];
    var c := (curr.x, curr.y);
    var rest := frontier[..|frontier| - 1];
    var ps := Positions(added);
    assert curr in frontier;
    RestExcludesBack(frontier);
    assert c in enqueued;
    AddedAreFresh(open, enqueued, popped, openNow, c, added);
    FrontierSoundKept(rest, curr, enqueued, popped, goal, added);
    FrontierDistinctKept(rest, curr, enqueued, goal, added);
    FrontierCompleteKept(rest, curr, enqueued, popped, goal, added);
  }

  /** Cells still open have never been pushed, so they are neither pushed,
      popped, nor the cell being expanded. */
  lemma AddedAreFresh(open: set<Point>, enqueued: seq<Point>, popped: seq<Point>, openNow: set<Point>, c: Point,
                      added: seq<Entry>)
    requires StillOpen(open, enqueued, openNow)
    requires forall p :: p in popped ==> p in enqueued
    requires c in enqueued
    requires forall i :: 0 <= i < |added| ==> Positions(added)[i] in openNow
    ensures forall i :: 0 <= i < |added| ==>
              Positions(added)[i] !in enqueued && Positions(added)[i] !in popped && Positions(added)[i] != c
  {
  }

  lemma FrontierSoundKept(rest: seq<Entry>, curr: Entry, enqueued: seq<Point>, popped: seq<Point>,
                          goal: Point, added: seq<Entry>)
    requires forall e :: e in rest ==>
               e == EntryAt((e.x, e.y), goal) && (e.x, e.y) in enqueued && (e.x, e.y) !in popped
    requires forall e :: e in rest ==> e != curr
    requires curr == EntryAt((curr.x, curr.y), goal)
    requires forall i :: 0 <= i < |added| ==>
               added[i] == EntryAt(Positions(added)[i], goal) && Positions(added)[i] !in popped
               && Positions(added)[i] != (curr.x, curr.y)
    ensures forall e :: e in rest + added ==>
              e == EntryAt((e.x, e.y), goal) && (e.x, e.y) in enqueued + Positions(added)
              && (e.x, e.y) !in popped + [(curr.x, curr.y)]
  {
    var ps := Positions(added);
    forall e | e in rest + added
      ensures e == EntryAt((e.x, e.y), goal) && (e.x, e.y) in enqueued + ps && (e.x, e.y) !in popped + [(curr.x, curr.y)]
    {
      if e in added {
        var i :| 0 <= i < |added| && added[i] == e;
        assert ps[i] in ps;
      }
    }
  }

  lemma FrontierDistinctKept(rest: seq<Entry>, curr: Entry, enqueued: seq<Point>, goal: Point, added: seq<Entry>)
    requires Distinct(rest)
    requires forall e :: e in rest ==> (e.x, e.y) in enqueued
    requires Distinct(Positions(added))
    requires forall i :: 0 <= i < |added| ==> Positions(added)[i] !in enqueued
    ensures Distinct(rest + added)
  {
    var ps := Positions(added);
    var frontier' := rest + added;
    forall i, j | 0 <= i < j < |frontier'| ensures frontier'[i] != frontier'[j] {
      if j >= |rest| {
        assert frontier'[j] == added[j - |rest|];
        if i >= |rest| {
          assert frontier'[i] == added[i - |rest|];
          assert ps[i - |rest|] != ps[j - |rest|];
        } else {
          assert frontier'[i] == rest[i];
          assert rest[i] in rest;
        }
      }
    }
  }

  lemma FrontierCompleteKept(rest: seq<Entry>, curr: Entry, enqueued: seq<Point>, popped: seq<Point>,
                             goal: Point, added: seq<Entry>)
    requires forall p :: p in enqueued && p !in popped ==>
               EntryAt(p, goal) in rest || EntryAt(p, goal) == curr
    requires curr == EntryAt((curr.x, curr.y), goal)
    requires forall i :: 0 <= i < |added| ==> added[i] == EntryAt(Positions(added)[i], goal)
    ensures forall p :: p in enqueued + Positions(added) && p !in popped + [(curr.x, curr.y)] ==>
              EntryAt(p, goal) in rest + added
  {
    var ps := Positions(added);
    forall p | p in enqueued + ps && p !in popped + [(curr.x, curr.y)] ensures EntryAt(p, goal) in rest + added {
      if p in enqueued {
        assert EntryAt(p, goal) != curr;
      } else {
        var i :| 0 <= i < |ps| && ps[i] == p;
        assert added[i] in added;
      }
    }
  }

  lemma NeighboursKept(open: set<Point>, goal: Point, enqueued: seq<Point>, popped: seq<Point>, openNow: set<Point>,
                       c: Point, ps: seq<Point>)
    requires NeighboursPushed(open, goal, enqueued, popped) && StillOpen(open, enqueued, openNow)
    requires forall k :: 0 <= k < 4 && Step(c, k) in openNow ==> Step(c, k) in ps
    ensures NeighboursPushed(open, goal, enqueued + ps, popped + [c])
  {
  }

  lemma ReachableKept(open: set<Point>, start: Point, enqueued: seq<Point>, c: Point, ps: seq<Point>)
    requires AllReachable(open, start, enqueued) && c in enqueued
    requires forall p :: p in ps ==> p in open && Adjacent(c, p)
    ensures AllReachable(open, start, enqueued + ps)
  {
    var enqueued' := enqueued + ps;
    var m :| 0 <= m < |enqueued| && enqueued[m] == c;
    forall k | 0 <= k < |enqueued'| ensures Reachable(open, start, enqueued'[k]) {
      if k >= |enqueued| {
        assert enqueued'[k] == ps[k - |enqueued|];
        assert ps[k - |enqueued|] in ps;
        ReachableExtend(open, start, c, enqueued'[k]);
      } else {
        assert enqueued'[k] == enqueued[k];
      }
    }
  }

  /** Popping the back record of a frontier that is not the goal and pushing
      its open neighbours keeps the invariant. */
  lemma PopAndExpandKeepsInvariant(open: set<Point>, start: Point, goal: Point, frontier: seq<Entry>,
                                   enqueued: seq<Point>, popped: seq<Point>, openNow: set<Point>,
                                   added: seq<Entry>, openAfter: set<Point>)
    requires SearchInvariant(open, start, goal, frontier, enqueued, popped, openNow)
    requires |frontier| > 0
    requires var curr := frontier[|frontier| - 1];
      (curr.x, curr.y) != goal && added == Expansion(curr, goal, openNow, 4)
    requires forall p :: p in openAfter <==> p in openNow && p !in Positions(added)
    ensures forall p :: p in Positions(added) ==> p in openNow
    ensures var curr := frontier[|frontier| - 1];
      forall p :: p in Positions(added) ==> p !in popped + [(curr.x, curr.y)]
    ensures var curr := frontier[|frontier| - 1];
      SearchInvariant(open, start, goal, frontier[..|frontier| - 1] + added,
                      enqueued + Positions(added), popped + [(curr.x, curr.y)], openAfter)
  {
    var curr := frontier[|frontier| - 1];
    var c := (curr.x, curr.y);
    var ps := Positions(added);
    assert curr in frontier;
    assert curr == EntryAt(c, goal) && c in enqueued && c !in popped;
    ExpansionFacts(curr, goal, openNow);
    assert forall p :: p in ps ==> p in openNow && Adjacent(c, p) by {
      forall p | p in ps ensures p in openNow && Adjacent(c, p) {
        var i :| 0 <= i < |ps| && ps[i] == p;
      }
    }
    assert openAfter == openNow - (set p | p in ps);
    RemoveDistinct(openNow, ps);
    PushesKept(open, start, enqueued, openNow, ps);
    PopsKept(enqueued, popped, goal, c, ps);
    StillOpenKept(open, enqueued, openNow, ps, openAfter);
    FrontierKept(frontier, enqueued, popped, goal, open, openNow, added);
    NeighboursKept(open, goal, enqueued, popped, openNow, c, ps);
    ReachableKept(open, start, enqueued, c, ps);
  }

  /** When the frontier runs dry without the goal having been popped, the
      popped cells form a region closed under moves onto open cells that
      holds the start but not the goal, so no walk reaches the goal; each
      popped cell was pushed once, which bounds how many there are. */
  lemma ExhaustedFrontierMeansUnreachable(open: set<Point>, start: Point, goal: Point,
                                          enqueued: seq<Point>, popped: seq<Point>, openNow: set<Point>)
    requires SearchInvariant(open, start, goal, [], enqueued, popped, openNow)
    ensures !Reachable(open, start, goal)
    ensures |popped| <= |open| + 1
  {
    var region := set p | p in popped;
    assert enqueued[0] == start;
    ClosedRegionBlocks(open, region, start, goal);
  }

  /** Taking the distinct cells ps out of a set that holds them all removes
      exactly |ps| elements. */
  lemma {:induction false} RemoveDistinct(s: set<Point>, ps: seq<Point>)
    requires Distinct(ps) && forall p :: p in ps ==> p in s
    ensures |s - (set p | p in ps)| + |ps| == |s|
  {
    if ps != [] {
      var rest := ps[1..];
      assert forall p :: p in rest ==> p in s - {ps[0]} by {
        forall p | p in rest ensures p in s - {ps[0]} {
          var k :| 0 <= k < |rest| && rest[k] == p;
          assert ps[k + 1] == p;
        }
      }
      assert Distinct(rest) by {
        forall i, j | 0 <= i < j < |rest| ensures rest[i] != rest[j] {
          assert rest[i] == ps[i + 1] && rest[j] == ps[j + 1];
        }
      }
      RemoveDistinct(s - {ps[0]}, rest);
      assert ps == [ps[0]] + rest;
      assert s - (set p | p in ps) == (s - {ps[0]}) - (set p | p in rest);
    }
  }

  /** The working grid is the input with every popped cell marked Path and
      every pushed but unpopped cell marked Closed. */
  ghost predicate GridView(grid: seq<seq<State>>, input: seq<seq<State>>, enqueued: seq<Point>, popped: seq<Point>)
  {
    && SameShape(grid, input)
    && forall i, j :: InBounds(input, i, j) ==>
         grid[i][j] == if (i, j) in popped then Path else if (i, j) in enqueued then Closed else input[i][j]
  }

  /** Every pushed cell lies inside the input: the start by assumption,
      every other pushed cell because it was open. */
  lemma PushedInBounds(input: seq<seq<State>>, open: set<Point>, start: Point, enqueued: seq<Point>, c: Point)
    requires PushesOk(open, start, enqueued) && OpenCellsAre(input, open) && InBounds(input, start.0, start.1)
    requires c in enqueued
    ensures InBounds(input, c.0, c.1)
  {
    var k :| 0 <= k < |enqueued| && enqueued[k] == c;
    if k > 0 {
      assert c in open;
    }
  }

  /** Marking a pushed cell Path moves it to the popped cells of the view. */
  lemma ViewAfterPop(grid: seq<seq<State>>, input: seq<seq<State>>, enqueued: seq<Point>, popped: seq<Point>,
                     c: Point)
    requires GridView(grid, input, enqueued, popped)
    requires InBounds(grid, c.0, c.1) && c in enqueued
    ensures GridView(grid[c.0 := grid[c.0][c.1 := Path]], input, enqueued, popped + [c])
  {
  }

  /** Closing the cells ps, none of them popped, adds them to the pushed
      cells of the view. */
  lemma ViewAfterPush(grid: seq<seq<State>>, grid': seq<seq<State>>, input: seq<seq<State>>,
                      enqueued: seq<Point>, popped: seq<Point>, ps: seq<Point>)
    requires GridView(grid, input, enqueued, popped)
    requires forall p :: p in ps ==> p !in popped
    requires ClosedExactly(grid', grid, ps)
    ensures GridView(grid', input, enqueued + ps, popped)
  {
  }

  /** In a grid that shows the explored view of the input, the open cells
      are the input's open cells that have never been pushed. */
  lemma OpenCellsMatchView(grid: seq<seq<State>>, input: seq<seq<State>>, open: set<Point>,
                           enqueued: seq<Point>, popped: seq<Point>, openNow: set<Point>)
    requires GridView(grid, input, enqueued, popped)
    requires OpenCellsAre(input, open) && StillOpen(open, enqueued, openNow)
    requires forall p :: p in popped ==> p in enqueued
    ensures OpenCellsAre(grid, openNow)
  {
    forall p | p in openNow ensures InBounds(grid, p.0, p.1) {
      assert p in open;
    }
    forall i, j | InBounds(grid, i, j) ensures grid[i][j] == Empty <==> (i, j) in openNow {
      assert input[i][j] == Empty <==> (i, j) in open;
    }
  }

  /** Marking the start cell Start and then the goal Finish, when the goal
      has just been popped: Finish wins when the two coincide, every other
      cell keeps the explored view with the goal counted as popped, and only
      the start cell can lose its obstacle. */
  lemma EndsMarked(grid: seq<seq<State>>, input: seq<seq<State>>, open: set<Point>, start: Point, goal: Point,
                   enqueued: seq<Point>, popped: seq<Point>)
    requires GridView(grid, input, enqueued, popped)
    requires InBounds(grid, start.0, start.1) && InBounds(grid, goal.0, goal.1)
    requires PushesOk(open, start, enqueued) && OpenCellsAre(input, open) && goal in enqueued
    requires forall p :: p in popped ==> p in enqueued
    ensures var marked := grid[start.0 := grid[start.0][start.1 := Start]];
            var result := marked[goal.0 := marked[goal.0][goal.1 := Finish]];
            && SameShape(result, input)
            && result[goal.0][goal.1] == Finish
            && (start != goal ==> result[start.0][start.1] == Start)
            && (forall i, j :: InBounds(input, i, j) && (i, j) != start && (i, j) != goal ==>
                  result[i][j] == if (i, j) in popped + [goal] then Path
                                  else if (i, j) in enqueued then Closed
                                  else input[i][j])
            && (forall i, j :: InBounds(input, i, j) && (i, j) != start && input[i][j] != Empty ==>
                  result[i][j] == input[i][j])
  {
    var marked := grid[start.0 := grid[start.0][start.1 := Start]];
    var result := marked[goal.0 := marked[goal.0][goal.1 := Finish]];
    forall i, j | InBounds(input, i, j) && (i, j) != start && input[i][j] != Empty
      ensures result[i][j] == input[i][j]
    {
      forall k | 0 <= k < |enqueued| ensures enqueued[k] != (i, j) {
        if k > 0 {
          assert enqueued[k] in open;
        }
      }
    }
  }

  /** The state at the head of the search loop: the invariant on values,
      and the working grid showing it. */
  ghost predicate Searching(input: seq<seq<State>>, open: set<Point>, start: Point, goal: Point,
                            frontier: seq<Entry>, grid: seq<seq<State>>,
                            enqueued: seq<Point>, popped: seq<Point>, openNow: set<Point>)
  {
    && SearchInvariant(open, start, goal, frontier, enqueued, popped, openNow)
    && GridView(grid, input, enqueued, popped)
  }

  /** What the search assumes of its input: rectangular, the start inside,
      and `open` its set of open cells. */
  ghost predicate SearchInput(input: seq<seq<State>>, open: set<Point>, start: Point)
  {
    IsRectangular(input) && InBounds(input, start.0, start.1) && OpenCellsAre(input, open)
  }

  /** The popped record's cell lies in the grid, and once it is marked Path
      the open cells of the grid are still those of openNow. */
  lemma PoppedCellFacts(input: seq<seq<State>>, open: set<Point>, start: Point, goal: Point,
                        unsorted: seq<Entry>, frontier: seq<Entry>, grid: seq<seq<State>>,
                        enqueued: seq<Point>, popped: seq<Point>, openNow: set<Point>)
    requires SearchInput(input, open, start)
    requires Searching(input, open, start, goal, unsorted, grid, enqueued, popped, openNow)
    requires multiset(frontier) == multiset(unsorted) && (Distinct(unsorted) ==> Distinct(frontier))
    requires |frontier| > 0
    ensures var c := (frontier[|frontier| - 1].x, frontier[|frontier| - 1].y);
            && InBounds(grid, c.0, c.1)
            && var marked := grid[c.0 := grid[c.0][c.1 := Path]];
               |marked| > 0 && IsRectangular(marked) && OpenCellsAre(marked, openNow)
  {
    SortKeepsInvariant(open, start, goal, unsorted, frontier, enqueued, popped, openNow);
    var curr := frontier[|frontier| - 1];
    var c := (curr.x, curr.y);
    assert curr in frontier;
    PushedInBounds(input, open, start, enqueued, c);
    ViewAfterPop(grid, input, enqueued, popped, c);
    OpenCellsMatchView(grid[c.0 := grid[c.0][c.1 := Path]], input, open, enqueued, popped + [c], openNow);
  }

  /** One pass of the loop that does not meet the goal: the back record is
      popped, its cell marked Path and its open neighbours pushed. The loop
      state holds again afterwards. */
  lemma ExpandKeepsSearching(input: seq<seq<State>>, open: set<Point>, start: Point, goal: Point,
                             unsorted: seq<Entry>, frontier: seq<Entry>, grid: seq<seq<State>>, grid': seq<seq<State>>,
                             enqueued: seq<Point>, popped: seq<Point>, openNow: set<Point>)
    requires SearchInput(input, open, start)
    requires Searching(input, open, start, goal, unsorted, grid, enqueued, popped, openNow)
    requires multiset(frontier) == multiset(unsorted) && (Distinct(unsorted) ==> Distinct(frontier))
    requires |frontier| > 0
    requires var curr := frontier[|frontier| - 1];
             var c := (curr.x, curr.y);
             && c != goal && InBounds(grid, c.0, c.1)
             && ClosedExactly(grid', grid[c.0 := grid[c.0][c.1 := Path]], Positions(Expansion(curr, goal, openNow, 4)))
    ensures var curr := frontier[|frontier| - 1];
            var added := Expansion(curr, goal, openNow, 4);
            Searching(input, open, start, goal, frontier[..|frontier| - 1] + added, grid',
                      enqueued + Positions(added), popped + [(curr.x, curr.y)],
                      openNow - set p | p in Positions(added))
  {
    SortKeepsInvariant(open, start, goal, unsorted, frontier, enqueued, popped, openNow);
    var curr := frontier[|frontier| - 1];
    var c := (curr.x, curr.y);
    var added := Expansion(curr, goal, openNow, 4);
    var openAfter := openNow - set p | p in Positions(added);
    assert curr in frontier;
    PopAndExpandKeepsInvariant(open, start, goal, frontier, enqueued, popped, openNow, added, openAfter);
    ViewAfterPop(grid, input, enqueued, popped, c);
    ViewAfterPush(grid[c.0 := grid[c.0][c.1 := Path]], grid', input, enqueued, popped + [c], Positions(added));
  }

  /** When the popped record is the goal: the goal is reachable, and marking
      the two ends gives the grid the search returns. */
  lemma GoalPoppedResult(input: seq<seq<State>>, open: set<Point>, start: Point, goal: Point,
                         unsorted: seq<Entry>, frontier: seq<Entry>, grid: seq<seq<State>>,
                         enqueued: seq<Point>, popped: seq<Point>, openNow: set<Point>)
    requires SearchInput(input, open, start)
    requires Searching(input, open, start, goal, unsorted, grid, enqueued, popped, openNow)
    requires multiset(frontier) == multiset(unsorted) && (Distinct(unsorted) ==> Distinct(frontier))
    requires |frontier| > 0 && (frontier[|frontier| - 1].x, frontier[|frontier| - 1].y) == goal
    ensures InBounds(grid, goal.0, goal.1)
    ensures Reachable(EmptyCells(input), start, goal)
    ensures var marked := grid[start.0 := grid[start.0][start.1 := Start]];
            var result := marked[goal.0 := marked[goal.0][goal.1 := Finish]];
            && InBounds(marked, goal.0, goal.1) && result != []
            && MarkedResult(input, start, goal, result, enqueued, popped + [goal])
    ensures SearchRecord(input, start, goal, enqueued, popped + [goal])
  {
    SortKeepsInvariant(open, start, goal, unsorted, frontier, enqueued, popped, openNow);
    var curr := frontier[|frontier| - 1];
    assert curr in frontier;
    PushedInBounds(input, open, start, enqueued, goal);
    EndsMarked(grid, input, open, start, goal, enqueued, popped);
    var k :| 0 <= k < |enqueued| && enqueued[k] == goal;
    OpenCellsCharacterised(input, open);
    PushedCellsFacts(input, open, start, enqueued);
    GoalPoppedRecord(input, open, start, goal, unsorted, enqueued, popped, openNow);
  }

  /** Popping the goal, a pushed cell, completes the record of the search. */
  lemma GoalPoppedRecord(input: seq<seq<State>>, open: set<Point>, start: Point, goal: Point, frontier: seq<Entry>,
                         enqueued: seq<Point>, popped: seq<Point>, openNow: set<Point>)
    requires SearchInput(input, open, start)
    requires SearchInvariant(open, start, goal, frontier, enqueued, popped, openNow)
    requires |frontier| > 0 && goal in enqueued
    ensures SearchRecord(input, start, goal, enqueued, popped + [goal])
  {
    OpenCellsCharacterised(input, open);
    PushedCellsFacts(input, open, start, enqueued);
    var ps := popped + [goal];
    assert Distinct(ps);
    assert forall p :: p in ps ==> p in enqueued;
  }

  /** When the frontier runs dry: the goal is unreachable through the
      input's open cells, and it was never popped. */
  lemma ExhaustedResult(input: seq<seq<State>>, open: set<Point>, start: Point, goal: Point,
                        enqueued: seq<Point>, popped: seq<Point>, openNow: set<Point>)
    requires SearchInput(input, open, start)
    requires SearchInvariant(open, start, goal, [], enqueued, popped, openNow)
    ensures !Reachable(EmptyCells(input), start, goal)
    ensures goal !in popped
    ensures SearchRecord(input, start, goal, enqueued, popped)
  {
    ExhaustedFrontierMeansUnreachable(open, start, goal, enqueued, popped, openNow);
    OpenCellsCharacterised(input, open);
    PushedCellsFacts(input, open, start, enqueued);
  }

  /** The complete expansions, restated over the input's open cells. */
  lemma ExpandedOnInput(input: seq<seq<State>>, open: set<Point>, start: Point, goal: Point,
                        enqueued: seq<Point>, popped: seq<Point>, pushedBefore: seq<nat>)
    requires SearchInput(input, open, start)
    requires ExpandedInTime(open, goal, enqueued, popped, pushedBefore, |popped|)
    ensures ExpandedInTime(EmptyCells(input), goal, enqueued, popped, pushedBefore, |popped|)
  {
    OpenCellsCharacterised(input, open);
  }

  /** The pushed cells, restated over the input's open cells. */
  lemma PushedCellsFacts(input: seq<seq<State>>, open: set<Point>, start: Point, enqueued: seq<Point>)
    requires SearchInput(input, open, start)
    requires PushesOk(open, start, enqueued) && AllReachable(open, start, enqueued)
    ensures forall k :: 0 < k < |enqueued| ==> enqueued[k] in EmptyCells(input)
    ensures forall k :: 0 <= k < |enqueued| ==> Reachable(EmptyCells(input), start, enqueued[k])
  {
    OpenCellsCharacterised(input, open);
  }

  /** popped[i] was pushed before it was popped, and the number of cells
      pushed by the time of a pop never decreases from one pop to the next. */
  ghost predicate PoppedAfterPush(enqueued: seq<Point>, popped: seq<Point>, pushedBefore: seq<nat>, i: int)
    requires 0 <= i < |popped| == |pushedBefore|
  {
    && pushedBefore[i] <= |enqueued| && popped[i] in enqueued[..pushedBefore[i]]
    && (i > 0 ==> pushedBefore[i - 1] <= pushedBefore[i])
  }

  /** The start is popped first, nothing is pushed before that, and every
      popped cell had been pushed by the time it was popped. */
  ghost predicate PopOrder(start: Point, enqueued: seq<Point>, popped: seq<Point>, pushedBefore: seq<nat>)
  {
    && |pushedBefore| == |popped|
    && (|popped| == 0 ==> |enqueued| == 1)
    && (|popped| > 0 ==> popped[0] == start)
    && forall i :: 0 <= i < |popped| ==> PoppedAfterPush(enqueued, popped, pushedBefore, i)
  }

  /** Cell q, the k-th pushed, was pushed while popped[i], not the goal, was
      expanded: after its pop and before the next, as a side-sharing
      neighbour. */
  ghost predicate PushedBy(goal: Point, popped: seq<Point>, pushedBefore: seq<nat>, k: int, q: Point, i: int)
  {
    && 0 <= i < |popped| && |pushedBefore| == |popped|
    && popped[i] != goal
    && pushedBefore[i] <= k && (i + 1 < |popped| ==> k < pushedBefore[i + 1])
    && Adjacent(popped[i], q)
  }

  /** The k-th pushed cell was pushed by the expansion of some popped cell. */
  ghost predicate HasParent(goal: Point, enqueued: seq<Point>, popped: seq<Point>, pushedBefore: seq<nat>, k: int)
    requires 0 <= k < |enqueued|
  {
    exists i :: PushedBy(goal, popped, pushedBefore, k, enqueued[k], i)
  }

  /** Every cell pushed after the start was pushed by the expansion of a
      popped cell other than the goal. */
  ghost predicate PushedByParents(goal: Point, enqueued: seq<Point>, popped: seq<Point>, pushedBefore: seq<nat>)
  {
    forall k :: 0 < k < |enqueued| ==> HasParent(goal, enqueued, popped, pushedBefore, k)
  }

  /** popped[i] is no farther from the goal than any cell pushed before its
      pop and not popped before it. */
  ghost predicate PoppedCheapest(goal: Point, enqueued: seq<Point>, popped: seq<Point>, pushedBefore: seq<nat>,
                                 i: int)
    requires 0 <= i < |popped| == |pushedBefore|
  {
    forall k :: 0 <= k < pushedBefore[i] && k < |enqueued| && enqueued[k] !in popped[..i] ==>
      ManhattanDistance(popped[i].0, popped[i].1, goal.0, goal.1)
      <= ManhattanDistance(enqueued[k].0, enqueued[k].1, goal.0, goal.1)
  }

  /** Every pop takes a cell of least distance to the goal among the cells
      pushed by then and not yet popped: the frontier's least g + h, since
      every record has g == 0. */
  ghost predicate PopsCheapest(goal: Point, enqueued: seq<Point>, popped: seq<Point>, pushedBefore: seq<nat>)
    requires |popped| == |pushedBefore|
  {
    forall i :: 0 <= i < |popped| ==> PoppedCheapest(goal, enqueued, popped, pushedBefore, i)
  }

  /** Every neighbour of popped[i] that is open in `open` had been pushed by
      the time of the next pop, or by the end of the search after the last
      pop: the expansion of popped[i] is complete before anything else is
      popped. */
  ghost predicate ExpandedBefore(open: set<Point>, enqueued: seq<Point>, popped: seq<Point>, pushedBefore: seq<nat>,
                                 i: int)
    requires 0 <= i < |popped| == |pushedBefore|
  {
    var next := if i + 1 < |popped| then pushedBefore[i + 1] else |enqueued|;
    && next <= |enqueued|
    && forall k :: 0 <= k < 4 && Step(popped[i], k) in open ==> Step(popped[i], k) in enqueued[..next]
  }

  /** The first n popped cells other than the goal were each expanded in
      full before the next pop. */
  ghost predicate ExpandedInTime(open: set<Point>, goal: Point, enqueued: seq<Point>, popped: seq<Point>,
                                 pushedBefore: seq<nat>, n: int)
  {
    && |popped| == |pushedBefore| && 0 <= n <= |popped|
    && forall i :: 0 <= i < n && popped[i] != goal ==> ExpandedBefore(open, enqueued, popped, pushedBefore, i)
  }

  /** The order of the search: pushedBefore[i] is the number of cells
      pushed when popped[i] was popped. */
  ghost predicate SearchTrace(start: Point, goal: Point, enqueued: seq<Point>, popped: seq<Point>,
                              pushedBefore: seq<nat>)
  {
    && PopOrder(start, enqueued, popped, pushedBefore)
    && PushedByParents(goal, enqueued, popped, pushedBefore)
    && PopsCheapest(goal, enqueued, popped, pushedBefore)
  }

  lemma PopKeepsOrder(start: Point, enqueued: seq<Point>, popped: seq<Point>, pushedBefore: seq<nat>, c: Point)
    requires PopOrder(start, enqueued, popped, pushedBefore)
    requires |enqueued| > 0 && enqueued[0] == start && c in enqueued
    ensures PopOrder(start, enqueued, popped + [c], pushedBefore + [|enqueued|])
  {
    var popped' := popped + [c];
    var pushedBefore' := pushedBefore + [|enqueued|];
    forall i | 0 <= i < |popped'| ensures PoppedAfterPush(enqueued, popped', pushedBefore', i) {
      if i == |popped| {
        assert enqueued[..|enqueued|] == enqueued;
        if i > 0 {
          assert PoppedAfterPush(enqueued, popped, pushedBefore, i - 1);
        }
      } else {
        assert PoppedAfterPush(enqueued, popped, pushedBefore, i);
        assert popped'[i] == popped[i] && pushedBefore'[i] == pushedBefore[i];
      }
    }
  }

  lemma PopKeepsParents(goal: Point, enqueued: seq<Point>, popped: seq<Point>, pushedBefore: seq<nat>, c: Point)
    requires |pushedBefore| == |popped| && PushedByParents(goal, enqueued, popped, pushedBefore)
    ensures PushedByParents(goal, enqueued, popped + [c], pushedBefore + [|enqueued|])
  {
    var popped' := popped + [c];
    var pushedBefore' := pushedBefore + [|enqueued|];
    forall k | 0 < k < |enqueued| ensures HasParent(goal, enqueued, popped', pushedBefore', k) {
      assert HasParent(goal, enqueued, popped, pushedBefore, k);
      var i :| PushedBy(goal, popped, pushedBefore, k, enqueued[k], i);
      assert popped'[i] == popped[i] && pushedBefore'[i] == pushedBefore[i];
      if i + 1 == |popped| {
        assert pushedBefore'[i + 1] == |enqueued|;
      } else {
        assert pushedBefore'[i + 1] == pushedBefore[i + 1];
      }
      assert PushedBy(goal, popped', pushedBefore', k, enqueued[k], i);
    }
  }

  lemma PopKeepsCheapest(goal: Point, enqueued: seq<Point>, popped: seq<Point>, pushedBefore: seq<nat>,
                         sorted: seq<Entry>)
    requires |pushedBefore| == |popped| && PopsCheapest(goal, enqueued, popped, pushedBefore)
    requires Sorted(sorted) && |sorted| > 0
    requires var back := sorted[|sorted| - 1]; back == EntryAt((back.x, back.y), goal)
    requires forall p :: p in enqueued && p !in popped ==> EntryAt(p, goal) in sorted
    ensures var c := (sorted[|sorted| - 1].x, sorted[|sorted| - 1].y);
            PopsCheapest(goal, enqueued, popped + [c], pushedBefore + [|enqueued|])
  {
    BackIsCheapest(sorted);
    var back := sorted[|sorted| - 1];
    var c := (back.x, back.y);
    var popped' := popped + [c];
    var pushedBefore' := pushedBefore + [|enqueued|];
    forall i | 0 <= i < |popped'| ensures PoppedCheapest(goal, enqueued, popped', pushedBefore', i) {
      if i < |popped| {
        assert PoppedCheapest(goal, enqueued, popped, pushedBefore, i);
        assert popped'[..i] == popped[..i];
        assert popped'[i] == popped[i] && pushedBefore'[i] == pushedBefore[i];
      } else {
        assert popped'[..i] == popped;
        forall k | 0 <= k < |enqueued| && enqueued[k] !in popped
          ensures ManhattanDistance(c.0, c.1, goal.0, goal.1)
                  <= ManhattanDistance(enqueued[k].0, enqueued[k].1, goal.0, goal.1)
        {
          assert enqueued[k] in enqueued;
          assert EntryAt(enqueued[k], goal) in sorted;
        }
      }
    }
  }

  /** Popping the back of the sorted frontier extends the trace: the popped
      cell has the least distance to the goal among the pushed cells not yet
      popped, and the first cell popped is the start. */
  lemma PopKeepsTrace(open: set<Point>, start: Point, goal: Point, unsorted: seq<Entry>, sorted: seq<Entry>,
                      enqueued: seq<Point>, popped: seq<Point>, openNow: set<Point>, pushedBefore: seq<nat>)
    requires SearchInvariant(open, start, goal, unsorted, enqueued, popped, openNow)
    requires multiset(sorted) == multiset(unsorted) && (Distinct(unsorted) ==> Distinct(sorted))
    requires Sorted(sorted) && |sorted| > 0
    requires SearchTrace(start, goal, enqueued, popped, pushedBefore)
    requires ExpandedInTime(open, goal, enqueued, popped, pushedBefore, |popped|)
    ensures var c := (sorted[|sorted| - 1].x, sorted[|sorted| - 1].y);
            SearchTrace(start, goal, enqueued, popped + [c], pushedBefore + [|enqueued|])
    ensures var c := (sorted[|sorted| - 1].x, sorted[|sorted| - 1].y);
            && ExpandedInTime(open, goal, enqueued, popped + [c], pushedBefore + [|enqueued|], |popped|)
            && (c == goal ==> ExpandedInTime(open, goal, enqueued, popped + [c], pushedBefore + [|enqueued|],
                                             |popped| + 1))
  {
    SortKeepsInvariant(open, start, goal, unsorted, sorted, enqueued, popped, openNow);
    var back := sorted[|sorted| - 1];
    var c := (back.x, back.y);
    assert back in sorted;
    PopKeepsOrder(start, enqueued, popped, pushedBefore, c);
    PopKeepsParents(goal, enqueued, popped, pushedBefore, c);
    PopKeepsCheapest(goal, enqueued, popped, pushedBefore, sorted);
    PopKeepsExpanded(open, goal, enqueued, popped, pushedBefore, c);
  }

  /** A pop leaves the earlier expansions complete before it: the count of
      pushes at the new pop is the count at the end of the old record. */
  lemma PopKeepsExpanded(open: set<Point>, goal: Point, enqueued: seq<Point>, popped: seq<Point>,
                         pushedBefore: seq<nat>, c: Point)
    requires ExpandedInTime(open, goal, enqueued, popped, pushedBefore, |popped|)
    ensures ExpandedInTime(open, goal, enqueued, popped + [c], pushedBefore + [|enqueued|], |popped|)
    ensures c == goal ==> ExpandedInTime(open, goal, enqueued, popped + [c], pushedBefore + [|enqueued|], |popped| + 1)
  {
    var popped' := popped + [c];
    var pushedBefore' := pushedBefore + [|enqueued|];
    forall i | 0 <= i < |popped| && popped'[i] != goal
      ensures ExpandedBefore(open, enqueued, popped', pushedBefore', i)
    {
      assert popped'[i] == popped[i];
      assert ExpandedBefore(open, enqueued, popped, pushedBefore, i);
      if i + 1 < |popped| {
        assert pushedBefore'[i + 1] == pushedBefore[i + 1];
      } else {
        assert pushedBefore'[i + 1] == |enqueued|;
      }
    }
  }

  /** The cells one expansion of curr pushes are neighbours of curr. */
  lemma ExpansionIsAdjacent(curr: Entry, goal: Point, openNow: set<Point>)
    ensures forall p :: p in Positions(Expansion(curr, goal, openNow, 4)) ==> Adjacent((curr.x, curr.y), p)
  {
    var c := (curr.x, curr.y);
    var added := Expansion(curr, goal, openNow, 4);
    var ps := Positions(added);
    ExpansionIsSound(curr, goal, openNow, 4);
    forall p | p in ps ensures Adjacent(c, p) {
      var m :| 0 <= m < |ps| && ps[m] == p;
      assert added[m] in added;
      var d :| 0 <= d < 4 && added[m] == Successor(curr, d, goal) && Step(c, d) in openNow;
      StepsAreTheNeighbours(c, Step(c, d));
    }
  }

  /** Pushing the open neighbours of the cell just popped extends the trace:
      each of them is a neighbour of that cell, pushed after it was popped,
      and with them every neighbour of that cell open in the input has been
      pushed, so its expansion is complete before the next pop. */
  lemma PushKeepsTrace(open: set<Point>, start: Point, goal: Point, enqueued: seq<Point>, popped: seq<Point>,
                       pushedBefore: seq<nat>, curr: Entry, openNow: set<Point>)
    requires SearchTrace(start, goal, enqueued, popped, pushedBefore)
    requires |popped| > 0 && popped[|popped| - 1] == (curr.x, curr.y) && (curr.x, curr.y) != goal
    requires pushedBefore[|popped| - 1] == |enqueued|
    requires ExpandedInTime(open, goal, enqueued, popped, pushedBefore, |popped| - 1)
    requires StillOpen(open, enqueued, openNow)
    ensures SearchTrace(start, goal, enqueued + Positions(Expansion(curr, goal, openNow, 4)), popped, pushedBefore)
    ensures ExpandedInTime(open, goal, enqueued + Positions(Expansion(curr, goal, openNow, 4)), popped, pushedBefore,
                           |popped|)
  {
    var ps := Positions(Expansion(curr, goal, openNow, 4));
    ExpansionIsAdjacent(curr, goal, openNow);
    PushKeepsOrder(start, enqueued, popped, pushedBefore, ps);
    PushKeepsParents(goal, enqueued, popped, pushedBefore, ps);
    forall i | 0 <= i < |popped| ensures pushedBefore[i] <= |enqueued| {
      assert PoppedAfterPush(enqueued, popped, pushedBefore, i);
    }
    PushKeepsCheapest(goal, enqueued, popped, pushedBefore, ps);
    ExpansionCoversOpen(curr, goal, openNow);
    PushKeepsExpanded(open, goal, enqueued, popped, pushedBefore, openNow, ps);
  }

  /** The expansion of the last popped cell pushes each of its neighbours
      still open, and the others open in the input were pushed before: its
      expansion is complete once ps is pushed. Earlier expansions keep their
      bounds, which lie inside the old pushes. */
  lemma PushKeepsExpanded(open: set<Point>, goal: Point, enqueued: seq<Point>, popped: seq<Point>,
                          pushedBefore: seq<nat>, openNow: set<Point>, ps: seq<Point>)
    requires |popped| > 0 && ExpandedInTime(open, goal, enqueued, popped, pushedBefore, |popped| - 1)
    requires forall i :: 0 <= i < |popped| ==> pushedBefore[i] <= |enqueued|
    requires StillOpen(open, enqueued, openNow)
    requires var c := popped[|popped| - 1];
             forall k :: 0 <= k < 4 && Step(c, k) in openNow ==> Step(c, k) in ps
    ensures ExpandedInTime(open, goal, enqueued + ps, popped, pushedBefore, |popped|)
  {
    var enqueued' := enqueued + ps;
    var last := |popped| - 1;
    forall i | 0 <= i < |popped| && popped[i] != goal
      ensures ExpandedBefore(open, enqueued', popped, pushedBefore, i)
    {
      if i < last {
        assert ExpandedBefore(open, enqueued, popped, pushedBefore, i);
        assert enqueued'[..pushedBefore[i + 1]] == enqueued[..pushedBefore[i + 1]];
      } else {
        var c := popped[i];
        assert enqueued'[..|enqueued'|] == enqueued';
        forall k | 0 <= k < 4 && Step(c, k) in open ensures Step(c, k) in enqueued' {
          if Step(c, k) !in enqueued {
            assert Step(c, k) in openNow;
          }
        }
      }
    }
  }

  lemma PushKeepsOrder(start: Point, enqueued: seq<Point>, popped: seq<Point>, pushedBefore: seq<nat>, ps: seq<Point>)
    requires PopOrder(start, enqueued, popped, pushedBefore) && |popped| > 0
    ensures PopOrder(start, enqueued + ps, popped, pushedBefore)
  {
    forall i | 0 <= i < |popped| ensures PoppedAfterPush(enqueued + ps, popped, pushedBefore, i) {
      assert PoppedAfterPush(enqueued, popped, pushedBefore, i);
      assert (enqueued + ps)[..pushedBefore[i]] == enqueued[..pushedBefore[i]];
    }
  }

  lemma PushKeepsParents(goal: Point, enqueued: seq<Point>, popped: seq<Point>, pushedBefore: seq<nat>,
                         ps: seq<Point>)
    requires |pushedBefore| == |popped| && PushedByParents(goal, enqueued, popped, pushedBefore)
    requires |popped| > 0 && popped[|popped| - 1] != goal && pushedBefore[|popped| - 1] == |enqueued|
    requires forall p :: p in ps ==> Adjacent(popped[|popped| - 1], p)
    ensures PushedByParents(goal, enqueued + ps, popped, pushedBefore)
  {
    var enqueued' := enqueued + ps;
    forall k | 0 < k < |enqueued'| ensures HasParent(goal, enqueued', popped, pushedBefore, k) {
      if k < |enqueued| {
        assert HasParent(goal, enqueued, popped, pushedBefore, k);
        assert enqueued'[k] == enqueued[k];
        var i :| PushedBy(goal, popped, pushedBefore, k, enqueued[k], i);
        assert PushedBy(goal, popped, pushedBefore, k, enqueued'[k], i);
      } else {
        assert enqueued'[k] == ps[k - |enqueued|];
        assert ps[k - |enqueued|] in ps;
        assert PushedBy(goal, popped, pushedBefore, k, enqueued'[k], |popped| - 1);
      }
    }
  }

  lemma PushKeepsCheapest(goal: Point, enqueued: seq<Point>, popped: seq<Point>, pushedBefore: seq<nat>,
                          ps: seq<Point>)
    requires |pushedBefore| == |popped| && PopsCheapest(goal, enqueued, popped, pushedBefore)
    requires forall i :: 0 <= i < |popped| ==> pushedBefore[i] <= |enqueued|
    ensures PopsCheapest(goal, enqueued + ps, popped, pushedBefore)
  {
    forall i | 0 <= i < |popped| ensures PoppedCheapest(goal, enqueued + ps, popped, pushedBefore, i) {
      assert PoppedCheapest(goal, enqueued, popped, pushedBefore, i);
      forall k | 0 <= k < pushedBefore[i] ensures (enqueued + ps)[k] == enqueued[k] {
      }
    }
  }

  /** The grid a successful search returns: the input with every popped
      cell marked Path and every pushed but unpopped cell Closed, except that
      the goal, popped last, is Finish and the start, when it is not the goal,
      is Start. Only the start cell can lose an obstacle. */
  ghost predicate MarkedResult(input: seq<seq<State>>, start: Point, goal: Point, result: seq<seq<State>>,
                               enqueued: seq<Point>, popped: seq<Point>)
  {
    && SameShape(result, input)
    && |popped| > 0 && popped[|popped| - 1] == goal
    && InBounds(result, goal.0, goal.1) && result[goal.0][goal.1] == Finish
    && InBounds(result, start.0, start.1) && (start != goal ==> result[start.0][start.1] == Start)
    && (forall i, j :: InBounds(input, i, j) && (i, j) != start && (i, j) != goal ==>
          result[i][j] == if (i, j) in popped then Path
                          else if (i, j) in enqueued then Closed
                          else input[i][j])
    && (forall i, j :: InBounds(input, i, j) && (i, j) != start && input[i][j] != Empty ==>
          result[i][j] == input[i][j])
  }

  /** The cells a search pushed and popped, judged against the input's open
      cells: the start first, then only open cells, each reachable from the
      start and pushed once; each popped cell pushed and popped once, so at
      most one more than the open cells; and every open neighbour of a popped
      cell other than the goal pushed. */
  ghost predicate SearchRecord(input: seq<seq<State>>, start: Point, goal: Point,
                               enqueued: seq<Point>, popped: seq<Point>)
  {
    && PushesOk(EmptyCells(input), start, enqueued)
    && AllReachable(EmptyCells(input), start, enqueued)
    && PoppedOnce(enqueued, popped)
    && NeighboursPushed(EmptyCells(input), goal, enqueued, popped)
    && |popped| <= |EmptyCells(input)| + 1
  }

  /** On the one-row corridor [Empty, Empty, Empty], searching from its
      first cell to its last, the contract of AStarSearch admits one result
      only: the middle cell is on the path. */
  lemma CorridorResult(result: seq<seq<State>>, enqueued: seq<Point>, popped: seq<Point>, pushedBefore: seq<nat>)
    requires result != []
    requires MarkedResult([[Empty, Empty, Empty]], (0, 0), (0, 2), result, enqueued, popped)
    requires SearchRecord([[Empty, Empty, Empty]], (0, 0), (0, 2), enqueued, popped)
    requires SearchTrace((0, 0), (0, 2), enqueued, popped, pushedBefore)
    ensures result == [[Start, Path, Finish]]
  {
    assert popped[|popped| - 1] in popped;
    CorridorMiddlePopped(enqueued, popped, pushedBefore);
    CorridorRow(result, enqueued, popped);
  }

  /** The goal at the end of the corridor can only have been pushed by
      expanding the middle cell, so the middle cell was popped. */
  lemma CorridorMiddlePopped(enqueued: seq<Point>, popped: seq<Point>, pushedBefore: seq<nat>)
    requires SearchRecord([[Empty, Empty, Empty]], (0, 0), (0, 2), enqueued, popped)
    requires SearchTrace((0, 0), (0, 2), enqueued, popped, pushedBefore)
    requires (0, 2) in popped
    ensures (0, 1) in popped
  {
    var goal := (0, 2);
    var k :| 0 <= k < |enqueued| && enqueued[k] == goal;
    assert HasParent(goal, enqueued, popped, pushedBefore, k);
    var i :| PushedBy(goal, popped, pushedBefore, k, goal, i);
    var parent := popped[i];
    assert parent in enqueued;
    var m :| 0 <= m < |enqueued| && enqueued[m] == parent;
    if m > 0 {
      CorridorCells(parent);
    }
  }

  lemma CorridorCells(p: Point)
    requires p in EmptyCells([[Empty, Empty, Empty]])
    ensures p == (0, 0) || p == (0, 1) || p == (0, 2)
  {
  }

  /** With the middle cell popped, the marked corridor is Start, Path,
      Finish. */
  lemma CorridorRow(result: seq<seq<State>>, enqueued: seq<Point>, popped: seq<Point>)
    requires MarkedResult([[Empty, Empty, Empty]], (0, 0), (0, 2), result, enqueued, popped)
    requires (0, 1) in popped
    ensures result == [[Start, Path, Finish]]
  {
    assert InBounds([[Empty, Empty, Empty]], 0, 1);
    assert result[0][1] == Path;
    assert result[0] == [Start, Path, Finish];
  }

  /** Two open rows of three cells. */
  const OpenTwoByThree: seq<seq<State>> := [[Empty, Empty, Empty], [Empty, Empty, Empty]]

  /** Searching the two open rows from (0, 0) to (0, 2), the contract of
      AStarSearch admits one result only, the one the program returns: the
      start expands into (1, 0) and (0, 1), the nearer (0, 1) is popped and
      pushes (1, 1) and the goal, and the goal is popped next, so (1, 2) is
      never touched. */
  lemma TwoByThreeResult(result: seq<seq<State>>, enqueued: seq<Point>, popped: seq<Point>, pushedBefore: seq<nat>)
    requires result != []
    requires MarkedResult(OpenTwoByThree, (0, 0), (0, 2), result, enqueued, popped)
    requires SearchRecord(OpenTwoByThree, (0, 0), (0, 2), enqueued, popped)
    requires SearchTrace((0, 0), (0, 2), enqueued, popped, pushedBefore)
    requires ExpandedInTime(EmptyCells(OpenTwoByThree), (0, 2), enqueued, popped, pushedBefore, |popped|)
    ensures result == [[Start, Path, Finish], [Closed, Closed, Empty]]
  {
    TwoByThreeOpen();
    TwoByThreePops(EmptyCells(OpenTwoByThree), enqueued, popped, pushedBefore);
    TwoByThreePushes(EmptyCells(OpenTwoByThree), enqueued, popped, pushedBefore);
    TwoByThreeRows(result, enqueued, popped);
  }

  lemma TwoByThreeOpen()
    ensures forall i, j :: 0 <= i < 2 && 0 <= j < 3 ==> (i, j) in EmptyCells(OpenTwoByThree)
  {
    forall i, j | 0 <= i < 2 && 0 <= j < 3 ensures (i, j) in EmptyCells(OpenTwoByThree) {
      assert OpenTwoByThree[i][j] == Empty;
    }
  }

  /** The number of cells pushed by the time of a pop never decreases. */
  lemma {:induction false} PushCountsGrow(start: Point, enqueued: seq<Point>, popped: seq<Point>,
                                          pushedBefore: seq<nat>, i: int, j: int)
    requires PopOrder(start, enqueued, popped, pushedBefore)
    requires 0 <= i <= j < |popped|
    ensures pushedBefore[i] <= pushedBefore[j]
    decreases j - i
  {
    if i < j {
      PushCountsGrow(start, enqueued, popped, pushedBefore, i, j - 1);
      assert PoppedAfterPush(enqueued, popped, pushedBefore, j);
    }
  }

  /** Every cell pushed before the second pop, other than the start, was
      pushed by the expansion of the first popped cell. */
  lemma FirstExpansionPushes(start: Point, goal: Point, enqueued: seq<Point>, popped: seq<Point>,
                             pushedBefore: seq<nat>, k: int)
    requires SearchTrace(start, goal, enqueued, popped, pushedBefore)
    requires |popped| > 1 && 0 < k < pushedBefore[1] && k < |enqueued|
    ensures Adjacent(popped[0], enqueued[k])
  {
    assert HasParent(goal, enqueued, popped, pushedBefore, k);
    var i :| PushedBy(goal, popped, pushedBefore, k, enqueued[k], i);
    if i > 0 {
      PushCountsGrow(start, enqueued, popped, pushedBefore, 1, i);
    }
  }

  /** The pops on the two open rows: the start, then (0, 1), then the goal. */
  lemma TwoByThreePops(open: set<Point>, enqueued: seq<Point>, popped: seq<Point>, pushedBefore: seq<nat>)
    requires (0, 1) in open && (0, 2) in open
    requires |popped| > 0 && popped[|popped| - 1] == (0, 2)
    requires PoppedOnce(enqueued, popped) && |enqueued| > 0 && enqueued[0] == (0, 0)
    requires SearchTrace((0, 0), (0, 2), enqueued, popped, pushedBefore)
    requires ExpandedInTime(open, (0, 2), enqueued, popped, pushedBefore, |popped|)
    ensures popped == [(0, 0), (0, 1), (0, 2)]
  {
    assert |popped| > 1 by {
      if |popped| == 1 {
        assert popped[0] == (0, 0);
      }
    }
    SecondPop(open, enqueued, popped, pushedBefore);
    ThirdPop(open, enqueued, popped, pushedBefore);
    assert |popped| == 3;
  }

  /** The expansion of the start pushes (0, 1) before the second pop. The
      second pop is no farther from the goal than (0, 1) and was pushed by
      then, so it is a neighbour of the start: (0, 1) itself. */
  lemma SecondPop(open: set<Point>, enqueued: seq<Point>, popped: seq<Point>, pushedBefore: seq<nat>)
    requires (0, 1) in open
    requires |popped| > 1 && PoppedOnce(enqueued, popped)
    requires |enqueued| > 0 && enqueued[0] == (0, 0)
    requires SearchTrace((0, 0), (0, 2), enqueued, popped, pushedBefore)
    requires ExpandedInTime(open, (0, 2), enqueued, popped, pushedBefore, |popped|)
    ensures popped[1] == (0, 1)
  {
    var start, goal := (0, 0), (0, 2);
    assert popped[0] == start;
    assert ExpandedBefore(open, enqueued, popped, pushedBefore, 0);
    assert Step(start, 3) == (0, 1);
    assert (0, 1) in enqueued[..pushedBefore[1]];
    var m :| 0 <= m < pushedBefore[1] && enqueued[..pushedBefore[1]][m] == (0, 1);
    assert PoppedCheapest(goal, enqueued, popped, pushedBefore, 1);
    assert popped[..1] == [start];
    assert ManhattanDistance(popped[1].0, popped[1].1, goal.0, goal.1) <= 1;
    assert PoppedAfterPush(enqueued, popped, pushedBefore, 1);
    var n :| 0 <= n < pushedBefore[1] && enqueued[..pushedBefore[1]][n] == popped[1];
    assert popped[1] != popped[0];
    assert n != 0;
    FirstExpansionPushes(start, goal, enqueued, popped, pushedBefore, n);
  }

  /** The expansion of (0, 1) pushes the goal before the third pop, which
      must then be the goal, the only cell at distance zero. */
  lemma ThirdPop(open: set<Point>, enqueued: seq<Point>, popped: seq<Point>, pushedBefore: seq<nat>)
    requires (0, 2) in open
    requires |popped| > 1 && popped[0] == (0, 0) && popped[1] == (0, 1) && popped[|popped| - 1] == (0, 2)
    requires SearchTrace((0, 0), (0, 2), enqueued, popped, pushedBefore)
    requires ExpandedInTime(open, (0, 2), enqueued, popped, pushedBefore, |popped|)
    ensures |popped| > 2 && popped[2] == (0, 2)
  {
    var goal := (0, 2);
    assert ExpandedBefore(open, enqueued, popped, pushedBefore, 1);
    assert Step((0, 1), 3) == goal;
    var r :| 0 <= r < pushedBefore[2] && enqueued[..pushedBefore[2]][r] == goal;
    assert PoppedCheapest(goal, enqueued, popped, pushedBefore, 2);
    assert popped[..2] == [(0, 0), (0, 1)];
  }

  /** The pushes on the two open rows: (1, 0) and (1, 1), below the two
      expanded cells, are pushed; (1, 2), next to neither, is not. */
  lemma TwoByThreePushes(open: set<Point>, enqueued: seq<Point>, popped: seq<Point>, pushedBefore: seq<nat>)
    requires (1, 0) in open && (1, 1) in open
    requires popped == [(0, 0), (0, 1), (0, 2)]
    requires |enqueued| > 0 && enqueued[0] == (0, 0)
    requires SearchTrace((0, 0), (0, 2), enqueued, popped, pushedBefore)
    requires ExpandedInTime(open, (0, 2), enqueued, popped, pushedBefore, |popped|)
    ensures (1, 0) in enqueued && (1, 1) in enqueued && (1, 2) !in enqueued
  {
    assert ExpandedBefore(open, enqueued, popped, pushedBefore, 0);
    assert Step((0, 0), 2) == (1, 0);
    assert (1, 0) in enqueued[..pushedBefore[1]];
    assert ExpandedBefore(open, enqueued, popped, pushedBefore, 1);
    assert Step((0, 1), 2) == (1, 1);
    assert (1, 1) in enqueued[..pushedBefore[2]];
    CornerNeverPushed(enqueued, popped, pushedBefore);
  }

  /** (1, 2) shares a side with no popped cell but the goal, which is never
      expanded, so no expansion pushed it. */
  lemma CornerNeverPushed(enqueued: seq<Point>, popped: seq<Point>, pushedBefore: seq<nat>)
    requires popped == [(0, 0), (0, 1), (0, 2)]
    requires |enqueued| > 0 && enqueued[0] == (0, 0)
    requires PushedByParents((0, 2), enqueued, popped, pushedBefore)
    ensures (1, 2) !in enqueued
  {
    forall k | 0 < k < |enqueued| ensures enqueued[k] != (1, 2) {
      assert HasParent((0, 2), enqueued, popped, pushedBefore, k);
      var i :| PushedBy((0, 2), popped, pushedBefore, k, enqueued[k], i);
      assert i == 0 || i == 1;
    }
  }

  /** With those pops and pushes, the marked grid is fixed cell by cell. */
  lemma TwoByThreeRows(result: seq<seq<State>>, enqueued: seq<Point>, popped: seq<Point>)
    requires MarkedResult(OpenTwoByThree, (0, 0), (0, 2), result, enqueued, popped)
    requires popped == [(0, 0), (0, 1), (0, 2)]
    requires (1, 0) in enqueued && (1, 1) in enqueued && (1, 2) !in enqueued
    ensures result == [[Start, Path, Finish], [Closed, Closed, Empty]]
  {
    assert InBounds(OpenTwoByThree, 0, 1) && InBounds(OpenTwoByThree, 1, 0);
    assert InBounds(OpenTwoByThree, 1, 1) && InBounds(OpenTwoByThree, 1, 2);
    assert result[0] == [Start, Path, Finish];
    assert result[1] == [Closed, Closed, Empty];
  }

  /** Best-first search from start towards goal on a copy of input. The
      result is empty exactly when no walk through open cells leads from
      start to goal; otherwise it is the copy marked as MarkedResult says.
      The ghost outputs are the cells in the order they were pushed and
      popped; the goal is popped only when the search succeeds. */
  method AStarSearch(input: seq<seq<State>>, start: Point, goal: Point)
    returns (result: seq<seq<State>>, ghost enqueued: seq<Point>, ghost popped: seq<Point>,
             ghost pushedBefore: seq<nat>)
    requires IsRectangular(input)
    requires InBounds(input, start.0, start.1)
    ensures result != [] <==> Reachable(EmptyCells(input), start, goal)
    ensures result != [] ==> MarkedResult(input, start, goal, result, enqueued, popped)
    ensures result == [] ==> goal !in popped
    ensures SearchRecord(input, start, goal, enqueued, popped)
    ensures SearchTrace(start, goal, enqueued, popped, pushedBefore)
    ensures ExpandedInTime(EmptyCells(input), goal, enqueued, popped, pushedBefore, |popped|)
  {
    var grid := input;
    OpenCellsCharacterised(input, EmptyCells(input));
    ghost var open :| OpenCellsAre(input, open);
    assert SearchInput(input, open, start);
    var x := start.0;
    var y := start.1;
    var g := 0;
    var h := ManhattanDistance(x, y, goal.0, goal.1);
    var frontier: seq<Entry> := [];
    frontier, grid := AddPoint(x, y, g, h, frontier, grid);
    enqueued, popped, pushedBefore := [start], [], [];
    ghost var openNow := open - {start};
    InitialInvariant(open, start, goal, openNow);

    while |frontier| > 0
      invariant Searching(input, open, start, goal, frontier, grid, enqueued, popped, openNow)
      invariant SearchTrace(start, goal, enqueued, popped, pushedBefore)
      invariant ExpandedInTime(open, goal, enqueued, popped, pushedBefore, |popped|)
      decreases |openNow| + |frontier|
    {
      ghost var unsorted := frontier;
      frontier := CellSort(frontier);
      ghost var sorted := frontier;
      var curr := frontier[|frontier| - 1];
      frontier := frontier[..|frontier| - 1];
      x := curr.x;
      y := curr.y;
      PopKeepsTrace(open, start, goal, unsorted, sorted, enqueued, popped, openNow, pushedBefore);
      ghost var pushedNow: nat := |enqueued|;
      pushedBefore := pushedBefore + [pushedNow];

      if x == goal.0 && y == goal.1 {
        GoalPoppedResult(input, open, start, goal, unsorted, sorted, grid, enqueued, popped, openNow);
        grid := grid[start.0 := grid[start.0][start.1 := Start]];
        grid := grid[x := grid[x][y := Finish]];
        popped := popped + [(x, y)];
        ExpandedOnInput(input, open, start, goal, enqueued, popped, pushedBefore);
        return grid, enqueued, popped, pushedBefore;
      }

      PoppedCellFacts(input, open, start, goal, unsorted, sorted, grid, enqueued, popped, openNow);
      ghost var unmarked := grid;
      grid := grid[x := grid[x][y := Path]];
      frontier, grid := ExpandNeighbours(curr, frontier, grid, goal, openNow);
      ExpandKeepsSearching(input, open, start, goal, unsorted, sorted, unmarked, grid, enqueued, popped, openNow);
      PushKeepsTrace(open, start, goal, enqueued, popped + [(x, y)], pushedBefore, curr, openNow);
      ghost var pushed := Positions(Expansion(curr, goal, openNow, 4));
      enqueued := enqueued + pushed;
      popped := popped + [(x, y)];
      openNow := openNow - set p | p in pushed;
    }

    ExhaustedResult(input, open, start, goal, enqueued, popped, openNow);
    ExpandedOnInput(input, open, start, goal, enqueued, popped, pushedBefore);
    result := [];
  }
}
