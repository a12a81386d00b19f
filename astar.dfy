/**
 * The grid A* global planner: loading the occupancy map, the Manhattan
 * heuristic table, the search over a 4-connected grid with cells closed when
 * they are generated, path reconstruction from the recorded moves, and
 * resampling of the accumulated path.
 */
module AStar {
  import opened GridCells
  import opened PathSampling
  import opened Wrappers

  /** A search node (struct Open): its cell, cost so far g, heuristic h and f = g + h. */
  datatype Node = Node(f: int, g: int, h: int, cell: Cell)

  /** The heading of the goal pose: the move into the goal, or NoMove when no move led there. */
  function GoalHeading(a: int): Heading
  {
    if 0 <= a < 4 then Move(a) else NoMove
  }

  /**
   * The goal pose's yaw as written: the action entry of the goal cell indexes
   * the move table directly, which is defined only for a move index.
   */
  function GoalHeadingAsWritten(a: int): Option<Heading>
  {
    if 0 <= a < 4 then Some(Move(a)) else None
  }

  /**
   * The node std::sort leaves last when it orders the open list by descending
   * f: a node of least f (among equal f values, this scan takes the last).
   */
  method MinIndex(open: seq<Node>) returns (k: nat)
    requires |open| > 0
    ensures k < |open|
    ensures forall j :: 0 <= j < |open| ==> open[k].f <= open[j].f
  {
    k := 0;
    for j := 1 to |open|
      invariant k < j
      invariant forall i :: 0 <= i < j ==> open[k].f <= open[i].f
    {
      if open[j].f <= open[k].f {
        k := j;
      }
    }
  }

  /** The sequence s without its element at index k (pop_back after the sort). */
  function RemoveAt<T>(s: seq<T>, k: nat): (r: seq<T>)
    requires k < |s|
    ensures |r| == |s| - 1
    ensures forall i :: 0 <= i < k ==> r[i] == s[i]
    ensures forall i :: k <= i < |r| ==> r[i] == s[i + 1]
  {
    s[..k] + s[k + 1..]
  }

  function OpenCells(open: seq<Node>): set<Cell>
  {
    set n | n in open :: n.cell
  }

  lemma OpenCellsRemove(open: seq<Node>, k: nat)
    requires k < |open|
    requires forall a, b :: 0 <= a < b < |open| ==> open[a].cell != open[b].cell
    ensures OpenCells(RemoveAt(open, k)) == OpenCells(open) - {open[k].cell}
  {
    var r := RemoveAt(open, k);
    forall c | c in OpenCells(open) - {open[k].cell}
      ensures c in OpenCells(r)
    {
      var m :| m in open && m.cell == c;
      var j :| 0 <= j < |open| && open[j] == m;
      if j < k {
        assert r[j] == m;
      } else {
        assert r[j - 1] == m;
      }
    }
    forall c | c in OpenCells(r)
      ensures c in OpenCells(open) - {open[k].cell}
    {
      var m :| m in r && m.cell == c;
      var j :| 0 <= j < |r| && r[j] == m;
      if j < k {
        assert r[j] == open[j];
      } else {
        assert r[j] == open[j + 1];
      }
    }
  }

  lemma OpenCellsAppend(open: seq<Node>, m: Node)
    ensures OpenCells(open + [m]) == OpenCells(open) + {m.cell}
  {
    forall c | c in OpenCells(open + [m])
      ensures c in OpenCells(open) + {m.cell}
    {
      var k :| k in open + [m] && k.cell == c;
    }
  }

  /** The occupancy grid as map_callback fills it: cell (r, c) takes data[r + height * c]; only the first height * width values are read. */
  method LoadGrid(height: nat, width: nat, data: seq<int8>) returns (g: array2<int8>)
    requires |data| >= height * width
    ensures fresh(g) && g.Length0 == height && g.Length1 == width
    ensures forall x, y :: 0 <= x < height && 0 <= y < width ==>
      0 <= MapIndex(x, y, height) < |data| && g[x, y] == data[MapIndex(x, y, height)]
  {
    g := new int8[height, width];
    for r := 0 to height
      invariant forall x, y :: 0 <= x < r && 0 <= y < width ==>
        0 <= MapIndex(x, y, height) < |data| && g[x, y] == data[MapIndex(x, y, height)]
    {
      for c := 0 to width
        invariant forall x, y :: 0 <= x < r && 0 <= y < width ==>
          0 <= MapIndex(x, y, height) < |data| && g[x, y] == data[MapIndex(x, y, height)]
        invariant forall y :: 0 <= y < c ==>
          0 <= MapIndex(r, y, height) < |data| && g[r, y] == data[MapIndex(r, y, height)]
      {
        MapIndexInRange(r, c, height, width);
        g[r, c] := data[MapIndex(r, c, height)];
      }
    }
  }

  /** The closed mask holds exactly the generated cells, all of which are on the grid. */
  ghost predicate ClosedMatches(closed: array2<bool>, closedSet: set<Cell>)
    reads closed
  {
    && (forall c :: c in closedSet ==> InBounds(c, closed.Length0, closed.Length1))
    && (forall x, y :: 0 <= x < closed.Length0 && 0 <= y < closed.Length1 ==>
          (closed[x, y] <==> Cell(x, y) in closedSet))
  }

  /** Closing cell n in the closed mask. */
  method Close(closed: array2<bool>, ghost closedSet: set<Cell>, n: Cell)
    requires ClosedMatches(closed, closedSet) && InBounds(n, closed.Length0, closed.Length1)
    modifies closed
    ensures ClosedMatches(closed, closedSet + {n})
  {
    closed[n.x, n.y] := true;
  }

  class Planner {
    var mapReceived: bool
    var rows: nat
    var cols: nat
    /** The occupancy values, grid[row, col]. */
    var grid: array2<int8>
    /** The heuristic table, rebuilt for every goal. */
    var heuristic: array2<int>
    /** The accumulated dense path (roomba_gpath). */
    var gpath: seq<Pose>
    /** The sparse path published to the local planner (samp_path). */
    var sampPath: seq<Pose>

    ghost predicate Valid()
      reads this
    {
      && grid.Length0 == rows && grid.Length1 == cols
      && heuristic.Length0 == rows && heuristic.Length1 == cols
    }

    /** A cell is free when it is on the grid and its occupancy value is exactly 0. */
    ghost predicate Free(c: Cell)
      reads this`grid, grid
    {
      InBounds(c, grid.Length0, grid.Length1) && grid[c.x, c.y] == 0
    }

    /** A walk of unit moves from a to b whose every cell after the first is free. */
    ghost predicate FreeWalk(p: seq<Cell>, a: Cell, b: Cell)
      reads this`grid, grid
    {
      && |p| >= 1 && p[0] == a && p[|p| - 1] == b
      && forall k :: 0 < k < |p| ==> Adjacent(p[k - 1], p[k]) && Free(p[k])
    }

    /**
     * A reconstructed path segment: it starts at init and ends at goal, each
     * pose's heading is the move leading to the next pose, every pose after
     * the first is free, and the goal pose repeats the heading of the move
     * into it (NoMove for a one-pose segment).
     */
    ghost predicate IsSegment(seg: seq<Pose>, init: Cell, goal: Cell)
      reads this`grid, grid
    {
      && |seg| >= 1
      && seg[0].cell == init && seg[|seg| - 1].cell == goal
      && (forall k :: 0 <= k < |seg| - 1 ==>
            && seg[k].heading.Move? && 0 <= seg[k].heading.index < 4
            && seg[k + 1].cell == Neighbour(seg[k].cell, seg[k].heading.index))
      && (forall k :: 0 < k < |seg| ==> Free(seg[k].cell))
      && seg[|seg| - 1].heading == (if |seg| == 1 then NoMove else seg[|seg| - 2].heading)
    }

    /** The cells of a segment form a free walk from init to goal. */
    lemma SegmentIsFreeWalk(seg: seq<Pose>, init: Cell, goal: Cell)
      requires IsSegment(seg, init, goal)
      ensures FreeWalk(seq(|seg|, k requires 0 <= k < |seg| => seg[k].cell), init, goal)
    {
    }

    constructor ()
      ensures !mapReceived && rows == 0 && cols == 0 && Valid()
      ensures gpath == [] && sampPath == []
    {
      mapReceived := false;
      rows, cols := 0, 0;
      grid := new int8[0, 0];
      heuristic := new int[0, 0];
      gpath, sampPath := [], [];
    }

    /**
     * map_callback: the first map is copied into the grid with
     * grid[row, col] = data[row + rows * col] and a zero heuristic table is
     * allocated; any later map is ignored.
     */
    method MapCallback(height: nat, width: nat, data: seq<int8>)
      requires |data| >= height * width
      modifies this
      ensures old(mapReceived) ==> unchanged(this)
      ensures !old(mapReceived) ==>
        && mapReceived && rows == height && cols == width && Valid()
        && fresh(grid) && fresh(heuristic)
        && (forall r, c :: 0 <= r < rows && 0 <= c < cols ==>
              && 0 <= MapIndex(r, c, rows) < |data|
              && grid[r, c] == data[MapIndex(r, c, rows)] && heuristic[r, c] == 0)
        && gpath == old(gpath) && sampPath == old(sampPath)
    {
      if mapReceived {
        return;
      }
      var g := LoadGrid(height, width, data);
      rows, cols := height, width;
      grid := g;
      heuristic := new int[height, width]((_, _) => 0);
      mapReceived := true;
    }

    /** get_heuristic: every cell's entry becomes its Manhattan distance to (gx, gy); nothing else changes. */
    method GetHeuristic(gx: int, gy: int)
      requires Valid()
      modifies heuristic
      ensures forall x, y :: 0 <= x < rows && 0 <= y < cols ==>
        heuristic[x, y] == Manhattan(Cell(gx, gy), Cell(x, y))
    {
      for row := 0 to rows
        invariant forall x, y :: 0 <= x < row && 0 <= y < cols ==>
          heuristic[x, y] == Manhattan(Cell(gx, gy), Cell(x, y))
      {
        for col := 0 to cols
          invariant forall x, y :: 0 <= x < row && 0 <= y < cols ==>
            heuristic[x, y] == Manhattan(Cell(gx, gy), Cell(x, y))
          invariant forall y :: 0 <= y < col ==>
            heuristic[row, y] == Manhattan(Cell(gx, gy), Cell(row, y))
        {
          heuristic[row, col] := Manhattan(Cell(gx, gy), Cell(row, col));
        }
      }
    }

    /**
     * Every generated cell other than the start records the move that reached
     * it from a generated cell whose g is one less, and is free; the start has
     * g = 0 and no move.
     */
    ghost predicate Linked(init: Cell, action: array2<int>, closedSet: set<Cell>, gOf: map<Cell, nat>)
      reads this`grid, grid, action
    {
      && gOf.Keys == closedSet
      && init in closedSet && gOf[init] == 0
      && InBounds(init, action.Length0, action.Length1) && action[init.x, init.y] == -1
      && (forall x, y {:trigger action[x, y]} ::
            0 <= x < action.Length0 && 0 <= y < action.Length1 && Cell(x, y) in closedSet && Cell(x, y) != init ==>
            && 0 <= action[x, y] < 4
            && Back(Cell(x, y), action[x, y]) in closedSet
            && gOf[Back(Cell(x, y), action[x, y])] + 1 == gOf[Cell(x, y)]
            && Free(Cell(x, y)))
    }

    /** Every open node is a generated cell with its g, its heuristic entry and f = g + h; no cell is open twice. */
    ghost predicate OpenWellFormed(open: seq<Node>, closedSet: set<Cell>, gOf: map<Cell, nat>)
      reads this`heuristic, heuristic
    {
      && (forall n :: n in open ==>
            && n.cell in closedSet && n.cell in gOf && n.g == gOf[n.cell]
            && InBounds(n.cell, heuristic.Length0, heuristic.Length1)
            && n.h == heuristic[n.cell.x, n.cell.y] && n.f == n.g + n.h)
      && (forall a, b :: 0 <= a < b < |open| ==> open[a].cell != open[b].cell)
    }

    /** The state of one search. */
    ghost predicate SearchInv(init: Cell, closed: array2<bool>, action: array2<int>,
                              open: seq<Node>, closedSet: set<Cell>, gOf: map<Cell, nat>)
      reads this, grid, heuristic, closed, action
    {
      && Valid()
      && closed.Length0 == rows && closed.Length1 == cols
      && action.Length0 == rows && action.Length1 == cols
      && ClosedMatches(closed, closedSet)
      && Linked(init, action, closedSet, gOf)
      && OpenWellFormed(open, closedSet, gOf)
    }

    /** Every free neighbour of c has been generated. */
    ghost predicate Expanded(c: Cell, closedSet: set<Cell>)
      reads this`grid, grid
    {
      forall i :: 0 <= i < 4 && Free(Neighbour(c, i)) ==> Neighbour(c, i) in closedSet
    }

    /** The free neighbours of c reached by the first k moves have been generated. */
    ghost predicate ExpandedUpTo(c: Cell, k: int, closedSet: set<Cell>)
      reads this`grid, grid
    {
      forall j :: 0 <= j < k && j < 4 && Free(Neighbour(c, j)) ==> Neighbour(c, j) in closedSet
    }

    lemma ExpandedUpToStep(c: Cell, i: int, closedSet: set<Cell>, closedSet': set<Cell>)
      requires 0 <= i < 4
      requires ExpandedUpTo(c, i, closedSet) && closedSet <= closedSet'
      requires Free(Neighbour(c, i)) ==> Neighbour(c, i) in closedSet'
      ensures ExpandedUpTo(c, i + 1, closedSet')
    {
    }

    /** Generated cells that are no longer open have been expanded, and none of them is the goal. */
    ghost predicate ClosureInv(open: seq<Node>, closedSet: set<Cell>, goal: Cell)
      reads this`grid, grid
    {
      forall c :: c in closedSet && c !in OpenCells(open) ==> Expanded(c, closedSet) && c != goal
    }

    lemma {:induction false} WalkStaysInside(closedSet: set<Cell>, p: seq<Cell>, k: nat)
      requires |p| >= 1 && p[0] in closedSet && k < |p|
      requires forall j :: 0 < j < |p| ==> Adjacent(p[j - 1], p[j]) && Free(p[j])
      requires forall c :: c in closedSet ==> Expanded(c, closedSet)
      ensures p[k] in closedSet
    {
      if k > 0 {
        WalkStaysInside(closedSet, p, k - 1);
        var i := MoveBetween(p[k - 1], p[k]);
        assert Free(Neighbour(p[k - 1], i));
      }
    }

    /**
     * A set of cells that contains the start, is closed under moves to free
     * neighbours and misses the goal leaves no free walk from start to goal.
     */
    lemma NoFreeWalk(closedSet: set<Cell>, init: Cell, goal: Cell)
      requires init in closedSet && goal !in closedSet
      requires forall c :: c in closedSet ==> Expanded(c, closedSet)
      ensures forall p :: !FreeWalk(p, init, goal)
    {
      forall p | FreeWalk(p, init, goal)
        ensures false
      {
        WalkStaysInside(closedSet, p, |p| - 1);
      }
    }

    /** Recording move i into n = Neighbour(node, i) keeps every generated cell linked to its predecessor. */
    method Record(init: Cell, action: array2<int>, ghost closedSet: set<Cell>, ghost gOf: map<Cell, nat>, node: Node, i: int)
      requires Linked(init, action, closedSet, gOf)
      requires node.cell in closedSet && node.g == gOf[node.cell]
      requires 0 <= i < 4
      requires InBounds(Neighbour(node.cell, i), action.Length0, action.Length1)
      requires Free(Neighbour(node.cell, i)) && Neighbour(node.cell, i) !in closedSet
      modifies action
      ensures var n := Neighbour(node.cell, i);
        Linked(init, action, closedSet + {n}, gOf[n := node.g + 1])
      ensures var n := Neighbour(node.cell, i);
        && action[n.x, n.y] == i
        && forall x, y :: 0 <= x < action.Length0 && 0 <= y < action.Length1 && !(x == n.x && y == n.y) ==>
             action[x, y] == old(action[x, y])
    {
      var n := Neighbour(node.cell, i);
      action[n.x, n.y] := i;
      assert Back(n, i) == node.cell;
    }

    lemma OpenAppend(open: seq<Node>, closedSet: set<Cell>, gOf: map<Cell, nat>, n: Cell, g: nat)
      requires OpenWellFormed(open, closedSet, gOf) && n !in closedSet
      requires InBounds(n, heuristic.Length0, heuristic.Length1)
      ensures OpenWellFormed(open + [Node(g + heuristic[n.x, n.y], g, heuristic[n.x, n.y], n)],
                             closedSet + {n}, gOf[n := g])
    {
      forall m | m in open
        ensures m.cell != n
      {
      }
    }

    /** Generating one successor n of node by move i: it is closed, records the move and joins the open list. */
    method Generate(init: Cell, node: Node, i: int, closed: array2<bool>, action: array2<int>,
                    open: seq<Node>, ghost closedSet: set<Cell>, ghost gOf: map<Cell, nat>)
      returns (open': seq<Node>, ghost closedSet': set<Cell>, ghost gOf': map<Cell, nat>)
      requires action != heuristic
      requires SearchInv(init, closed, action, open, closedSet, gOf)
      requires node.cell in closedSet && node.g == gOf[node.cell]
      requires 0 <= i < 4 && Free(Neighbour(node.cell, i)) && Neighbour(node.cell, i) !in closedSet
      modifies closed, action
      ensures SearchInv(init, closed, action, open', closedSet', gOf')
      ensures var n := Neighbour(node.cell, i);
        && closedSet' == closedSet + {n} && gOf' == gOf[n := node.g + 1]
        && open' == open + [Node(node.g + 1 + heuristic[n.x, n.y], node.g + 1, heuristic[n.x, n.y], n)]
        && action[n.x, n.y] == i
    {
      var n := Neighbour(node.cell, i);
      var g2 := node.g + 1;
      var h2 := heuristic[n.x, n.y];
      OpenAppend(open, closedSet, gOf, n, g2);
      open' := open + [Node(g2 + h2, g2, h2, n)];
      Close(closed, closedSet, n);
      Record(init, action, closedSet, gOf, node, i);
      closedSet' := closedSet + {n};
      gOf' := gOf[n := g2];
    }

    /** After expanding node, the closure invariant holds again. */
    lemma ClosureAfterExpand(node: Cell, goal: Cell, open: seq<Node>, open': seq<Node>,
                             closedSet: set<Cell>, closedSet': set<Cell>)
      requires node != goal
      requires forall c :: c in closedSet && c !in OpenCells(open) && c != node ==>
        Expanded(c, closedSet) && c != goal
      requires closedSet <= closedSet'
      requires OpenCells(open) <= OpenCells(open') && closedSet' - closedSet <= OpenCells(open')
      requires Expanded(node, closedSet')
      ensures ClosureInv(open', closedSet', goal)
    {
      forall c | c in closedSet' && c !in OpenCells(open')
        ensures Expanded(c, closedSet') && c != goal
      {
        if c != node {
          assert Expanded(c, closedSet);
        }
      }
    }

    /** The bookkeeping of one expansion after some of node's moves have been tried. */
    ghost predicate ExpandProgress(node: Node, open: seq<Node>, open': seq<Node>,
                                   closedSet: set<Cell>, closedSet': set<Cell>, gOf': map<Cell, nat>)
      reads this`rows, this`cols
    {
      && closedSet <= closedSet'
      && |open'| - |open| == |closedSet'| - |closedSet| && |closedSet'| <= rows * cols
      && |open'| >= |open|
      && OpenCells(open) <= OpenCells(open')
      && closedSet' - closedSet <= OpenCells(open')
      && node.cell !in OpenCells(open') && node.cell in gOf' && gOf'[node.cell] == node.g
    }

    /** Generating one more cell keeps the expansion bookkeeping. */
    lemma ProgressAfterGenerate(node: Node, open: seq<Node>, open': seq<Node>, closedSet: set<Cell>,
                                closedSet': set<Cell>, gOf': map<Cell, nat>, m: Node, g: nat)
      requires ExpandProgress(node, open, open', closedSet, closedSet', gOf')
      requires m.cell != node.cell && m.cell !in closedSet'
      requires |closedSet' + {m.cell}| <= rows * cols
      ensures ExpandProgress(node, open, open' + [m], closedSet, closedSet' + {m.cell}, gOf'[m.cell := g])
    {
      OpenCellsAppend(open', m);
    }

    /** Trying move i from node: generate the neighbour when it is on the grid, not closed and free. */
    method TryMove(init: Cell, node: Node, i: int, closed: array2<bool>, action: array2<int>,
                   ghost open: seq<Node>, ghost closedSet: set<Cell>,
                   open': seq<Node>, ghost closedSet': set<Cell>, ghost gOf': map<Cell, nat>)
      returns (open'': seq<Node>, ghost closedSet'': set<Cell>, ghost gOf'': map<Cell, nat>)
      requires action != heuristic && 0 <= i < 4
      requires SearchInv(init, closed, action, open', closedSet', gOf')
      requires ExpandProgress(node, open, open', closedSet, closedSet', gOf')
      requires ExpandedUpTo(node.cell, i, closedSet')
      modifies closed, action
      ensures SearchInv(init, closed, action, open'', closedSet'', gOf'')
      ensures ExpandProgress(node, open, open'', closedSet, closedSet'', gOf'')
      ensures ExpandedUpTo(node.cell, i + 1, closedSet'')
    {
      var n := Neighbour(node.cell, i);
      if 0 <= n.x < rows && 0 <= n.y < cols && !closed[n.x, n.y] && grid[n.x, n.y] == 0 {
        open'', closedSet'', gOf'' := Advance(init, node, i, closed, action, open, closedSet, open', closedSet', gOf');
      } else {
        open'', closedSet'', gOf'' := open', closedSet', gOf';
        SkipMove(node.cell, i, closed, closedSet');
      }
    }

    /** A move that generates nothing leaves the expansion one move further on. */
    lemma SkipMove(c: Cell, i: int, closed: array2<bool>, closedSet: set<Cell>)
      requires 0 <= i < 4 && ExpandedUpTo(c, i, closedSet)
      requires ClosedMatches(closed, closedSet) && closed.Length0 == grid.Length0 && closed.Length1 == grid.Length1
      requires var n := Neighbour(c, i);
        !(InBounds(n, grid.Length0, grid.Length1) && !closed[n.x, n.y] && grid[n.x, n.y] == 0)
      ensures ExpandedUpTo(c, i + 1, closedSet)
    {
      var n := Neighbour(c, i);
      if Free(n) {
        assert closed[n.x, n.y];
      }
      ExpandedUpToStep(c, i, closedSet, closedSet);
    }

    /** A move that generates its neighbour: Generate, with the expansion bookkeeping carried along. */
    method Advance(init: Cell, node: Node, i: int, closed: array2<bool>, action: array2<int>,
                   ghost open: seq<Node>, ghost closedSet: set<Cell>,
                   open': seq<Node>, ghost closedSet': set<Cell>, ghost gOf': map<Cell, nat>)
      returns (open'': seq<Node>, ghost closedSet'': set<Cell>, ghost gOf'': map<Cell, nat>)
      requires action != heuristic && 0 <= i < 4
      requires SearchInv(init, closed, action, open', closedSet', gOf')
      requires ExpandProgress(node, open, open', closedSet, closedSet', gOf')
      requires ExpandedUpTo(node.cell, i, closedSet')
      requires Free(Neighbour(node.cell, i)) && Neighbour(node.cell, i) !in closedSet'
      modifies closed, action
      ensures SearchInv(init, closed, action, open'', closedSet'', gOf'')
      ensures ExpandProgress(node, open, open'', closedSet, closedSet'', gOf'')
      ensures ExpandedUpTo(node.cell, i + 1, closedSet'')
    {
      open'', closedSet'', gOf'' := Generate(init, node, i, closed, action, open', closedSet', gOf');
      CellSetBound(closedSet'', rows, cols);
      ProgressAfterGenerate(node, open, open', closedSet, closedSet', gOf', open''[|open''| - 1], node.g + 1);
      ExpandedUpToStep(node.cell, i, closedSet', closedSet'');
    }

    /** The expansion step: generate every free, not yet closed neighbour of node. */
    method Expand(init: Cell, goal: Cell, node: Node, closed: array2<bool>, action: array2<int>,
                  open: seq<Node>, ghost closedSet: set<Cell>, ghost gOf: map<Cell, nat>)
      returns (open': seq<Node>, ghost closedSet': set<Cell>, ghost gOf': map<Cell, nat>)
      requires action != heuristic
      requires SearchInv(init, closed, action, open, closedSet, gOf)
      requires node.cell in closedSet && node.g == gOf[node.cell] && node.cell != goal
      requires node.cell !in OpenCells(open)
      requires forall c :: c in closedSet && c !in OpenCells(open) && c != node.cell ==>
        Expanded(c, closedSet) && c != goal
      requires |closedSet| <= rows * cols
      modifies closed, action
      ensures SearchInv(init, closed, action, open', closedSet', gOf')
      ensures ClosureInv(open', closedSet', goal)
      ensures node.cell !in OpenCells(open') && Expanded(node.cell, closedSet')
      ensures closedSet <= closedSet'
      ensures |open'| - |open| == |closedSet'| - |closedSet| && |closedSet| <= |closedSet'| <= rows * cols
    {
      open', closedSet', gOf' := open, closedSet, gOf;
      for i := 0 to 4
        invariant SearchInv(init, closed, action, open', closedSet', gOf')
        invariant ExpandProgress(node, open, open', closedSet, closedSet', gOf')
        invariant ExpandedUpTo(node.cell, i, closedSet')
      {
        open', closedSet', gOf' := TryMove(init, node, i, closed, action, open, closedSet, open', closedSet', gOf');
      }
      ClosureAfterExpand(node.cell, goal, open, open', closedSet, closedSet');
    }

    /**
     * The search loop of search_path: repeatedly pop a node of least f; stop
     * with success when it is the goal, with failure when the open list runs
     * empty, and otherwise expand it. On failure the goal is unreachable by
     * any free walk. The goal is only compared with popped cells, so it may lie
     * off the grid; it is then never generated and the search fails.
     */
    method Search(init: Cell, goal: Cell)
      returns (found: bool, action: array2<int>, ghost closedSet: set<Cell>, ghost gOf: map<Cell, nat>, ghost pops: nat)
      requires Valid()
      requires InBounds(init, rows, cols)
      ensures fresh(action) && action.Length0 == rows && action.Length1 == cols
      ensures Linked(init, action, closedSet, gOf)
      ensures forall c :: c in closedSet ==> InBounds(c, rows, cols)
      ensures pops <= |closedSet| <= rows * cols
      ensures found ==> goal in closedSet
      ensures !found ==> forall p :: !FreeWalk(p, init, goal)
    {
      var closed, open;
      closed, action, open, closedSet, gOf := Start(init, goal);
      pops := 0;
      found := false;
      ghost var cells := rows * cols;
      while !found
        invariant SearchInv(init, closed, action, open, closedSet, gOf)
        invariant pops + |open| == |closedSet| <= cells
        invariant !found ==> ClosureInv(open, closedSet, goal)
        invariant found ==> goal in closedSet
        decreases cells - |closedSet|, |open|
      {
        if |open| == 0 {
          NoFreeWalk(closedSet, init, goal);
          return;
        }
        found, open, closedSet, gOf := Step(init, goal, closed, action, open, closedSet, gOf);
        pops := pops + 1;
      }
    }

    /** The initial search state: only the start is closed, with g = 0, and it is the only open node. */
    method Start(init: Cell, goal: Cell)
      returns (closed: array2<bool>, action: array2<int>, open: seq<Node>,
               ghost closedSet: set<Cell>, ghost gOf: map<Cell, nat>)
      requires Valid()
      requires InBounds(init, rows, cols)
      ensures fresh(closed) && fresh(action)
      ensures SearchInv(init, closed, action, open, closedSet, gOf)
      ensures ClosureInv(open, closedSet, goal)
      ensures closedSet == {init} && gOf == map[init := 0]
      ensures open == [Node(heuristic[init.x, init.y], 0, heuristic[init.x, init.y], init)]
      ensures |open| == |closedSet| <= rows * cols
    {
      closed := new bool[rows, cols]((_, _) => false);
      assert ClosedMatches(closed, {});
      Close(closed, {}, init);
      action := new int[rows, cols]((_, _) => -1);
      var h := heuristic[init.x, init.y];
      open := [Node(h, 0, h, init)];
      closedSet := {init};
      gOf := map[init := 0];
      assert Linked(init, action, closedSet, gOf);
      assert OpenWellFormed(open, closedSet, gOf);
      CellSetBound(closedSet, rows, cols);
      assert OpenCells(open) == {init} by {
        OpenCellsAppend([], open[0]);
      }
    }

    /** One iteration of the search loop on a non-empty open list: pop a node of least f, then stop at the goal or expand it. */
    method Step(init: Cell, goal: Cell, closed: array2<bool>, action: array2<int>,
                open: seq<Node>, ghost closedSet: set<Cell>, ghost gOf: map<Cell, nat>)
      returns (found: bool, open': seq<Node>, ghost closedSet': set<Cell>, ghost gOf': map<Cell, nat>)
      requires action != heuristic && |open| > 0
      requires SearchInv(init, closed, action, open, closedSet, gOf)
      requires ClosureInv(open, closedSet, goal)
      requires |closedSet| <= rows * cols
      modifies closed, action
      ensures SearchInv(init, closed, action, open', closedSet', gOf')
      ensures |open'| + 1 - |open| == |closedSet'| - |closedSet| && |closedSet| <= |closedSet'| <= rows * cols
      ensures !found ==> ClosureInv(open', closedSet', goal)
      ensures found ==> goal in closedSet'
    {
      var k := MinIndex(open);
      var node := open[k];
      open' := RemoveAt(open, k);
      closedSet', gOf' := closedSet, gOf;
      OpenCellsRemove(open, k);
      if node.cell == goal {
        found := true;
      } else {
        found := false;
        open', closedSet', gOf' := Expand(init, goal, node, closed, action, open', closedSet', gOf');
      }
    }

    /**
     * The reconstruction of search_path: walk back from the goal along the
     * recorded moves to the start, giving every pose the heading of the move
     * out of it and the goal pose the heading of the move into it.
     */
    method Reconstruct(init: Cell, goal: Cell, action: array2<int>, ghost closedSet: set<Cell>, ghost gOf: map<Cell, nat>)
      returns (seg: seq<Pose>)
      requires action.Length0 == rows && action.Length1 == cols
      requires Linked(init, action, closedSet, gOf)
      requires forall c :: c in closedSet ==> InBounds(c, rows, cols)
      requires goal in closedSet && InBounds(goal, rows, cols)
      ensures IsSegment(seg, init, goal) && |seg| == gOf[goal] + 1
      ensures GoalHeadingAsWritten(action[goal.x, goal.y]).None? <==> init == goal
    {
      var ga := action[goal.x, goal.y];
      var cur := goal;
      seg := [Pose(goal, GoalHeading(ga))];
      while cur != init
        invariant cur in closedSet
        invariant |seg| >= 1 && seg[0].cell == cur && seg[|seg| - 1].cell == goal
        invariant |seg| == gOf[goal] - gOf[cur] + 1
        invariant |seg| == 1 ==> cur == goal
        invariant seg[|seg| - 1].heading == GoalHeading(ga)
        invariant |seg| >= 2 ==> seg[|seg| - 2].heading == Move(ga)
        invariant forall k :: 0 <= k < |seg| - 1 ==>
          && seg[k].heading.Move? && 0 <= seg[k].heading.index < 4
          && seg[k + 1].cell == Neighbour(seg[k].cell, seg[k].heading.index)
        invariant forall k :: 0 < k < |seg| ==> seg[k].cell in closedSet && seg[k].cell != init
        decreases gOf[cur]
      {
        var a := action[cur.x, cur.y];
        var prev := Back(cur, a);
        seg := [Pose(prev, Move(a))] + seg;
        cur := prev;
      }
      forall k | 0 < k < |seg|
        ensures Free(seg[k].cell)
      {
        var c := seg[k].cell;
        assert InBounds(c, rows, cols) && Cell(c.x, c.y) == c;
        assert 0 <= action[c.x, c.y] < 4;
      }
    }

    /**
     * search_path on start and goal cells. On success the segment from start
     * to goal is appended to the accumulated path and the path is resampled;
     * on failure nothing but the heuristic table changes, and no free walk
     * joins start and goal. Only the start cell must lie on the grid: the goal
     * is indexed only after it has been generated.
     */
    method SearchPath(init: Cell, goal: Cell) returns (found: bool)
      requires Valid()
      requires InBounds(init, rows, cols)
      modifies this`gpath, this`sampPath, heuristic
      ensures forall x, y :: 0 <= x < rows && 0 <= y < cols ==>
        heuristic[x, y] == Manhattan(goal, Cell(x, y))
      ensures !found ==> gpath == old(gpath) && sampPath == old(sampPath)
      ensures !found ==> forall p :: !FreeWalk(p, init, goal)
      ensures found ==>
        && |gpath| > |old(gpath)| && gpath[..|old(gpath)|] == old(gpath)
        && IsSegment(gpath[|old(gpath)|..], init, goal)
        && sampPath == Sampled(gpath)
    {
      GetHeuristic(goal.x, goal.y);
      var action;
      ghost var closedSet, gOf, pops;
      found, action, closedSet, gOf, pops := Search(init, goal);
      if !found {
        return;
      }
      var seg := Reconstruct(init, goal, action, closedSet, gOf);
      AppendSegment(seg);
    }

    /** Appending a segment to the accumulated path and resampling it. */
    method AppendSegment(seg: seq<Pose>)
      modifies this`gpath, this`sampPath
      ensures gpath == old(gpath) + seg && sampPath == Sampled(gpath)
    {
      gpath := gpath + seg;
      SamplingPath();
    }

    /**
     * sampling_path, with the two corrections recorded in the findings: the
     * bearing looks at most to the last pose, and the final pose is appended
     * by the iteration that reaches the end.
     */
    method SamplingPath()
      modifies this`sampPath
      ensures sampPath == Sampled(gpath)
    {
      sampPath := [];
      var n := |gpath|;
      var i := 0;
      while i < n
        invariant sampPath + SampleFrom(gpath, i) == Sampled(gpath)
        decreases n - i
      {
        var ahead := Min(i + Stride, n - 1);
        var p := Pose(gpath[i].cell, Bearing(gpath[i].cell, gpath[ahead].cell));
        sampPath := sampPath + [p];
        if i + Stride >= n {
          sampPath := sampPath + [Pose(gpath[n - 1].cell, p.heading)];
        }
        i := i + Stride;
      }
    }
  }
}
