/**
 * Cells of the lattice (class Node of pathfinding.py), the Manhattan
 * heuristic and the 4-connected neighbour computation.
 */
module Nodes {

  /** The state tag of a cell; the source stores it as an RGB colour. */
  datatype Color = Empty | Start | End | Barrier | Open | Closed | Path

  /** A coordinate pair as the source passes it around. */
  type Pos = (int, int)

  function Abs(v: int): nat { if v < 0 then -v else v }

  /** Manhattan distance between two coordinate pairs (`h`). */
  function H(p1: Pos, p2: Pos): (d: nat)
    ensures d == 0 <==> p1 == p2
  {
    Abs(p1.0 - p2.0) + Abs(p1.1 - p2.1)
  }

  lemma HSymmetric(p1: Pos, p2: Pos)
    ensures H(p1, p2) == H(p2, p1)
  {
  }

  /** The heuristic is consistent: it changes by at most one along a unit step. */
  lemma HConsistent(a: Pos, b: Pos, goal: Pos)
    requires H(a, b) == 1
    ensures H(a, goal) <= H(b, goal) + 1 && H(b, goal) <= H(a, goal) + 1
  {
  }

  /** Swapping the two axes of both arguments leaves the distance unchanged. */
  lemma HSwapInvariant(p: Pos, q: Pos)
    ensures H((p.1, p.0), (q.1, q.0)) == H(p, q)
  {
  }

  /** Python's floor division `a // b`: Dafny's `/` is Euclidean, which differs for b < 0. */
  function FloorDiv(a: int, b: int): (q: int)
    requires b != 0
    ensures b > 0 ==> b * q <= a < b * q + b
    ensures b < 0 ==> b * q + b < a <= b * q
  {
    if b > 0 then a / b else (-a) / (-b)
  }

  /** A cell is at `grid[row][col]`; its row, column and sizes never change after construction. */
  class Node {
    const row: int
    const col: int
    const width: int
    const totalRows: int
    const x: int
    const y: int
    var neighbors: seq<Node>
    var color: Color

    constructor (row: int, col: int, nodeWidth: int, totalRows: int)
      ensures this.row == row && this.col == col
      ensures width == nodeWidth && this.totalRows == totalRows
      ensures x == row * nodeWidth && y == col * nodeWidth
      ensures neighbors == [] && color == Empty
    {
      this.row := row;
      this.col := col;
      width := nodeWidth;
      this.totalRows := totalRows;
      x := row * nodeWidth;
      y := col * nodeWidth;
      neighbors := [];
      color := Empty;
    }

    /** The position accessor in effect: the later of its two definitions, which yields (col, row). */
    function GetPos(): Pos { (col, row) }

    predicate IsClosed() reads this`color { color == Closed }
    predicate IsOpen() reads this`color { color == Open }
    predicate IsBarrier() reads this`color { color == Barrier }
    predicate IsStart() reads this`color { color == Start }
    predicate IsEnd() reads this`color { color == End }
    predicate IsEmpty() reads this`color { color == Empty }

    method MakeClosed()
      modifies this`color
      ensures color == Closed && IsClosed()
    {
      color := Closed;
    }

    method MakeOpen()
      modifies this`color
      ensures color == Open && IsOpen()
    {
      color := Open;
    }

    method MakeBarrier()
      modifies this`color
      ensures color == Barrier && IsBarrier()
    {
      color := Barrier;
    }

    method MakeStart()
      modifies this`color
      ensures color == Start && IsStart()
    {
      color := Start;
    }

    method MakeEnd()
      modifies this`color
      ensures color == End && IsEnd()
    {
      color := End;
    }

    method MakePath()
      modifies this`color
      ensures color == Path
      ensures !IsClosed() && !IsOpen() && !IsBarrier() && !IsStart() && !IsEnd() && !IsEmpty()
    {
      color := Path;
    }

    method Delete()
      modifies this`color
      ensures color == Empty && IsEmpty()
    {
      color := Empty;
    }

    /**
     * `update_neighbors`: rebuilds the neighbour list from scratch. The
     * source resets the list and appends to it; here the list is built
     * first and stored once, which no reader can tell apart.
     */
    method UpdateNeighbors(grid: seq<seq<Node>>)
      requires ValidGrid(grid)
      requires totalRows == |grid| && 0 <= row < |grid| && 0 <= col < |grid|
      modifies this`neighbors
      ensures neighbors == NeighborsOf(grid, row, col)
      ensures old(neighbors == NeighborsOf(grid, row, col)) ==> neighbors == old(neighbors)
    {
      var ns := CollectNeighbors(grid);
      neighbors := ns;
    }

    /** The appends of `update_neighbors`: Down, Up, Right, Left, each kept when inside the bounds the source tests and not a Barrier. */
    method CollectNeighbors(grid: seq<seq<Node>>) returns (ns: seq<Node>)
      requires ValidGrid(grid)
      requires totalRows == |grid| && 0 <= row < |grid| && 0 <= col < |grid|
      ensures ns == NeighborsOf(grid, row, col)
    {
      var n := totalRows;
      ghost var t := Tests(grid, row, col);
      ns := [];
      if row < n - 1 && !grid[row + 1][col].IsBarrier() {
        ns := ns + [grid[row + 1][col]];
      }
      assert ns == Step(grid, t.0, row + 1, col);
      if row > 1 && !grid[row - 1][col].IsBarrier() {
        ns := ns + [grid[row - 1][col]];
      }
      assert ns == Step(grid, t.0, row + 1, col) + Step(grid, t.1, row - 1, col);
      if col < n - 1 && !grid[row][col + 1].IsBarrier() {
        ns := ns + [grid[row][col + 1]];
      }
      assert ns == Step(grid, t.0, row + 1, col) + Step(grid, t.1, row - 1, col) + Step(grid, t.2, row, col + 1);
      if col > 1 && !grid[row][col - 1].IsBarrier() {
        ns := ns + [grid[row][col - 1]];
      }
    }
  }

  /** Exactly one state test holds of every cell. */
  lemma StateTestsExclusive(n: Node)
    ensures n.IsClosed() || n.IsOpen() || n.IsBarrier() || n.IsStart() || n.IsEnd() || n.IsEmpty() || n.color == Path
    ensures n.IsClosed() ==> !n.IsOpen() && !n.IsBarrier() && !n.IsStart() && !n.IsEnd() && !n.IsEmpty()
    ensures n.IsOpen() ==> !n.IsBarrier() && !n.IsStart() && !n.IsEnd() && !n.IsEmpty()
    ensures n.IsBarrier() ==> !n.IsStart() && !n.IsEnd() && !n.IsEmpty()
    ensures n.IsStart() ==> !n.IsEnd() && !n.IsEmpty()
    ensures n.IsEnd() ==> !n.IsEmpty()
  {
  }

  /** Both distance functions agree whichever axis order the accessor uses. */
  lemma HOfNodes(a: Node, b: Node)
    ensures H(a.GetPos(), b.GetPos()) == H((a.row, a.col), (b.row, b.col))
  {
    HSwapInvariant((a.row, a.col), (b.row, b.col));
  }

  /** Every cell of a grid. */
  ghost function Cells(grid: seq<seq<Node>>): set<Node>
  {
    set r, c | 0 <= r < |grid| && 0 <= c < |grid[r]| :: grid[r][c]
  }

  /** A square grid whose cells know their own position and the grid size. */
  ghost predicate ValidGrid(grid: seq<seq<Node>>)
  {
    (forall r :: 0 <= r < |grid| ==> |grid[r]| == |grid|)
    && (forall r, c :: 0 <= r < |grid| && 0 <= c < |grid[r]| ==>
          grid[r][c].row == r && grid[r][c].col == c && grid[r][c].totalRows == |grid|)
  }

  /**
   * Adjacency on positions of an n-by-n lattice as the source tests it:
   * the Up and Left steps demand an index above 1, not above 0.
   */
  predicate Adjacent(n: int, r: int, c: int, rr: int, cc: int)
  {
    (rr == r + 1 && cc == c && r < n - 1)
    || (rr == r - 1 && cc == c && r > 1)
    || (rr == r && cc == c + 1 && c < n - 1)
    || (rr == r && cc == c - 1 && c > 1)
  }

  /** What `Adjacent` means: a unit step inside the lattice, except into index 0 from index 1. */
  lemma AdjacentCharacterization(n: int, r: int, c: int, rr: int, cc: int)
    requires 0 <= r < n && 0 <= c < n
    ensures Adjacent(n, r, c, rr, cc) <==>
      (0 <= rr < n && 0 <= cc < n && H((r, c), (rr, cc)) == 1
       && !(r == 1 && rr == 0) && !(c == 1 && cc == 0))
  {
  }

  /** The bound quirk breaks symmetry at row 0 and column 0. */
  lemma AdjacencyAsymmetric(n: int)
    requires n >= 2
    ensures Adjacent(n, 0, 0, 1, 0) && !Adjacent(n, 1, 0, 0, 0)
    ensures Adjacent(n, 0, 0, 0, 1) && !Adjacent(n, 0, 1, 0, 0)
  {
  }

  /** Away from row 0 and column 0 adjacency is symmetric. */
  lemma AdjacentSymmetricInterior(n: int, r: int, c: int, rr: int, cc: int)
    requires 1 <= r < n && 1 <= c < n && 1 <= rr < n && 1 <= cc < n
    ensures Adjacent(n, r, c, rr, cc) <==> Adjacent(n, rr, cc, r, c)
  {
  }

  /** Position of a step in the order the source tries them: Down, Up, Right, Left. */
  function DirRank(r: int, c: int, rr: int, cc: int): nat
  {
    if rr == r + 1 then 0 else if rr == r - 1 then 1 else if cc == c + 1 then 2 else 3
  }

  /** The cells `update_neighbors` may look at for the cell at (r, c): its unit steps, clamped to the lattice. */
  ghost function Around(grid: seq<seq<Node>>, r: int, c: int): set<Node>
    requires ValidGrid(grid) && 0 <= r < |grid| && 0 <= c < |grid|
  {
    var n := |grid|;
    var up, down, left, right := if r > 0 then r - 1 else r, if r < n - 1 then r + 1 else r,
                                 if c > 0 then c - 1 else c, if c < n - 1 then c + 1 else c;
    {grid[down][c], grid[up][c], grid[r][right], grid[r][left]}
  }

  /** A passed test implies the bounds test of its direction. */
  predicate Fits(n: int, r: int, c: int, t: (bool, bool, bool, bool))
  {
    (t.0 ==> r < n - 1) && (t.1 ==> r > 1) && (t.2 ==> c < n - 1) && (t.3 ==> c > 1)
  }

  /** The current colour of every node of a set. */
  ghost function ColorsOf(s: set<Node>): (m: map<Node, Color>)
    reads s`color
    ensures m.Keys == s && forall n :: n in s ==> m[n] == n.color
  {
    map n | n in s :: n.color
  }

  /**
   * The four tests of `update_neighbors` for the cell at (r, c) under the
   * colours `colors`, in the order Down, Up, Right, Left: inside the bounds
   * it tests and not a Barrier.
   */
  function TestsIn(grid: seq<seq<Node>>, colors: map<Node, Color>, r: int, c: int): (t: (bool, bool, bool, bool))
    requires ValidGrid(grid) && 0 <= r < |grid| && 0 <= c < |grid|
    ensures Fits(|grid|, r, c, t)
  {
    var n := |grid|;
    (r < n - 1 && Passable(colors, grid[r + 1][c]),
     r > 1 && Passable(colors, grid[r - 1][c]),
     c < n - 1 && Passable(colors, grid[r][c + 1]),
     c > 1 && Passable(colors, grid[r][c - 1]))
  }

  /** A node recorded in `colors` with a colour other than Barrier. */
  predicate Passable(colors: map<Node, Color>, n: Node)
  {
    n in colors && colors[n] != Barrier
  }

  /** The four tests under the cells' current colours. */
  ghost function Tests(grid: seq<seq<Node>>, r: int, c: int): (t: (bool, bool, bool, bool))
    requires ValidGrid(grid) && 0 <= r < |grid| && 0 <= c < |grid|
    reads Around(grid, r, c)`color
    ensures Fits(|grid|, r, c, t)
  {
    TestsIn(grid, ColorsOf(Around(grid, r, c)), r, c)
  }

  /** The one-element list for a passed test, else the empty list. */
  function Step(grid: seq<seq<Node>>, pass: bool, r: int, c: int): seq<Node>
    requires pass ==> 0 <= r < |grid| && 0 <= c < |grid[r]|
  {
    if pass then [grid[r][c]] else []
  }

  /** The list made from the four test outcomes, in test order. */
  function Collect(grid: seq<seq<Node>>, r: int, c: int, t: (bool, bool, bool, bool)): seq<Node>
    requires ValidGrid(grid) && 0 <= r < |grid| && 0 <= c < |grid| && Fits(|grid|, r, c, t)
  {
    Step(grid, t.0, r + 1, c) + Step(grid, t.1, r - 1, c) + Step(grid, t.2, r, c + 1) + Step(grid, t.3, r, c - 1)
  }

  /** The neighbour list `update_neighbors` builds for the cell at (r, c) under the colours `colors`. */
  function NeighborsIn(grid: seq<seq<Node>>, colors: map<Node, Color>, r: int, c: int): seq<Node>
    requires ValidGrid(grid) && 0 <= r < |grid| && 0 <= c < |grid|
  {
    Collect(grid, r, c, TestsIn(grid, colors, r, c))
  }

  /** The neighbour list `update_neighbors` builds for the cell at (r, c). */
  ghost function NeighborsOf(grid: seq<seq<Node>>, r: int, c: int): (ns: seq<Node>)
    requires ValidGrid(grid) && 0 <= r < |grid| && 0 <= c < |grid|
    reads Around(grid, r, c)`color
    ensures |ns| <= 4
  {
    Collect(grid, r, c, Tests(grid, r, c))
  }

  /** `colors` records the colour of every cell of the grid. */
  ghost predicate ColorsAre(grid: seq<seq<Node>>, colors: map<Node, Color>)
    reads Cells(grid)`color
  {
    forall i, j :: 0 <= i < |grid| && 0 <= j < |grid[i]| ==> grid[i][j] in colors && colors[grid[i][j]] == grid[i][j].color
  }

  /** Under a faithful record of the colours, both descriptions of the list agree. */
  lemma NeighborsAgree(grid: seq<seq<Node>>, colors: map<Node, Color>, r: int, c: int)
    requires ValidGrid(grid) && 0 <= r < |grid| && 0 <= c < |grid| && ColorsAre(grid, colors)
    ensures NeighborsOf(grid, r, c) == NeighborsIn(grid, colors, r, c)
  {
    assert TestsIn(grid, colors, r, c) == Tests(grid, r, c);
  }

  /** `colors` records exactly which cells of the grid are Barriers, whatever the other colours. */
  ghost predicate SameBarriers(grid: seq<seq<Node>>, colors: map<Node, Color>)
    reads Cells(grid)`color
  {
    forall i, j :: 0 <= i < |grid| && 0 <= j < |grid[i]| ==>
      (Passable(colors, grid[i][j]) <==> grid[i][j].color != Barrier)
  }

  /** The list depends only on which cells are Barriers. */
  lemma NeighborsBarriersOnly(grid: seq<seq<Node>>, c1: map<Node, Color>, c2: map<Node, Color>, r: int, c: int)
    requires ValidGrid(grid) && 0 <= r < |grid| && 0 <= c < |grid|
    requires forall i, j :: 0 <= i < |grid| && 0 <= j < |grid| ==> (Passable(c1, grid[i][j]) <==> Passable(c2, grid[i][j]))
    ensures NeighborsIn(grid, c1, r, c) == NeighborsIn(grid, c2, r, c)
  {
  }

  /**
   * A list built under colours that mark the same Barriers as the current
   * ones is the list `update_neighbors` would build now: recolouring cells
   * Open, Closed or Path does not make a list stale.
   */
  lemma CellListCurrent(grid: seq<seq<Node>>, built: map<Node, Color>, r: int, c: int)
    requires ValidGrid(grid) && 0 <= r < |grid| && 0 <= c < |grid| && SameBarriers(grid, built)
    ensures NeighborsIn(grid, built, r, c) == NeighborsOf(grid, r, c)
  {
    var colors := ColorsOf(Cells(grid));
    assert ColorsAre(grid, colors);
    NeighborsAgree(grid, colors, r, c);
    NeighborsBarriersOnly(grid, built, colors, r, c);
  }

  /** Each listed neighbour is a non-barrier cell of the grid one step away in a direction whose bound holds. */
  lemma NeighborsSound(grid: seq<seq<Node>>, r: int, c: int, i: int)
    requires ValidGrid(grid) && 0 <= r < |grid| && 0 <= c < |grid|
    requires 0 <= i < |NeighborsOf(grid, r, c)|
    ensures var b := NeighborsOf(grid, r, c)[i];
      b in Cells(grid) && b.color != Barrier && Adjacent(|grid|, r, c, b.row, b.col)
      && b == grid[b.row][b.col]
  {
    var t := Tests(grid, r, c);
    var d, u, rt, l := Step(grid, t.0, r + 1, c), Step(grid, t.1, r - 1, c),
                       Step(grid, t.2, r, c + 1), Step(grid, t.3, r, c - 1);
    var ns := d + u + rt + l;
    assert ns == NeighborsOf(grid, r, c);
    var b := ns[i];
    if i < |d| {
      assert b == d[0];
    } else if i < |d| + |u| {
      assert b == u[0];
    } else if i < |d| + |u| + |rt| {
      assert b == rt[0];
    } else {
      assert b == l[0];
    }
  }

  /** Every non-barrier cell one step away in a direction whose bound holds is listed. */
  lemma NeighborsComplete(grid: seq<seq<Node>>, r: int, c: int, rr: int, cc: int)
    requires ValidGrid(grid) && 0 <= r < |grid| && 0 <= c < |grid|
    requires 0 <= rr < |grid| && 0 <= cc < |grid| && Adjacent(|grid|, r, c, rr, cc)
    requires grid[rr][cc].color != Barrier
    ensures grid[rr][cc] in NeighborsOf(grid, r, c)
  {
    var t := Tests(grid, r, c);
    var d, u, rt, l := Step(grid, t.0, r + 1, c), Step(grid, t.1, r - 1, c),
                       Step(grid, t.2, r, c + 1), Step(grid, t.3, r, c - 1);
    assert d + u + rt + l == NeighborsOf(grid, r, c);
    if rr == r + 1 {
      assert grid[rr][cc] in d;
    } else if rr == r - 1 {
      assert grid[rr][cc] in u;
    } else if cc == c + 1 {
      assert grid[rr][cc] in rt;
    } else {
      assert grid[rr][cc] in l;
    }
  }

  /** The list follows the order Down, Up, Right, Left, so it has no repeats. */
  lemma NeighborsOrdered(grid: seq<seq<Node>>, r: int, c: int, i: int, j: int)
    requires ValidGrid(grid) && 0 <= r < |grid| && 0 <= c < |grid|
    requires 0 <= i < j < |NeighborsOf(grid, r, c)|
    ensures var ns := NeighborsOf(grid, r, c);
      DirRank(r, c, ns[i].row, ns[i].col) < DirRank(r, c, ns[j].row, ns[j].col)
  {
    var t := Tests(grid, r, c);
    var d, u, rt, l := Step(grid, t.0, r + 1, c), Step(grid, t.1, r - 1, c),
                       Step(grid, t.2, r, c + 1), Step(grid, t.3, r, c - 1);
    var ns := d + u + rt + l;
    assert ns == NeighborsOf(grid, r, c);
    assert forall k :: 0 <= k < |d| ==> ns[k] == d[0] && DirRank(r, c, ns[k].row, ns[k].col) == 0;
    assert forall k :: |d| <= k < |d| + |u| ==> ns[k] == u[0] && DirRank(r, c, ns[k].row, ns[k].col) == 1;
    assert forall k :: |d| + |u| <= k < |d| + |u| + |rt| ==>
      ns[k] == rt[0] && DirRank(r, c, ns[k].row, ns[k].col) == 2;
    assert forall k :: |d| + |u| + |rt| <= k < |ns| ==>
      ns[k] == l[0] && DirRank(r, c, ns[k].row, ns[k].col) == 3;
  }

  /** Neighbour lists of every cell are up to date with the barrier layout. */
  ghost predicate NeighborsComputed(grid: seq<seq<Node>>)
    requires ValidGrid(grid)
    reads Cells(grid)
  {
    forall r, c {:trigger grid[r][c].neighbors} :: 0 <= r < |grid| && 0 <= c < |grid| ==> grid[r][c].neighbors == NeighborsOf(grid, r, c)
  }

  /** Every neighbour of a cell in the set is itself in the set. */
  ghost predicate NeighborsInside(cells: set<Node>)
    reads cells`neighbors
  {
    forall n, k :: n in cells && 0 <= k < |n.neighbors| ==> n.neighbors[k] in cells
  }

  /** Up-to-date neighbour lists stay inside the grid, avoid barriers and are unit steps. */
  lemma ComputedNeighbors(grid: seq<seq<Node>>, a: Node, b: Node)
    requires ValidGrid(grid) && NeighborsComputed(grid)
    requires a in Cells(grid) && b in a.neighbors
    ensures b in Cells(grid) && b.color != Barrier
    ensures H((a.row, a.col), (b.row, b.col)) == 1
  {
    var r, c :| 0 <= r < |grid| && 0 <= c < |grid[r]| && grid[r][c] == a;
    var i :| 0 <= i < |a.neighbors| && a.neighbors[i] == b;
    assert a.neighbors == NeighborsOf(grid, r, c);
    NeighborsSound(grid, r, c, i);
    AdjacentCharacterization(|grid|, r, c, b.row, b.col);
  }

  /** Every neighbour of a cell in the set is in the set and one unit step away. */
  ghost predicate UnitSteps(cells: set<Node>)
    reads cells`neighbors
  {
    forall a, k :: a in cells && 0 <= k < |a.neighbors| ==>
      a.neighbors[k] in cells && H((a.row, a.col), (a.neighbors[k].row, a.neighbors[k].col)) == 1
  }

  /** Up-to-date lists are unit steps between grid cells; this survives any recolouring, as it reads no colour. */
  lemma ComputedUnitSteps(grid: seq<seq<Node>>)
    requires ValidGrid(grid) && NeighborsComputed(grid)
    ensures UnitSteps(Cells(grid)) && NeighborsInside(Cells(grid))
  {
    forall a, k | a in Cells(grid) && 0 <= k < |a.neighbors|
      ensures a.neighbors[k] in Cells(grid) && H((a.row, a.col), (a.neighbors[k].row, a.neighbors[k].col)) == 1
    {
      ComputedNeighbors(grid, a, a.neighbors[k]);
    }
  }

  /** Every listed neighbour of a cell in the set is recorded in `colors` and is not a Barrier there. */
  ghost predicate ListsAvoid(cells: set<Node>, colors: map<Node, Color>)
    reads cells`neighbors
  {
    forall a, k :: a in cells && 0 <= k < |a.neighbors| ==>
      a.neighbors[k] in colors && colors[a.neighbors[k]] != Barrier
  }

  /** Up-to-date lists avoid the cells that are Barriers now; stated on a record of the colours, this survives any recolouring. */
  lemma ListsAvoidComputed(grid: seq<seq<Node>>, colors: map<Node, Color>)
    requires ValidGrid(grid) && NeighborsComputed(grid) && ColorsAre(grid, colors)
    ensures ListsAvoid(Cells(grid), colors)
  {
    forall a, k | a in Cells(grid) && 0 <= k < |a.neighbors|
      ensures a.neighbors[k] in colors && colors[a.neighbors[k]] != Barrier
    {
      var b := a.neighbors[k];
      ComputedNeighbors(grid, a, b);
      var r, c :| 0 <= r < |grid| && 0 <= c < |grid[r]| && grid[r][c] == b;
    }
  }
}
