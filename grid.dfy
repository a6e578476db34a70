/**
 * Building the lattice, mapping a pixel to a cell, and refreshing every
 * cell's neighbour list before a search.
 */
module Grid {
  import opened Nodes

  /**
   * `make_grid`: `rows` lists of `rows` fresh cells, cell (r, c) at row r and
   * column c with side `width // rows`. A negative `rows` gives no rows, as
   * Python's `range` does.
   */
  method MakeGrid(rows: int, width: int) returns (grid: seq<seq<Node>>)
    requires rows != 0
    ensures |grid| == if rows > 0 then rows else 0
    ensures rows > 0 ==> ValidGrid(grid)
    ensures forall r :: 0 <= r < |grid| ==> |grid[r]| == rows
    ensures forall r, c :: 0 <= r < |grid| && 0 <= c < |grid[r]| ==>
      var node := grid[r][c];
      fresh(node) && node.row == r && node.col == c && node.totalRows == rows
      && node.width == FloorDiv(width, rows) && node.x == r * node.width && node.y == c * node.width
      && node.color == Empty && node.neighbors == []
  {
    grid := [];
    var gap := FloorDiv(width, rows);
    var r := 0;
    while r < rows
      invariant 0 <= r && (rows > 0 ==> r <= rows) && (rows < 0 ==> r == 0) && |grid| == r
      invariant forall i :: 0 <= i < r ==> |grid[i]| == rows
      invariant forall i, j :: 0 <= i < r && 0 <= j < |grid[i]| ==>
        var node := grid[i][j];
        fresh(node) && node.row == i && node.col == j && node.totalRows == rows
        && node.width == gap && node.x == i * gap && node.y == j * gap
        && node.color == Empty && node.neighbors == []
    {
      grid := grid + [[]];
      var c := 0;
      while c < rows
        invariant 0 <= c <= rows && |grid| == r + 1 && |grid[r]| == c
        invariant forall i :: 0 <= i < r ==> |grid[i]| == rows
        invariant forall i, j :: 0 <= i <= r && 0 <= j < |grid[i]| ==>
          var node := grid[i][j];
          fresh(node) && node.row == i && node.col == j && node.totalRows == rows
          && node.width == gap && node.x == i * gap && node.y == j * gap
          && node.color == Empty && node.neighbors == []
      {
        var node := new Node(r, c, gap, rows);
        grid := grid[r := grid[r] + [node]];
        c := c + 1;
      }
      r := r + 1;
    }
  }

  /**
   * `get_clicked_pos`: the cell under pixel `pos`, by floor division with the
   * cell side. For a positive cell side the pixel lies inside the cell it
   * is mapped to.
   */
  function GetClickedPos(pos: (int, int), rows: int, width: int): (cell: (int, int))
    requires rows != 0 && FloorDiv(width, rows) != 0
    ensures var gap := FloorDiv(width, rows);
      gap > 0 ==> gap * cell.0 <= pos.0 < gap * cell.0 + gap && gap * cell.1 <= pos.1 < gap * cell.1 + gap
    ensures var gap := FloorDiv(width, rows);
      rows > 0 && gap > 0 && 0 <= pos.0 < rows * gap && 0 <= pos.1 < rows * gap ==>
        0 <= cell.0 < rows && 0 <= cell.1 < rows
  {
    var gap := FloorDiv(width, rows);
    var (x, y) := pos;
    var cell := (FloorDiv(x, gap), FloorDiv(y, gap));
    if rows > 0 && gap > 0 && 0 <= x < rows * gap && 0 <= y < rows * gap then
      CellIndexInRange(x, gap, rows);
      CellIndexInRange(y, gap, rows);
      cell
    else
      cell
  }

  lemma CellIndexInRange(v: int, gap: int, rows: int)
    requires gap > 0 && rows > 0 && 0 <= v < rows * gap
    ensures 0 <= FloorDiv(v, gap) < rows
  {
    var q := FloorDiv(v, gap);
    assert gap * q <= v < gap * q + gap;
    MulCancel(gap, -1, q);
    MulCancel(gap, q, rows);
  }

  /** Cancelling a positive factor from a strict product inequality. */
  lemma MulCancel(k: int, a: int, b: int)
    requires k > 0 && k * a < k * b
    ensures a < b
  {
    if a >= b {
      MulMonotone(k, b, a);
    }
  }

  lemma MulMonotone(k: int, a: int, b: int)
    requires k > 0 && a <= b
    ensures k * a <= k * b
  {
    assert k * b - k * a == k * (b - a);
  }

  /** Every cell's list is the one `update_neighbors` builds under the colours `built`. */
  ghost predicate ListsFrom(grid: seq<seq<Node>>, built: map<Node, Color>)
    requires ValidGrid(grid)
    reads Cells(grid)`neighbors
  {
    forall r, c {:trigger grid[r][c].neighbors} :: 0 <= r < |grid| && 0 <= c < |grid| ==>
      grid[r][c].neighbors == NeighborsIn(grid, built, r, c)
  }

  /**
   * The refresh done before each search run: every cell recomputes its
   * neighbours. `built` stands for the colours of an earlier refresh; when
   * the lists still come from it and no Barrier has been placed or removed
   * since, the refresh changes no list.
   */
  method UpdateAllNeighbors(grid: seq<seq<Node>>, ghost built: map<Node, Color>)
    requires ValidGrid(grid)
    modifies Cells(grid)`neighbors
    ensures NeighborsComputed(grid)
    ensures forall n :: n in Cells(grid) ==> n.color == old(n.color)
    ensures old(NeighborsComputed(grid)) ==>
      forall n :: n in Cells(grid) ==> n.neighbors == old(n.neighbors)
    ensures old(ListsFrom(grid, built) && SameBarriers(grid, built)) ==>
      forall n :: n in Cells(grid) ==> n.neighbors == old(n.neighbors)
  {
    if ListsFrom(grid, built) && SameBarriers(grid, built) {
      forall i, j | 0 <= i < |grid| && 0 <= j < |grid| ensures grid[i][j].neighbors == NeighborsOf(grid, i, j) {
        CellListCurrent(grid, built, i, j);
      }
    }
    ghost var colors := ColorsOf(Cells(grid));
    assert ColorsAre(grid, colors);
    AgreeEverywhere(grid, colors);
    RefreshAll(grid, colors);
    AgreeEverywhere(grid, colors);
    if old(NeighborsComputed(grid)) {
      forall n | n in Cells(grid) ensures n.neighbors == old(n.neighbors) {
        var i, j :| 0 <= i < |grid| && 0 <= j < |grid[i]| && grid[i][j] == n;
      }
    }
  }

  /** Under a faithful record of the colours, the two descriptions agree on every cell. */
  lemma AgreeEverywhere(grid: seq<seq<Node>>, colors: map<Node, Color>)
    requires ValidGrid(grid) && ColorsAre(grid, colors)
    ensures forall i, j :: 0 <= i < |grid| && 0 <= j < |grid| ==> NeighborsOf(grid, i, j) == NeighborsIn(grid, colors, i, j)
  {
    forall i, j | 0 <= i < |grid| && 0 <= j < |grid|
      ensures NeighborsOf(grid, i, j) == NeighborsIn(grid, colors, i, j)
    {
      NeighborsAgree(grid, colors, i, j);
    }
  }

  /** The outer loop of the refresh: every row in turn, under the recorded colours. */
  method RefreshAll(grid: seq<seq<Node>>, ghost colors: map<Node, Color>)
    requires ValidGrid(grid) && ColorsAre(grid, colors)
    modifies Cells(grid)`neighbors
    ensures forall i, j {:trigger grid[i][j].neighbors} :: 0 <= i < |grid| && 0 <= j < |grid| ==>
      grid[i][j].neighbors == NeighborsIn(grid, colors, i, j)
  {
    for r := 0 to |grid|
      invariant ColorsAre(grid, colors)
      invariant forall i, j {:trigger grid[i][j].neighbors} :: 0 <= i < r && 0 <= j < |grid| ==>
        grid[i][j].neighbors == NeighborsIn(grid, colors, i, j)
    {
      UpdateRowNeighbors(grid, r, colors);
    }
  }

  /** One pass of the inner loop of the refresh: every cell of row r, under the recorded colours. */
  method UpdateRowNeighbors(grid: seq<seq<Node>>, r: int, ghost colors: map<Node, Color>)
    requires ValidGrid(grid) && 0 <= r < |grid| && ColorsAre(grid, colors)
    modifies Cells(grid)`neighbors
    ensures forall j {:trigger grid[r][j].neighbors} :: 0 <= j < |grid| ==>
      grid[r][j].neighbors == NeighborsIn(grid, colors, r, j)
    ensures forall i, j {:trigger grid[i][j].neighbors} :: 0 <= i < |grid| && 0 <= j < |grid| && i != r ==>
      grid[i][j].neighbors == old(grid[i][j].neighbors)
  {
    for c := 0 to |grid|
      invariant ColorsAre(grid, colors)
      invariant forall j {:trigger grid[r][j].neighbors} :: 0 <= j < c ==> grid[r][j].neighbors == NeighborsIn(grid, colors, r, j)
      invariant forall i, j {:trigger grid[i][j].neighbors} :: 0 <= i < |grid| && 0 <= j < |grid| && (i != r || j >= c) ==>
        grid[i][j].neighbors == old(grid[i][j].neighbors)
    {
      UpdateCellNeighbors(grid, r, c, colors);
    }
  }

  /** The body of the inner loop: the cell at (r, c) recomputes its list. */
  method UpdateCellNeighbors(grid: seq<seq<Node>>, r: int, c: int, ghost colors: map<Node, Color>)
    requires ValidGrid(grid) && 0 <= r < |grid| && 0 <= c < |grid| && ColorsAre(grid, colors)
    modifies {grid[r][c]}`neighbors
    ensures grid[r][c].neighbors == NeighborsIn(grid, colors, r, c)
  {
    grid[r][c].UpdateNeighbors(grid);
    NeighborsAgree(grid, colors, r, c);
  }
}
