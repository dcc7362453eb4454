/**
 The level as the search engine sees it: integer cells, their base costs,
 the cost of one step between two cells and the 8-neighbourhood of a cell.
 */
module Grid {

  /** A grid position. Python compares such tuples lexicographically (see `CellLt`). */
  datatype Cell = Cell(x: int, y: int)

  /** The part of a loaded level the engine reads: the traversable cells and
      their base costs. Cells absent from `spaces` are walls. */
  datatype Level = Level(spaces: map<Cell, real>)

  /** The value of `sqrt(2)`, taken as an exact real. */
  const Sqrt2: real := 1.4142135623730951

  function Abs(n: int): nat
  {
    if n < 0 then -n else n
  }

  function Min(a: real, b: real): real
  {
    if a <= b then a else b
  }

  function Max(a: real, b: real): real
  {
    if a <= b then b else a
  }

  /** Chebyshev distance exactly 1: `b` is one of the eight cells around `a`. */
  predicate Adjacent(a: Cell, b: Cell)
  {
    a != b && Abs(a.x - b.x) <= 1 && Abs(a.y - b.y) <= 1
  }

  /** The two cells differ by one in both coordinates. */
  predicate IsDiagonal(a: Cell, b: Cell)
  {
    Abs(a.x - b.x) == 1 && Abs(a.y - b.y) == 1
  }

  /** Geometric length of the step from `a` to `b`. */
  function StepLength(a: Cell, b: Cell): real
  {
    if IsDiagonal(a, b) then Sqrt2 else 1.0
  }

  /** Every traversable cell has a strictly positive base cost. */
  predicate PositiveCosts(level: Level)
  {
    forall c :: c in level.spaces ==> level.spaces[c] > 0.0
  }

  /** Strict lexicographic order on cells, the order of Python tuples. */
  predicate CellLt(a: Cell, b: Cell)
  {
    a.x < b.x || (a.x == b.x && a.y < b.y)
  }

  /** The traversable cells around `cell`. */
  function NeighborCells(level: Level, cell: Cell): set<Cell>
  {
    set n | n in level.spaces.Keys && Adjacent(cell, n)
  }

  /** The cells of a list of (cell, cost) pairs. */
  function EdgeCells(edges: seq<(Cell, real)>): set<Cell>
  {
    set i | 0 <= i < |edges| :: edges[i].0
  }

  /** Edge cost between two cells (`path_cost_comp`): half of each cell's
      base cost, scaled by the length of the step. */
  function PathCost(level: Level, a: Cell, b: Cell): (r: real)
    requires a in level.spaces && b in level.spaces
    ensures level.spaces[a] > 0.0 && level.spaces[b] > 0.0 ==> r > 0.0
    ensures level.spaces[a] >= 0.0 && level.spaces[b] >= 0.0 ==> r >= 0.0
  {
    if Abs(a.x - b.x) == 1 && Abs(a.y - b.y) == 1 then
      (0.5 * Sqrt2) * level.spaces[a] + (0.5 * Sqrt2) * level.spaces[b]
    else
      0.5 * level.spaces[a] + 0.5 * level.spaces[b]
  }

  /** The edge cost does not depend on the direction of the step. */
  lemma PathCostSymmetric(level: Level, a: Cell, b: Cell)
    requires a in level.spaces && b in level.spaces
    ensures PathCost(level, a, b) == PathCost(level, b, a)
  {
  }

  /** The edge cost is the step length times a mean of the two base costs:
      it lies between the step length times the cheaper and times the
      dearer cell, and equals the step length times the common cost when
      both cells cost the same. */
  lemma PathCostBetween(level: Level, a: Cell, b: Cell)
    requires a in level.spaces && b in level.spaces
    ensures StepLength(a, b) * Min(level.spaces[a], level.spaces[b]) <= PathCost(level, a, b)
    ensures PathCost(level, a, b) <= StepLength(a, b) * Max(level.spaces[a], level.spaces[b])
    ensures level.spaces[a] == level.spaces[b] ==> PathCost(level, a, b) == StepLength(a, b) * level.spaces[a]
  {
  }

  /** On a level with positive costs every step costs something. */
  lemma PathCostPositive(level: Level, a: Cell, b: Cell)
    requires PositiveCosts(level)
    requires a in level.spaces && b in level.spaces
    ensures PathCost(level, a, b) > 0.0
  {
  }

  lemma EdgeCellsAppend(edges: seq<(Cell, real)>, e: (Cell, real))
    ensures EdgeCells(edges + [e]) == EdgeCells(edges) + {e.0}
  {
    var all := edges + [e];
    assert all[|edges|] == e;
    forall c | c in EdgeCells(edges)
      ensures c in EdgeCells(all)
    {
      var i :| 0 <= i < |edges| && edges[i].0 == c;
      assert all[i] == edges[i];
    }
  }

  /** A neighbour list of `cell`: traversable cells, each paired with the
      cost of stepping there from `cell`, in strictly increasing
      lexicographic order (hence without repeats). */
  predicate WellFormedEdges(level: Level, cell: Cell, edges: seq<(Cell, real)>)
    requires cell in level.spaces
  {
    && (forall i :: 0 <= i < |edges| ==> edges[i].0 in level.spaces && edges[i].1 == PathCost(level, cell, edges[i].0))
    && (forall i, j :: 0 <= i < j < |edges| ==> CellLt(edges[i].0, edges[j].0))
  }

  /** Cells adjacent to `cell` whose x-offset from it is below `dx`. */
  function NeighborsLeftOf(level: Level, cell: Cell, dx: int): set<Cell>
  {
    set n | n in NeighborCells(level, cell) && n.x - cell.x < dx
  }

  /** `navigation_edges`: the traversable cells around `cell`, each paired
      with the cost of stepping there, in the order the two nested offset
      loops visit them (x-offset major, then y-offset). */
  method NavigationEdges(level: Level, cell: Cell) returns (edges: seq<(Cell, real)>)
    requires cell in level.spaces
    ensures EdgeCells(edges) == NeighborCells(level, cell)
    ensures WellFormedEdges(level, cell, edges)
    ensures |edges| <= 8
  {
    edges := [];
    var dx := -1;
    while dx < 2
      invariant -1 <= dx <= 2
      invariant forall i :: 0 <= i < |edges| ==>
        edges[i].0 in NeighborCells(level, cell) && edges[i].1 == PathCost(level, cell, edges[i].0) && edges[i].0.x - cell.x < dx
      invariant forall i, j :: 0 <= i < j < |edges| ==> CellLt(edges[i].0, edges[j].0)
      invariant EdgeCells(edges) == NeighborsLeftOf(level, cell, dx)
      invariant |edges| + (if dx > 0 then 1 else 0) <= 3 * (dx + 1)
    {
      edges := ScanColumn(level, cell, dx, edges);
      dx := dx + 1;
    }
    assert NeighborsLeftOf(level, cell, 2) == NeighborCells(level, cell);
  }

  /** The inner offset loop of `navigation_edges`: appends, in increasing y,
      the traversable cells around `cell` whose x-offset is `dx`. */
  method ScanColumn(level: Level, cell: Cell, dx: int, edges: seq<(Cell, real)>) returns (edges': seq<(Cell, real)>)
    requires cell in level.spaces
    requires -1 <= dx <= 1
    requires forall i :: 0 <= i < |edges| ==>
      edges[i].0 in NeighborCells(level, cell) && edges[i].1 == PathCost(level, cell, edges[i].0) && edges[i].0.x - cell.x < dx
    requires forall i, j :: 0 <= i < j < |edges| ==> CellLt(edges[i].0, edges[j].0)
    requires EdgeCells(edges) == NeighborsLeftOf(level, cell, dx)
    requires |edges| + (if dx > 0 then 1 else 0) <= 3 * (dx + 1)
    ensures forall i :: 0 <= i < |edges'| ==>
      edges'[i].0 in NeighborCells(level, cell) && edges'[i].1 == PathCost(level, cell, edges'[i].0) && edges'[i].0.x - cell.x < dx + 1
    ensures forall i, j :: 0 <= i < j < |edges'| ==> CellLt(edges'[i].0, edges'[j].0)
    ensures EdgeCells(edges') == NeighborsLeftOf(level, cell, dx + 1)
    ensures |edges'| + (if dx + 1 > 0 then 1 else 0) <= 3 * (dx + 2)
  {
    edges' := edges;
    var dy := -1;
    while dy < 2
      invariant -1 <= dy <= 2
      invariant forall i :: 0 <= i < |edges'| ==>
        edges'[i].0 in NeighborCells(level, cell) && edges'[i].1 == PathCost(level, cell, edges'[i].0)
        && CellLt(edges'[i].0, Cell(cell.x + dx, cell.y + dy))
      invariant forall i, j :: 0 <= i < j < |edges'| ==> CellLt(edges'[i].0, edges'[j].0)
      invariant EdgeCells(edges') == NeighborsLeftOf(level, cell, dx) + (set n | n in NeighborCells(level, cell) && n.x == cell.x + dx && n.y < cell.y + dy)
      invariant |edges'| + (if dx > 0 || (dx == 0 && dy > 0) then 1 else 0) <= 3 * (dx + 1) + (dy + 1)
    {
      var neighbor := Cell(cell.x + dx, cell.y + dy);
      if neighbor in level.spaces {
        if neighbor != cell {
          EdgeCellsAppend(edges', (neighbor, PathCost(level, cell, neighbor)));
          edges' := edges' + [(neighbor, PathCost(level, cell, neighbor))];
        }
      }
      dy := dy + 1;
    }
  }
}
