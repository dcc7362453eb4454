/**
 The search frontier. The engine pushes bare cells onto a binary heap, so
 `heappop` yields the lexicographically smallest queued cell, not the one with
 the smallest tentative distance. A cell is never queued twice (it is pushed
 only when it first receives a distance), so the heap's contents are a set.
 */
module Frontier {
  import opened Grid

  /** `heappop`: removes and returns the lexicographically smallest cell. */
  method HeapPop(queue: set<Cell>) returns (curr: Cell, rest: set<Cell>)
    requires queue != {}
    ensures curr in queue && rest == queue - {curr}
    ensures forall c :: c in rest ==> CellLt(curr, c)
  {
    curr :| curr in queue;
    var todo := queue - {curr};
    while todo != {}
      invariant curr in queue && todo <= queue && curr !in todo
      invariant forall c :: c in queue && c !in todo && c != curr ==> CellLt(curr, c)
      decreases todo
    {
      var c :| c in todo;
      if CellLt(c, curr) {
        curr := c;
      }
      todo := todo - {c};
    }
    rest := queue - {curr};
  }
}
