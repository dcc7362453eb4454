/**
 The two searches of the engine: the destination-targeted one, which returns a
 path, and the exhaustive one, which returns the distance map. Both share the
 relaxation step (`Expand`) and both extract cells in coordinate order, so the
 distances they record are costs of real walks but need not be minimal.
 */
module Search {
  import opened Grid
  import opened Walks
  import opened Frontier

  datatype Option<T> = None | Some(value: T)

  /** The per-call search state: tentative distances, predecessors and the
      cells queued but not yet popped. */
  datatype Search = Search(dist: map<Cell, real>, prev: map<Cell, Cell>, queue: set<Cell>)

  /** Cells that have been popped from the queue. */
  function Done(s: Search): set<Cell>
  {
    s.dist.Keys - s.queue
  }

  /** Relaxation rule: a candidate distance replaces the recorded one when
      there is none or when it is strictly smaller. */
  predicate Improves(dist: map<Cell, real>, n: Cell, cand: real)
  {
    n !in dist || cand < dist[n]
  }

  /** Distance recorded for `n` after relaxing it with `cand`. */
  function Relaxed(dist: map<Cell, real>, n: Cell, cand: real): real
  {
    if Improves(dist, n, cand) then cand else dist[n]
  }

  /** Structural invariant of a search from `source`: the source sits at 0,
      only traversable cells are recorded, every queued cell has a distance,
      and every other recorded cell has an adjacent predecessor whose
      distance plus the step cost is at most its own. */
  ghost predicate Ranked(level: Level, source: Cell, s: Search)
  {
    && source in s.dist && s.dist[source] == 0.0
    && s.dist.Keys <= level.spaces.Keys
    && s.queue <= s.dist.Keys
    && (forall c :: c in s.dist ==> s.dist[c] >= 0.0)
    && s.prev.Keys == s.dist.Keys - {source}
    && (forall n :: n in s.prev ==>
          && s.prev[n] in s.dist
          && Adjacent(s.prev[n], n)
          && s.dist[s.prev[n]] + PathCost(level, s.prev[n], n) <= s.dist[n])
  }

  /** Every recorded distance is the cost of a walk from the source, the one
      `walks` names. */
  ghost predicate Witnessed(level: Level, source: Cell, s: Search, walks: map<Cell, seq<Cell>>)
    requires Ranked(level, source, s)
  {
    forall c :: c in s.dist ==>
      c in walks && WalkFrom(level, walks[c], source, c) && WalkCost(level, walks[c]) == s.dist[c]
  }

  ghost predicate Consistent(level: Level, source: Cell, s: Search, walks: map<Cell, seq<Cell>>)
  {
    Ranked(level, source, s) && Witnessed(level, source, s, walks)
  }

  /** Every popped cell has had all its traversable neighbours recorded. */
  ghost predicate DoneClosed(level: Level, s: Search)
  {
    forall c :: c in Done(s) ==> NeighborCells(level, c) <= s.dist.Keys
  }

  /** The state both searches start from: only the source, at distance 0, queued. */
  function Start(source: Cell): (s: Search)
    ensures Done(s) == {}
  {
    Search(map[source := 0.0], map[], {source})
  }

  lemma StartConsistent(level: Level, source: Cell)
    requires source in level.spaces
    ensures Consistent(level, source, Start(source), map[source := [source]])
  {
  }

  /** One relaxation: a cell without a distance is recorded with predecessor
      `curr` and queued; a recorded one is updated only when `cost` is
      strictly smaller, and is not queued again. */
  function Relax(s: Search, curr: Cell, n: Cell, cost: real): (s': Search)
    ensures s'.dist.Keys == s.dist.Keys + {n}
    ensures s'.queue == if n in s.dist then s.queue else s.queue + {n}
    ensures s'.dist[n] == Relaxed(s.dist, n, cost)
    ensures Improves(s.dist, n, cost) ==> n in s'.prev && s'.prev[n] == curr
    ensures !Improves(s.dist, n, cost) ==> s'.prev == s.prev
    ensures s'.prev.Keys == s.prev.Keys + (if Improves(s.dist, n, cost) then {n} else {})
    ensures forall c :: c in s.dist && c != n ==> s'.dist[c] == s.dist[c]
    ensures forall c :: c in s.prev && c != n ==> s'.prev[c] == s.prev[c]
  {
    if n !in s.dist then
      Search(s.dist[n := cost], s.prev[n := curr], s.queue + {n})
    else if cost < s.dist[n] then
      s.(dist := s.dist[n := cost], prev := s.prev[n := curr])
    else
      s
  }

  /** Relaxing a traversable neighbour of a recorded cell with the cost of
      stepping there keeps the search consistent; the walk to the neighbour,
      when it changes, is the walk to `curr` extended by one step. */
  lemma RelaxConsistent(level: Level, source: Cell, s: Search, walks: map<Cell, seq<Cell>>, curr: Cell, n: Cell, cost: real)
    returns (walks': map<Cell, seq<Cell>>)
    requires PositiveCosts(level)
    requires Consistent(level, source, s, walks)
    requires curr in s.dist && n in NeighborCells(level, curr)
    requires cost == s.dist[curr] + PathCost(level, curr, n)
    ensures Consistent(level, source, Relax(s, curr, n, cost), walks')
  {
    var s' := Relax(s, curr, n, cost);
    if Improves(s.dist, n, cost) {
      RelaxRanked(level, source, s, curr, n, cost);
      ExtendWalk(level, walks[curr], source, curr, n);
      walks' := walks[n := walks[curr] + [n]];
      forall c | c in s'.dist
        ensures c in walks' && WalkFrom(level, walks'[c], source, c)
        ensures WalkCost(level, walks'[c]) == s'.dist[c]
      {
        if c != n {
          assert s'.dist[c] == s.dist[c] && walks'[c] == walks[c];
        }
      }
      assert Witnessed(level, source, s', walks');
    } else {
      assert s' == s;
      walks' := walks;
    }
    assert Consistent(level, source, s', walks');
  }

  /** The structural invariant survives an improving relaxation. */
  lemma RelaxRanked(level: Level, source: Cell, s: Search, curr: Cell, n: Cell, cost: real)
    requires PositiveCosts(level)
    requires Ranked(level, source, s)
    requires curr in s.dist && n in NeighborCells(level, curr)
    requires cost == s.dist[curr] + PathCost(level, curr, n)
    requires Improves(s.dist, n, cost)
    ensures Ranked(level, source, Relax(s, curr, n, cost))
  {
    PathCostPositive(level, curr, n);
    assert n != source;
    var s' := Relax(s, curr, n, cost);
    assert s'.dist == s.dist[n := cost];
    assert s'.prev == s.prev[n := curr];
    assert source in s'.dist && s'.dist[source] == 0.0;
    assert s'.dist.Keys <= level.spaces.Keys;
    assert s'.queue <= s'.dist.Keys;
    assert forall c :: c in s'.dist ==> s'.dist[c] >= 0.0;
    assert s'.prev.Keys == s'.dist.Keys - {source};
    forall m | m in s'.prev
      ensures s'.prev[m] in s'.dist && Adjacent(s'.prev[m], m)
      ensures s'.dist[s'.prev[m]] + PathCost(level, s'.prev[m], m) <= s'.dist[m]
    {
      if m != n {
        assert s'.prev[m] == s.prev[m];
      }
    }
    assert Ranked(level, source, s');
  }

  /** After relaxing exactly the neighbours `seen` of `curr`, starting from
      `s0`: those neighbours carry the relaxed distance (and `curr` as
      predecessor where they improved), the newly discovered ones are queued,
      and every other cell is as it was. */
  ghost predicate RelaxedOver(level: Level, s0: Search, s: Search, curr: Cell, seen: set<Cell>)
  {
    && curr in level.spaces && curr in s0.dist
    && seen <= NeighborCells(level, curr)
    && KeysOver(s0, s, seen)
    && DistOver(level, s0, s, curr, seen)
    && PrevOver(level, s0, s, curr, seen)
  }

  ghost predicate KeysOver(s0: Search, s: Search, seen: set<Cell>)
  {
    s.dist.Keys == s0.dist.Keys + seen && s.queue == s0.queue + (seen - s0.dist.Keys)
  }

  ghost predicate DistOver(level: Level, s0: Search, s: Search, curr: Cell, seen: set<Cell>)
    requires curr in level.spaces && curr in s0.dist && seen <= NeighborCells(level, curr)
    requires KeysOver(s0, s, seen)
  {
    && (forall n :: n in seen ==>
          s.dist[n] == Relaxed(s0.dist, n, s0.dist[curr] + PathCost(level, curr, n)))
    && (forall c :: c in s0.dist && c !in seen ==> s.dist[c] == s0.dist[c])
  }

  ghost predicate PrevOver(level: Level, s0: Search, s: Search, curr: Cell, seen: set<Cell>)
    requires curr in level.spaces && curr in s0.dist && seen <= NeighborCells(level, curr)
  {
    PrevSet(level, s0, s, curr, seen) && PrevKept(level, s0, s, curr, seen)
  }

  /** Every neighbour in `seen` whose relaxation improved has `curr` as predecessor. */
  ghost predicate PrevSet(level: Level, s0: Search, s: Search, curr: Cell, seen: set<Cell>)
    requires curr in level.spaces && curr in s0.dist && seen <= NeighborCells(level, curr)
  {
    forall n :: n in seen && Improves(s0.dist, n, s0.dist[curr] + PathCost(level, curr, n)) ==>
      n in s.prev && s.prev[n] == curr
  }

  /** Every other cell, and every neighbour in `seen` whose relaxation did
      not improve, keeps its predecessor. */
  ghost predicate PrevKept(level: Level, s0: Search, s: Search, curr: Cell, seen: set<Cell>)
    requires curr in level.spaces && curr in s0.dist && seen <= NeighborCells(level, curr)
  {
    forall c :: c in s0.prev && (c !in seen || !Improves(s0.dist, c, s0.dist[curr] + PathCost(level, curr, c))) ==>
      c in s.prev && s.prev[c] == s0.prev[c]
  }

  /** Relaxing one more neighbour extends `RelaxedOver` by that neighbour. */
  lemma RelaxedOverStep(level: Level, s0: Search, s: Search, curr: Cell, seen: set<Cell>, n: Cell, cost: real)
    requires RelaxedOver(level, s0, s, curr, seen)
    requires n in NeighborCells(level, curr) && n !in seen
    requires curr in s.dist && cost == s.dist[curr] + PathCost(level, curr, n)
    ensures RelaxedOver(level, s0, Relax(s, curr, n, cost), curr, seen + {n})
  {
    assert curr !in NeighborCells(level, curr);
    assert s.dist[curr] == s0.dist[curr];
    KeysOverStep(s0, s, seen, curr, n, cost);
    DistOverStep(level, s0, s, curr, seen, n, cost);
    PrevOverStep(level, s0, s, curr, seen, n, cost);
  }

  lemma KeysOverStep(s0: Search, s: Search, seen: set<Cell>, curr: Cell, n: Cell, cost: real)
    requires KeysOver(s0, s, seen) && n !in seen
    ensures KeysOver(s0, Relax(s, curr, n, cost), seen + {n})
  {
  }

  lemma DistOverStep(level: Level, s0: Search, s: Search, curr: Cell, seen: set<Cell>, n: Cell, cost: real)
    requires curr in level.spaces && curr in s0.dist && seen <= NeighborCells(level, curr)
    requires KeysOver(s0, s, seen) && DistOver(level, s0, s, curr, seen)
    requires n in NeighborCells(level, curr) && n !in seen
    requires cost == s0.dist[curr] + PathCost(level, curr, n)
    requires KeysOver(s0, Relax(s, curr, n, cost), seen + {n})
    ensures DistOver(level, s0, Relax(s, curr, n, cost), curr, seen + {n})
  {
    assert n in s.dist <==> n in s0.dist;
  }

  lemma PrevOverStep(level: Level, s0: Search, s: Search, curr: Cell, seen: set<Cell>, n: Cell, cost: real)
    requires curr in level.spaces && curr in s0.dist && seen <= NeighborCells(level, curr)
    requires KeysOver(s0, s, seen) && DistOver(level, s0, s, curr, seen) && PrevOver(level, s0, s, curr, seen)
    requires n in NeighborCells(level, curr) && n !in seen
    requires cost == s0.dist[curr] + PathCost(level, curr, n)
    ensures PrevOver(level, s0, Relax(s, curr, n, cost), curr, seen + {n})
  {
    assert n in s.dist <==> n in s0.dist;
    assert n in s.dist ==> s.dist[n] == s0.dist[n];
    assert Improves(s.dist, n, cost) <==> Improves(s0.dist, n, cost);
    PrevSetStep(level, s0, s, curr, seen, n, cost);
    PrevKeptStep(level, s0, s, curr, seen, n, cost);
  }

  lemma PrevSetStep(level: Level, s0: Search, s: Search, curr: Cell, seen: set<Cell>, n: Cell, cost: real)
    requires curr in level.spaces && curr in s0.dist && seen <= NeighborCells(level, curr)
    requires PrevSet(level, s0, s, curr, seen)
    requires n in NeighborCells(level, curr) && n !in seen
    requires cost == s0.dist[curr] + PathCost(level, curr, n)
    requires Improves(s.dist, n, cost) <==> Improves(s0.dist, n, cost)
    ensures PrevSet(level, s0, Relax(s, curr, n, cost), curr, seen + {n})
  {
  }

  lemma PrevKeptStep(level: Level, s0: Search, s: Search, curr: Cell, seen: set<Cell>, n: Cell, cost: real)
    requires curr in level.spaces && curr in s0.dist && seen <= NeighborCells(level, curr)
    requires PrevKept(level, s0, s, curr, seen)
    requires n in NeighborCells(level, curr) && n !in seen
    requires cost == s0.dist[curr] + PathCost(level, curr, n)
    requires Improves(s.dist, n, cost) <==> Improves(s0.dist, n, cost)
    ensures PrevKept(level, s0, Relax(s, curr, n, cost), curr, seen + {n})
  {
  }

  /** A relaxation pass never raises a recorded distance. */
  lemma RelaxedOverMonotone(level: Level, s0: Search, s: Search, curr: Cell, seen: set<Cell>)
    requires RelaxedOver(level, s0, s, curr, seen)
    ensures forall c :: c in s0.dist ==> c in s.dist && s.dist[c] <= s0.dist[c]
  {
  }

  /** Before any neighbour is relaxed the pass has changed nothing. */
  lemma RelaxedOverNone(level: Level, s: Search, curr: Cell)
    requires curr in level.spaces && curr in s.dist
    ensures RelaxedOver(level, s, s, curr, {})
  {
  }

  /** The pass description fixes the resulting state: two consistent states
      that both relax exactly `seen` from `s0` are equal, whatever order the
      neighbours were visited in. */
  lemma RelaxedOverUnique(level: Level, source: Cell, s0: Search, s1: Search, s2: Search, curr: Cell, seen: set<Cell>)
    requires Ranked(level, source, s0) && Ranked(level, source, s1) && Ranked(level, source, s2)
    requires RelaxedOver(level, s0, s1, curr, seen) && RelaxedOver(level, s0, s2, curr, seen)
    ensures s1 == s2
  {
    SameDist(level, s0, s1, s2, curr, seen);
    SamePrev(level, source, s0, s1, s2, curr, seen);
  }

  lemma SameDist(level: Level, s0: Search, s1: Search, s2: Search, curr: Cell, seen: set<Cell>)
    requires curr in level.spaces && curr in s0.dist && seen <= NeighborCells(level, curr)
    requires KeysOver(s0, s1, seen) && DistOver(level, s0, s1, curr, seen)
    requires KeysOver(s0, s2, seen) && DistOver(level, s0, s2, curr, seen)
    ensures s1.dist == s2.dist && s1.queue == s2.queue
  {
    forall c | c in s1.dist
      ensures s1.dist[c] == s2.dist[c]
    {
      if c !in seen {
        assert s1.dist[c] == s0.dist[c] == s2.dist[c];
      }
    }
  }

  lemma SamePrev(level: Level, source: Cell, s0: Search, s1: Search, s2: Search, curr: Cell, seen: set<Cell>)
    requires curr in level.spaces && curr in s0.dist && seen <= NeighborCells(level, curr)
    requires s0.prev.Keys == s0.dist.Keys - {source}
    requires s1.prev.Keys == s1.dist.Keys - {source} && s2.prev.Keys == s2.dist.Keys - {source}
    requires s1.dist.Keys == s0.dist.Keys + seen && s2.dist.Keys == s1.dist.Keys
    requires PrevOver(level, s0, s1, curr, seen) && PrevOver(level, s0, s2, curr, seen)
    ensures s1.prev == s2.prev
  {
    forall c | c in s1.prev
      ensures s1.prev[c] == s2.prev[c]
    {
      if c in seen && Improves(s0.dist, c, s0.dist[curr] + PathCost(level, curr, c)) {
        assert s1.prev[c] == curr == s2.prev[c];
      } else {
        assert c in s0.prev;
        assert s1.prev[c] == s0.prev[c] == s2.prev[c];
      }
    }
  }

  /** The cells of the first `k` pairs of `edges`. */
  ghost function PrefixCells(edges: seq<(Cell, real)>, k: nat): set<Cell>
    requires k <= |edges|
  {
    set i | 0 <= i < k :: edges[i].0
  }

  lemma PrefixCellsStep(edges: seq<(Cell, real)>, k: nat)
    requires k < |edges|
    ensures PrefixCells(edges, k + 1) == PrefixCells(edges, k) + {edges[k].0}
  {
    assert edges[k].0 in PrefixCells(edges, k + 1);
  }

  /** One iteration of the relaxation loop keeps both loop invariants. */
  lemma RelaxNext(level: Level, source: Cell, s0: Search, s: Search, walks: map<Cell, seq<Cell>>,
                  curr: Cell, neighbors: seq<(Cell, real)>, k: nat, cost: real)
    returns (walks': map<Cell, seq<Cell>>)
    requires PositiveCosts(level)
    requires curr in level.spaces
    requires EdgeCells(neighbors) == NeighborCells(level, curr)
    requires WellFormedEdges(level, curr, neighbors)
    requires k < |neighbors|
    requires Consistent(level, source, s, walks)
    requires RelaxedOver(level, s0, s, curr, PrefixCells(neighbors, k))
    requires curr in s.dist && cost == s.dist[curr] + neighbors[k].1
    ensures Consistent(level, source, Relax(s, curr, neighbors[k].0, cost), walks')
    ensures RelaxedOver(level, s0, Relax(s, curr, neighbors[k].0, cost), curr, PrefixCells(neighbors, k + 1))
  {
    var n := neighbors[k].0;
    assert n !in PrefixCells(neighbors, k) by {
      forall i | 0 <= i < k
        ensures neighbors[i].0 != n
      {
        assert CellLt(neighbors[i].0, neighbors[k].0);
      }
    }
    assert n in NeighborCells(level, curr) by {
      assert n in EdgeCells(neighbors);
    }
    PrefixCellsStep(neighbors, k);
    RelaxedOverStep(level, s0, s, curr, PrefixCells(neighbors, k), n, cost);
    walks' := RelaxConsistent(level, source, s, walks, curr, n, cost);
  }

  /** The relaxation loop run on a popped cell `curr`: every traversable
      neighbour `n` is relaxed with `dist[curr] + PathCost(curr, n)`. A
      neighbour seen for the first time is recorded and queued; a known one
      is updated only on a strict improvement and never queued again. No
      distance ever grows and no other cell is touched. */
  method Expand(level: Level, ghost source: Cell, s: Search, curr: Cell, ghost walks: map<Cell, seq<Cell>>)
    returns (s': Search, ghost walks': map<Cell, seq<Cell>>)
    requires PositiveCosts(level)
    requires Consistent(level, source, s, walks)
    requires curr in s.dist
    ensures Consistent(level, source, s', walks')
    ensures RelaxedOver(level, s, s', curr, NeighborCells(level, curr))
    ensures forall c :: c in s.dist ==> s'.dist[c] <= s.dist[c]
  {
    var neighbors := NavigationEdges(level, curr);
    s', walks' := RelaxAll(level, source, s, curr, neighbors, walks);
    RelaxedOverMonotone(level, s, s', curr, NeighborCells(level, curr));
  }

  /** The loop over the neighbour list of `curr`, one relaxation per entry. */
  method RelaxAll(level: Level, ghost source: Cell, s: Search, curr: Cell, neighbors: seq<(Cell, real)>,
                  ghost walks: map<Cell, seq<Cell>>)
    returns (s': Search, ghost walks': map<Cell, seq<Cell>>)
    requires PositiveCosts(level)
    requires Consistent(level, source, s, walks)
    requires curr in s.dist
    requires EdgeCells(neighbors) == NeighborCells(level, curr)
    requires WellFormedEdges(level, curr, neighbors)
    ensures Consistent(level, source, s', walks')
    ensures RelaxedOver(level, s, s', curr, NeighborCells(level, curr))
  {
    s' := s;
    walks' := walks;
    var k := 0;
    RelaxedOverNone(level, s, curr);
    assert PrefixCells(neighbors, 0) == {};
    while k < |neighbors|
      invariant 0 <= k <= |neighbors|
      invariant Consistent(level, source, s', walks')
      invariant RelaxedOver(level, s, s', curr, PrefixCells(neighbors, k))
    {
      var neighbor := neighbors[k];
      var cost := s'.dist[curr] + neighbor.1;
      walks' := RelaxNext(level, source, s, s', walks', curr, neighbors, k, cost);
      s' := Relax(s', curr, neighbor.0, cost);
      k := k + 1;
    }
    assert PrefixCells(neighbors, k) == EdgeCells(neighbors);
  }

  /** Recorded cells strictly closer to the source than `v`. */
  ghost function Below(dist: map<Cell, real>, v: real): set<Cell>
  {
    set c | c in dist.Keys && dist[c] < v
  }

  /** Following `prev` from any recorded cell other than the source moves to
      an adjacent recorded cell that is strictly closer to the source. */
  ghost predicate PrevDescends(level: Level, source: Cell, s: Search)
  {
    && source in s.dist
    && s.dist.Keys <= level.spaces.Keys
    && (forall c :: c in s.dist && c != source ==>
          c in s.prev && s.prev[c] in s.dist && Adjacent(s.prev[c], c) && s.dist[s.prev[c]] < s.dist[c])
  }

  /** With positive costs a predecessor is strictly closer to the source. */
  lemma RankedDescends(level: Level, source: Cell, s: Search)
    requires PositiveCosts(level) && Ranked(level, source, s)
    ensures PrevDescends(level, source, s)
  {
    forall c | c in s.dist && c != source
      ensures c in s.prev && s.prev[c] in s.dist && s.dist[s.prev[c]] < s.dist[c]
    {
      PathCostPositive(level, s.prev[c], c);
    }
  }

  lemma BelowShrinks(dist: map<Cell, real>, p: Cell, c: Cell)
    requires p in dist && c in dist && dist[p] < dist[c]
    ensures Below(dist, dist[p]) < Below(dist, dist[c])
  {
    assert p in Below(dist, dist[c]);
  }

  /** A path as the targeted search returns it: it starts at the destination,
      ends at the source, visits only traversable cells, each adjacent to the
      next, and never repeats a cell. */
  ghost predicate BackwardRoute(level: Level, path: seq<Cell>, source: Cell, destination: Cell)
  {
    && |path| >= 1
    && path[0] == destination && path[|path| - 1] == source
    && (forall i :: 0 <= i < |path| ==> path[i] in level.spaces)
    && (forall i :: 0 <= i < |path| - 1 ==> Adjacent(path[i], path[i + 1]))
    && (forall i, j :: 0 <= i < j < |path| ==> path[i] != path[j])
  }

  /** Path reconstruction of the targeted search: follows `prev` from the
      destination back to the source and keeps the cells in that order (no
      reversal). With positive costs each step strictly lowers the recorded
      distance, so the walk cannot cycle and must end at the source. */
  method Backtrack(level: Level, source: Cell, s: Search, destination: Cell) returns (path: seq<Cell>)
    requires PrevDescends(level, source, s)
    requires destination in s.dist
    ensures BackwardRoute(level, path, source, destination)
    ensures PrevChain(s, path)
    ensures destination == source ==> path == [source]
  {
    var curr := destination;
    path := [];
    while curr != source
      invariant curr in s.dist
      invariant |path| == 0 ==> curr == destination
      invariant |path| > 0 ==> path[0] == destination && path[|path| - 1] in s.prev && curr == s.prev[path[|path| - 1]]
      invariant forall i :: 0 <= i < |path| ==> path[i] in s.dist && s.dist[path[i]] > s.dist[curr]
      invariant forall i, j :: 0 <= i < j < |path| ==> s.dist[path[i]] > s.dist[path[j]]
      invariant PrevChain(s, path)
      decreases Below(s.dist, s.dist[curr])
    {
      var p := s.prev[curr];
      BelowShrinks(s.dist, p, curr);
      PrevChainAppend(s, path, curr);
      path := path + [curr];
      curr := p;
    }
    PrevChainAppend(s, path, curr);
    path := path + [curr];
    ChainIsRoute(level, source, s, path, destination);
  }

  /** Each cell of `path` after the first is the predecessor of the one before it. */
  ghost predicate PrevChain(s: Search, path: seq<Cell>)
  {
    forall i :: 0 <= i < |path| - 1 ==> path[i] in s.prev && path[i + 1] == s.prev[path[i]]
  }

  lemma PrevChainAppend(s: Search, path: seq<Cell>, c: Cell)
    requires PrevChain(s, path)
    requires |path| > 0 ==> path[|path| - 1] in s.prev && c == s.prev[path[|path| - 1]]
    ensures PrevChain(s, path + [c])
  {
    var path' := path + [c];
    forall i | 0 <= i < |path'| - 1
      ensures path'[i] in s.prev && path'[i + 1] == s.prev[path'[i]]
    {
      if i < |path| - 1 {
        assert path[i] in s.prev && path[i + 1] == s.prev[path[i]];
        assert path'[i] == path[i] && path'[i + 1] == path[i + 1];
      } else {
        assert path'[i] == path[|path| - 1] && path'[i + 1] == c;
      }
    }
  }

  /** A `prev` chain along which the recorded distance strictly falls, from
      the destination to the source, is a route without repeated cells. */
  lemma ChainIsRoute(level: Level, source: Cell, s: Search, path: seq<Cell>, destination: Cell)
    requires PrevDescends(level, source, s)
    requires |path| >= 1 && path[0] == destination && path[|path| - 1] == source
    requires forall i :: 0 <= i < |path| ==> path[i] in s.dist
    requires PrevChain(s, path)
    requires forall i, j :: 0 <= i < j < |path| ==> s.dist[path[i]] > s.dist[path[j]]
    ensures BackwardRoute(level, path, source, destination)
  {
    forall i | 0 <= i < |path| - 1
      ensures Adjacent(path[i], path[i + 1])
    {
      assert path[i] in s.prev && path[i + 1] == s.prev[path[i]];
    }
  }

  /** `dijkstras_shortest_path_to_all`: drains the queue, popping cells in
      coordinate order and relaxing their neighbours. The result holds
      exactly the cells reachable from the source, the source at 0, and for
      every cell the cost of some walk to it from the source; its key set is
      closed under taking traversable neighbours. Every cell is popped at
      most once. */
  method ShortestPathToAll(level: Level, source: Cell) returns (dist: map<Cell, real>, ghost pops: nat)
    requires PositiveCosts(level)
    requires source in level.spaces
    ensures source in dist && dist[source] == 0.0
    ensures dist.Keys <= level.spaces.Keys
    ensures forall c :: c in dist <==> Reachable(level, source, c)
    ensures forall c :: c in dist ==> NeighborCells(level, c) <= dist.Keys
    ensures forall c :: c in dist ==> exists w :: WalkFrom(level, w, source, c) && WalkCost(level, w) == dist[c]
    ensures pops <= |level.spaces.Keys|
  {
    var s := Start(source);
    ghost var walks := map[source := [source]];
    StartConsistent(level, source);
    pops := 0;
    while s.queue != {}
      invariant Consistent(level, source, s, walks)
      invariant DoneClosed(level, s)
      invariant pops == |Done(s)| <= |level.spaces.Keys|
      decreases level.spaces.Keys - Done(s)
    {
      var curr, rest := HeapPop(s.queue);
      ghost var before := s;
      PopCounts(level, before, curr);
      s := s.(queue := rest);
      pops := pops + 1;
      s, walks := Expand(level, source, s, curr, walks);
      PopThenExpand(level, before, curr, s);
    }
    dist := s.dist;
    SearchResult(level, source, s, walks);
  }

  /** Popping `curr` and relaxing its neighbours adds exactly `curr` to the
      popped cells and keeps every popped cell's neighbours recorded. */
  lemma PopThenExpand(level: Level, before: Search, curr: Cell, after: Search)
    requires DoneClosed(level, before) && before.queue <= before.dist.Keys
    requires curr in before.queue
    requires KeysOver(before.(queue := before.queue - {curr}), after, NeighborCells(level, curr))
    ensures Done(after) == Done(before) + {curr}
    ensures DoneClosed(level, after)
  {
    assert Done(after) == Done(before) + {curr};
  }

  /** Popping a queued cell adds it to the popped cells, of which there are
      never more than traversable cells. */
  lemma PopCounts(level: Level, before: Search, curr: Cell)
    requires before.queue <= before.dist.Keys && before.dist.Keys <= level.spaces.Keys
    requires curr in before.queue
    ensures Done(before.(queue := before.queue - {curr})) == Done(before) + {curr}
    ensures |Done(before.(queue := before.queue - {curr}))| == |Done(before)| + 1
    ensures |Done(before.(queue := before.queue - {curr}))| <= |level.spaces.Keys|
  {
    var after := before.(queue := before.queue - {curr});
    assert Done(after) == Done(before) + {curr};
    SubsetCard(Done(after), level.spaces.Keys);
  }

  /** A drained, consistent, closed search has recorded exactly the cells
      reachable from the source, each with the cost of a walk. */
  lemma SearchResult(level: Level, source: Cell, s: Search, walks: map<Cell, seq<Cell>>)
    requires Consistent(level, source, s, walks) && DoneClosed(level, s) && s.queue == {}
    ensures forall c :: c in s.dist <==> Reachable(level, source, c)
    ensures forall c :: c in s.dist ==> exists w :: WalkFrom(level, w, source, c) && WalkCost(level, w) == s.dist[c]
  {
    forall c | Reachable(level, source, c)
      ensures c in s.dist
    {
      ClosedContainsReachable(level, s.dist.Keys, source, c);
    }
    forall c | c in s.dist
      ensures Reachable(level, source, c)
      ensures exists w :: WalkFrom(level, w, source, c) && WalkCost(level, w) == s.dist[c]
    {
      assert WalkFrom(level, walks[c], source, c);
    }
  }

  lemma {:induction false} SubsetCard<T>(a: set<T>, b: set<T>)
    requires a <= b
    ensures |a| <= |b|
    decreases a
  {
    if a != {} {
      var x :| x in a;
      SubsetCard(a - {x}, b - {x});
    }
  }

  /** `dijkstras_shortest_path`: like the exhaustive search but stops when the
      destination is popped and returns the `prev` walk from it, destination
      first. It finds a path exactly when the destination is reachable; when
      source and destination coincide the path is that one cell. */
  method ShortestPath(level: Level, source: Cell, destination: Cell) returns (path: Option<seq<Cell>>, ghost pops: nat)
    requires PositiveCosts(level)
    requires source in level.spaces
    ensures path.None? <==> !Reachable(level, source, destination)
    ensures path.Some? ==> BackwardRoute(level, path.value, source, destination)
    ensures source == destination ==> path == Some([source])
    ensures pops <= |level.spaces.Keys|
  {
    var s := Start(source);
    ghost var walks := map[source := [source]];
    StartConsistent(level, source);
    pops := 0;
    while s.queue != {}
      invariant Consistent(level, source, s, walks)
      invariant DoneClosed(level, s)
      invariant destination !in Done(s)
      invariant pops == |Done(s)| <= |level.spaces.Keys|
      decreases level.spaces.Keys - Done(s)
    {
      var curr, rest := HeapPop(s.queue);
      ghost var before := s;
      PopCounts(level, before, curr);
      s := s.(queue := rest);
      pops := pops + 1;
      if curr == destination {
        RankedDescends(level, source, s);
        var p := Backtrack(level, source, s, curr);
        assert WalkFrom(level, walks[destination], source, destination);
        return Some(p), pops;
      }
      s, walks := Expand(level, source, s, curr, walks);
      PopThenExpand(level, before, curr, s);
    }
    SearchResult(level, source, s, walks);
    path := None;
  }
}
