/** What stays true of the search records and the open set while FindPath
    runs, and the proof that each step keeps it.

    Besides the concrete state the proof tracks three ghost quantities:
    `lv`, a level for each open-set entry (one more than the level of the
    entry whose pop pushed it, the start's entry having level 0); `popLv`,
    for each visited cell the level at which it was first popped; and `m`,
    the level of the entry popped last. Because the open set is a FIFO queue,
    its levels are sorted and lie within `m` and `m + 1`. Because the grid is
    bipartite, a level or a cost of a cell always has the parity of the
    cell's Manhattan distance from the start, which is what makes overwriting
    a queued cell's cost and predecessor harmless. */
module SearchInvariants {
  import opened Geometry
  import opened Nodes

  /** `d` has the parity of every walk from `start` to `v`. */
  ghost predicate Phase(nodes: seq<Node>, start: int, v: int, d: int)
    requires 0 <= v < |nodes| && 0 <= start < |nodes|
  {
    (d + nodes[v].x + nodes[v].y + nodes[start].x + nodes[start].y) % 2 == 0
  }

  /** The open set: cells with a known cost, levels sorted within [m, m + 1]
      and in phase with their cells. */
  ghost predicate Frontier(start: int, s: State, lv: seq<nat>, m: nat) {
    && 0 <= start < |s.nodes|
    && |lv| == |s.open|
    && (forall j | 0 <= j < |lv| ::
          && 0 <= s.open[j] < |s.nodes|
          && s.nodes[s.open[j]].cost.Some?
          && m <= lv[j] <= m + 1
          && Phase(s.nodes, start, s.open[j], lv[j]))
    && (forall i, j | 0 <= i < j < |lv| :: lv[i] <= lv[j])
  }

  /** The link from `v` to its predecessor `u`: `u` is a visited cell one
      step away and one cheaper, and `v` is walkable. */
  ghost predicate LinkOk(nodes: seq<Node>, v: int, u: int)
    requires 0 <= v < |nodes|
  {
    && 0 <= u < |nodes|
    && u != v
    && nodes[u].visited
    && nodes[u].cost.Some?
    && nodes[v].cost.Some?
    && nodes[v].cost.value == nodes[u].cost.value + 1
    && Heuristic(nodes[u], nodes[v]) == 1
    && nodes[v].traversable
  }

  /** The cost and link of record `v`: a cost is in phase with the cell,
      only the start is costed without a predecessor, and a link is sound. */
  ghost predicate LinkAt(start: int, nodes: seq<Node>, v: int)
    requires 0 <= v < |nodes| && 0 <= start < |nodes|
  {
    && (nodes[v].cost.Some? ==> Phase(nodes, start, v, nodes[v].cost.value))
    && (nodes[v].previous.None? && nodes[v].cost.Some? ==> v == start)
    && (nodes[v].previous.Some? ==> LinkOk(nodes, v, nodes[v].previous.value))
  }

  /** Costs and predecessor links: the start has cost 0 and no predecessor,
      and every record satisfies LinkAt. */
  ghost predicate Links(start: int, nodes: seq<Node>) {
    && 0 <= start < |nodes|
    && nodes[start].cost == Some(0)
    && nodes[start].previous == None
    && forall v | 0 <= v < |nodes| :: LinkAt(start, nodes, v)
  }

  /** A visited record has a cost, at most its pop level, at most `m`. */
  ghost predicate Costed(nodes: seq<Node>, popLv: seq<nat>, m: nat) {
    && |popLv| == |nodes|
    && forall v | 0 <= v < |nodes| && nodes[v].visited ::
         nodes[v].cost.Some? && nodes[v].cost.value <= popLv[v] <= m
  }

  /** The pop level of a visited cell is at most the length of every walk
      from the start to it. */
  ghost predicate Optimal(g: Grid, start: int, nodes: seq<Node>, popLv: seq<nat>) {
    && |popLv| == |nodes|
    && forall p | IsWalk(g, p) && p[0] == start && 0 <= p[|p| - 1] < |nodes| && nodes[p[|p| - 1]].visited ::
         popLv[p[|p| - 1]] <= |p| - 1
  }

  /** Cell `n` is visited, or queued with a level at most `bound`. */
  ghost predicate Witnessed(s: State, lv: seq<nat>, n: int, bound: int) {
    || (0 <= n < |s.nodes| && s.nodes[n].visited)
    || exists j | 0 <= j < |s.open| && j < |lv| :: s.open[j] == n && lv[j] <= bound
  }

  /** Every walkable neighbour of cell `u` is visited or queued no later
      than one level after `u`'s pop. */
  ghost predicate ClosedAt(s: State, lv: seq<nat>, popLv: seq<nat>, u: int)
    requires 0 <= u < |s.nodes| && u < |popLv|
  {
    forall n | n in s.nodes[u].neighbours && 0 <= n < |s.nodes| && s.nodes[n].traversable ::
      Witnessed(s, lv, n, popLv[u] + 1)
  }

  /** ClosedAt for every visited cell other than `except`. */
  ghost predicate Closed(s: State, lv: seq<nat>, popLv: seq<nat>, except: int) {
    && |popLv| == |s.nodes|
    && forall u {:trigger ClosedAt(s, lv, popLv, u)} | 0 <= u < |s.nodes| && u != except && s.nodes[u].visited ::
         ClosedAt(s, lv, popLv, u)
  }

  /** The invariant of the open-set loop. */
  ghost predicate Inv(g: Grid, start: int, target: int, s: State, lv: seq<nat>, popLv: seq<nat>, m: nat) {
    && Placed(g, s.nodes)
    && 0 <= target < |s.nodes|
    && Frontier(start, s, lv, m)
    && Links(start, s.nodes)
    && Costed(s.nodes, popLv, m)
    && Optimal(g, start, s.nodes, popLv)
    && Closed(s, lv, popLv, -1)
    && !s.nodes[target].visited
    && (s.nodes[start].visited || (s.open == [start] && lv == [0]))
  }

  /** The invariant of the neighbour loop of `cur`, after `k` of its
      neighbours `nbrs` have been relaxed; `wasVisited` says whether `cur` had
      been visited before this pop. */
  ghost predicate Expanding(g: Grid, start: int, s: State, lv: seq<nat>, popLv: seq<nat>, m: nat,
                            cur: int, nbrs: seq<int>, k: int, wasVisited: bool) {
    && Placed(g, s.nodes)
    && 0 <= cur < |s.nodes|
    && nbrs == s.nodes[cur].neighbours
    && 0 <= k <= |nbrs|
    && Frontier(start, s, lv, m)
    && Links(start, s.nodes)
    && Costed(s.nodes, popLv, m)
    && Optimal(g, start, s.nodes, popLv)
    && Closed(s, lv, popLv, cur)
    && s.nodes[cur].visited
    && s.nodes[start].visited
    && Phase(s.nodes, start, cur, m)
    && (!wasVisited ==> popLv[cur] == m)
    && forall i | 0 <= i < |nbrs| && (i < k || wasVisited) && 0 <= nbrs[i] < |s.nodes| && s.nodes[nbrs[i]].traversable ::
         Witnessed(s, lv, nbrs[i], popLv[cur] + 1)
  }

  /** The state the source builds before the loop satisfies the loop
      invariant. */
  lemma InitInv(g: Grid, start: int, target: int, nodes: seq<Node>)
    requires g.Valid() && 0 <= start < g.Size() && 0 <= target < g.Size()
    requires nodes == InitNodes(g)
    ensures var s := State(nodes[start := nodes[start].(cost := Some(0))], [start]);
            Inv(g, start, target, s, [0], seq(g.Size(), _ => 0), 0)
  {
    var s := State(nodes[start := nodes[start].(cost := Some(0))], [start]);
    PlacedFrame(g, nodes, s.nodes);
    assert Phase(s.nodes, start, start, 0);
  }

  /** Cells reachable from the start in fewer steps than every queued level
      are already visited. */
  lemma {:induction false} ReachedBelowLevel(g: Grid, start: int, s: State, lv: seq<nat>, popLv: seq<nat>,
                                             b: int, p: seq<int>)
    requires Placed(g, s.nodes) && 0 <= start < |s.nodes|
    requires Optimal(g, start, s.nodes, popLv)
    requires Closed(s, lv, popLv, -1)
    requires forall j | 0 <= j < |lv| :: b <= lv[j]
    requires b > 0 ==> s.nodes[start].visited
    requires IsWalk(g, p) && p[0] == start && |p| - 1 < b
    ensures 0 <= p[|p| - 1] < |s.nodes| && s.nodes[p[|p| - 1]].visited
    decreases |p|
  {
    if |p| > 1 {
      var q := p[..|p| - 1];
      WalkPrefix(g, p, |p| - 1);
      ReachedBelowLevel(g, start, s, lv, popLv, b, q);
      var w := q[|q| - 1];
      var n := p[|p| - 1];
      assert w == p[|p| - 2];
      assert StepAt(g, p, |p| - 1);
      assert popLv[w] <= |q| - 1;
      assert PlacedAt(g, s.nodes, w) && PlacedAt(g, s.nodes, n);
      NeighbourComplete(g.width, g.height, w, n);
      assert ClosedAt(s, lv, popLv, w);
      assert Witnessed(s, lv, n, popLv[w] + 1);
    }
  }

  /** Popping an entry keeps every witness: the popped cell becomes
      visited, every other entry only moves forward. */
  lemma WitnessAfterPop(s: State, lv: seq<nat>, n: int, bound: int)
    requires |s.open| > 0 && |lv| == |s.open| && 0 <= s.open[0] < |s.nodes|
    requires Witnessed(s, lv, n, bound)
    ensures var cur := s.open[0];
            Witnessed(State(s.nodes[cur := s.nodes[cur].(visited := true)], s.open[1..]), lv[1..], n, bound)
  {
    var cur := s.open[0];
    var s' := State(s.nodes[cur := s.nodes[cur].(visited := true)], s.open[1..]);
    if !(0 <= n < |s.nodes| && s.nodes[n].visited) {
      var j :| 0 <= j < |s.open| && j < |lv| && s.open[j] == n && lv[j] <= bound;
      if j > 0 {
        assert s'.open[j - 1] == n && lv[1..][j - 1] <= bound;
      }
    }
  }

  /** Popping the head of the open set, before its neighbours are relaxed:
      the neighbour loop's invariant holds, and the pop either visits a new
      cell or discards a stale entry. */
  lemma PopKeeps(g: Grid, start: int, target: int, s: State, lv: seq<nat>, popLv: seq<nat>, m: nat)
    requires Inv(g, start, target, s, lv, popLv, m)
    requires |s.open| > 0
    ensures var cur := s.open[0];
            var wasVisited := s.nodes[cur].visited;
            var s' := State(s.nodes[cur := s.nodes[cur].(visited := true)], s.open[1..]);
            var popLv' := if wasVisited then popLv else popLv[cur := lv[0]];
            && Expanding(g, start, s', lv[1..], popLv', lv[0], cur, s'.nodes[cur].neighbours, 0, wasVisited)
            && (cur != target ==> !s'.nodes[target].visited)
            && (wasVisited ==> Unvisited(s'.nodes) == Unvisited(s.nodes)
                               && Stale(s'.nodes, s'.open) + 1 == Stale(s.nodes, s.open))
            && (!wasVisited ==> Unvisited(s'.nodes) + 1 == Unvisited(s.nodes))
  {
    var cur := s.open[0];
    var wasVisited := s.nodes[cur].visited;
    var s' := State(s.nodes[cur := s.nodes[cur].(visited := true)], s.open[1..]);
    PlacedFrame(g, s.nodes, s'.nodes);
    PopFrontier(start, s, lv, m);
    PopLinks(start, s);
    PopCosted(start, s, lv, popLv, m);
    PopOptimal(g, start, target, s, lv, popLv, m);
    PopClosed(s, lv, popLv);
    if wasVisited {
      assert s'.nodes == s.nodes;
    } else {
      UnvisitedMark(s.nodes, cur);
    }
  }

  lemma PopFrontier(start: int, s: State, lv: seq<nat>, m: nat)
    requires Frontier(start, s, lv, m) && |s.open| > 0
    ensures var cur := s.open[0];
            && Frontier(start, State(s.nodes[cur := s.nodes[cur].(visited := true)], s.open[1..]), lv[1..], lv[0])
            && Phase(s.nodes[cur := s.nodes[cur].(visited := true)], start, cur, lv[0])
            && m <= lv[0]
  {
    var cur := s.open[0];
    var s' := State(s.nodes[cur := s.nodes[cur].(visited := true)], s.open[1..]);
    forall j | 0 <= j < |lv| - 1
      ensures lv[0] <= lv[1..][j] <= lv[0] + 1
      ensures Phase(s'.nodes, start, s'.open[j], lv[1..][j])
    {
      assert lv[0] <= lv[j + 1];
      assert Phase(s.nodes, start, s.open[j + 1], lv[j + 1]);
    }
    assert Phase(s.nodes, start, cur, lv[0]);
  }

  lemma PopLinks(start: int, s: State)
    requires Links(start, s.nodes) && |s.open| > 0 && 0 <= s.open[0] < |s.nodes|
    ensures var cur := s.open[0];
            Links(start, s.nodes[cur := s.nodes[cur].(visited := true)])
  {
    var cur := s.open[0];
    var nodes' := s.nodes[cur := s.nodes[cur].(visited := true)];
    forall v | 0 <= v < |nodes'|
      ensures LinkAt(start, nodes', v)
    {
      assert LinkAt(start, s.nodes, v);
    }
  }

  /** The cost of the popped cell is at most its level: its predecessor was
      popped no later than level `m`, and cost and level share a parity. */
  lemma PoppedCostBelowLevel(start: int, s: State, lv: seq<nat>, popLv: seq<nat>, m: nat)
    requires Frontier(start, s, lv, m) && Links(start, s.nodes) && Costed(s.nodes, popLv, m)
    requires |s.open| > 0
    ensures s.nodes[s.open[0]].cost.Some? && s.nodes[s.open[0]].cost.value <= lv[0]
  {
    var cur := s.open[0];
    var c := s.nodes[cur].cost.value;
    assert LinkAt(start, s.nodes, cur);
    if s.nodes[cur].previous.Some? {
      var u := s.nodes[cur].previous.value;
      assert LinkAt(start, s.nodes, cur);
      assert s.nodes[u].cost.value <= m;
      assert Phase(s.nodes, start, cur, c) && Phase(s.nodes, start, cur, lv[0]);
    }
  }

  lemma PopCosted(start: int, s: State, lv: seq<nat>, popLv: seq<nat>, m: nat)
    requires Frontier(start, s, lv, m) && Links(start, s.nodes) && Costed(s.nodes, popLv, m)
    requires |s.open| > 0
    ensures var cur := s.open[0];
            var popLv' := if s.nodes[cur].visited then popLv else popLv[cur := lv[0]];
            Costed(s.nodes[cur := s.nodes[cur].(visited := true)], popLv', lv[0])
  {
    PoppedCostBelowLevel(start, s, lv, popLv, m);
    assert m <= lv[0];
  }

  lemma PopOptimal(g: Grid, start: int, target: int, s: State, lv: seq<nat>, popLv: seq<nat>, m: nat)
    requires Inv(g, start, target, s, lv, popLv, m)
    requires |s.open| > 0
    ensures var cur := s.open[0];
            var popLv' := if s.nodes[cur].visited then popLv else popLv[cur := lv[0]];
            Optimal(g, start, s.nodes[cur := s.nodes[cur].(visited := true)], popLv')
  {
    var cur := s.open[0];
    var lev := lv[0];
    var nodes' := s.nodes[cur := s.nodes[cur].(visited := true)];
    var popLv' := if s.nodes[cur].visited then popLv else popLv[cur := lev];
    if !s.nodes[cur].visited {
      forall p | IsWalk(g, p) && p[0] == start && 0 <= p[|p| - 1] < |nodes'| && nodes'[p[|p| - 1]].visited
        ensures popLv'[p[|p| - 1]] <= |p| - 1
      {
        if p[|p| - 1] == cur {
          if |p| - 1 < lev {
            assert forall j | 0 <= j < |lv| :: lev <= lv[j];
            ReachedBelowLevel(g, start, s, lv, popLv, lev, p);
            assert false;
          }
        } else {
          assert s.nodes[p[|p| - 1]].visited;
        }
      }
    } else {
      assert nodes' == s.nodes;
    }
  }

  lemma PopClosed(s: State, lv: seq<nat>, popLv: seq<nat>)
    requires Closed(s, lv, popLv, -1)
    requires |s.open| > 0 && |lv| == |s.open| && 0 <= s.open[0] < |s.nodes|
    ensures var cur := s.open[0];
            var wasVisited := s.nodes[cur].visited;
            var s' := State(s.nodes[cur := s.nodes[cur].(visited := true)], s.open[1..]);
            var popLv' := if wasVisited then popLv else popLv[cur := lv[0]];
            var nbrs := s'.nodes[cur].neighbours;
            && Closed(s', lv[1..], popLv', cur)
            && (wasVisited ==> forall i | 0 <= i < |nbrs| && 0 <= nbrs[i] < |s'.nodes| && s'.nodes[nbrs[i]].traversable ::
                                 Witnessed(s', lv[1..], nbrs[i], popLv'[cur] + 1))
  {
    var cur := s.open[0];
    var wasVisited := s.nodes[cur].visited;
    var s' := State(s.nodes[cur := s.nodes[cur].(visited := true)], s.open[1..]);
    var popLv' := if wasVisited then popLv else popLv[cur := lv[0]];
    var nbrs := s'.nodes[cur].neighbours;
    forall u | 0 <= u < |s'.nodes| && u != cur && s'.nodes[u].visited
      ensures ClosedAt(s', lv[1..], popLv', u)
    {
      assert ClosedAt(s, lv, popLv, u);
      forall n | n in s'.nodes[u].neighbours && 0 <= n < |s'.nodes| && s'.nodes[n].traversable
        ensures Witnessed(s', lv[1..], n, popLv'[u] + 1)
      {
        WitnessAfterPop(s, lv, n, popLv[u] + 1);
      }
    }
    if wasVisited {
      assert ClosedAt(s, lv, popLv, cur);
      forall i | 0 <= i < |nbrs| && 0 <= nbrs[i] < |s'.nodes| && s'.nodes[nbrs[i]].traversable
        ensures Witnessed(s', lv[1..], nbrs[i], popLv'[cur] + 1)
      {
        assert nbrs[i] in s.nodes[cur].neighbours;
        WitnessAfterPop(s, lv, nbrs[i], popLv[cur] + 1);
      }
    }
  }

  /** Relaxing the `k`-th neighbour of `cur` moves the neighbour loop one
      step forward and leaves the visited flags and the stale-entry count
      alone. */
  lemma RelaxKeeps(g: Grid, start: int, s: State, lv: seq<nat>, popLv: seq<nat>, m: nat,
                   cur: int, nbrs: seq<int>, k: int, wasVisited: bool)
    requires Expanding(g, start, s, lv, popLv, m, cur, nbrs, k, wasVisited)
    requires k < |nbrs|
    ensures 0 <= nbrs[k] < |s.nodes|
    ensures s.nodes[cur].cost.Some?
    ensures Heuristic(s.nodes[cur], s.nodes[nbrs[k]]) == 1
    ensures var nb := nbrs[k];
            var pushed := s.nodes[nb].traversable && !s.nodes[nb].visited;
            var s' := Relax(s, cur, nb);
            var lv' := if pushed then lv + [m + 1] else lv;
            && Expanding(g, start, s', lv', popLv, m, cur, nbrs, k + 1, wasVisited)
            && SameVisited(s'.nodes, s.nodes)
            && Stale(s'.nodes, s'.open) == Stale(s.nodes, s.open)
  {
    var nb := nbrs[k];
    assert nb in s.nodes[cur].neighbours;
    NeighbourLink(g, s.nodes, cur, nb);
    assert Costed(s.nodes, popLv, m);
    if s.nodes[nb].traversable && !s.nodes[nb].visited {
      RelaxPushed(g, start, s, lv, popLv, m, cur, nbrs, k, wasVisited);
    } else {
      RelaxSkipped(g, start, s, lv, popLv, m, cur, nbrs, k, wasVisited);
    }
  }

  lemma RelaxSkipped(g: Grid, start: int, s: State, lv: seq<nat>, popLv: seq<nat>, m: nat,
                     cur: int, nbrs: seq<int>, k: int, wasVisited: bool)
    requires Expanding(g, start, s, lv, popLv, m, cur, nbrs, k, wasVisited)
    requires 0 <= k < |nbrs| && 0 <= nbrs[k] < |s.nodes| && s.nodes[cur].cost.Some?
    requires Heuristic(s.nodes[cur], s.nodes[nbrs[k]]) == 1
    requires !s.nodes[nbrs[k]].traversable || s.nodes[nbrs[k]].visited
    ensures Relax(s, cur, nbrs[k]) == s
    ensures Expanding(g, start, s, lv, popLv, m, cur, nbrs, k + 1, wasVisited)
  {
    var nb := nbrs[k];
    if nb < |s.nodes| && s.nodes[nb].traversable {
      assert Witnessed(s, lv, nb, popLv[cur] + 1);
    }
  }

  lemma RelaxPushed(g: Grid, start: int, s: State, lv: seq<nat>, popLv: seq<nat>, m: nat,
                    cur: int, nbrs: seq<int>, k: int, wasVisited: bool)
    requires Expanding(g, start, s, lv, popLv, m, cur, nbrs, k, wasVisited)
    requires 0 <= k < |nbrs| && 0 <= nbrs[k] < |s.nodes| && s.nodes[cur].cost.Some?
    requires Heuristic(s.nodes[cur], s.nodes[nbrs[k]]) == 1
    requires s.nodes[nbrs[k]].traversable && !s.nodes[nbrs[k]].visited
    ensures var s' := Relax(s, cur, nbrs[k]);
            && Expanding(g, start, s', lv + [m + 1], popLv, m, cur, nbrs, k + 1, wasVisited)
            && SameVisited(s'.nodes, s.nodes)
            && Stale(s'.nodes, s'.open) == Stale(s.nodes, s.open)
  {
    var nb := nbrs[k];
    var s' := Relax(s, cur, nb);
    assert SameShape(s.nodes, s'.nodes);
    PlacedFrame(g, s.nodes, s'.nodes);
    RelaxFrontier(start, s, lv, m, cur, nb);
    RelaxLinks(start, s, cur, nb);
    RelaxCostedOptimal(g, start, s, popLv, m, cur, nb);
    RelaxClosed(s, lv, popLv, m, cur, nbrs, k, wasVisited);
    assert SameVisited(s'.nodes, s.nodes);
    StaleAppendFresh(s.nodes, s.open, nb);
    StaleFrame(s'.nodes, s.nodes, s'.open);
    assert Phase(s'.nodes, start, cur, m) by {
      assert Phase(s.nodes, start, cur, m);
    }
  }

  lemma RelaxFrontier(start: int, s: State, lv: seq<nat>, m: nat, cur: int, nb: int)
    requires Frontier(start, s, lv, m)
    requires 0 <= cur < |s.nodes| && 0 <= nb < |s.nodes| && s.nodes[cur].cost.Some?
    requires Phase(s.nodes, start, cur, m)
    requires Heuristic(s.nodes[cur], s.nodes[nb]) == 1
    requires s.nodes[nb].traversable && !s.nodes[nb].visited
    ensures Frontier(start, Relax(s, cur, nb), lv + [m + 1], m)
  {
    var s' := Relax(s, cur, nb);
    var lv' := lv + [m + 1];
    forall j | 0 <= j < |lv'|
      ensures Phase(s'.nodes, start, s'.open[j], lv'[j])
    {
      if j < |lv| {
        assert Phase(s.nodes, start, s.open[j], lv[j]);
      }
    }
  }

  lemma RelaxLinks(start: int, s: State, cur: int, nb: int)
    requires Links(start, s.nodes)
    requires 0 <= cur < |s.nodes| && 0 <= nb < |s.nodes| && s.nodes[cur].cost.Some?
    requires s.nodes[cur].visited && s.nodes[start].visited
    requires Heuristic(s.nodes[cur], s.nodes[nb]) == 1
    requires s.nodes[nb].traversable && !s.nodes[nb].visited
    ensures Links(start, Relax(s, cur, nb).nodes)
  {
    var nodes' := Relax(s, cur, nb).nodes;
    assert LinkAt(start, s.nodes, cur);
    assert LinkOk(nodes', nb, cur);
    forall v | 0 <= v < |nodes'|
      ensures LinkAt(start, nodes', v)
    {
      assert LinkAt(start, s.nodes, v);
    }
  }

  lemma RelaxCostedOptimal(g: Grid, start: int, s: State, popLv: seq<nat>, m: nat, cur: int, nb: int)
    requires Costed(s.nodes, popLv, m) && Optimal(g, start, s.nodes, popLv)
    requires 0 <= cur < |s.nodes| && 0 <= nb < |s.nodes| && s.nodes[cur].cost.Some?
    requires Heuristic(s.nodes[cur], s.nodes[nb]) == 1
    requires s.nodes[nb].traversable && !s.nodes[nb].visited
    ensures Costed(Relax(s, cur, nb).nodes, popLv, m)
    ensures Optimal(g, start, Relax(s, cur, nb).nodes, popLv)
  {
  }

  lemma RelaxClosed(s: State, lv: seq<nat>, popLv: seq<nat>, m: nat,
                    cur: int, nbrs: seq<int>, k: int, wasVisited: bool)
    requires Closed(s, lv, popLv, cur) && |lv| == |s.open|
    requires 0 <= cur < |s.nodes| && s.nodes[cur].cost.Some?
    requires 0 <= k < |nbrs| && 0 <= nbrs[k] < |s.nodes|
    requires !wasVisited ==> popLv[cur] == m
    requires forall i | 0 <= i < |nbrs| && (i < k || wasVisited) && 0 <= nbrs[i] < |s.nodes| && s.nodes[nbrs[i]].traversable ::
               Witnessed(s, lv, nbrs[i], popLv[cur] + 1)
    requires Heuristic(s.nodes[cur], s.nodes[nbrs[k]]) == 1
    requires s.nodes[nbrs[k]].traversable && !s.nodes[nbrs[k]].visited
    ensures var s' := Relax(s, cur, nbrs[k]);
            var lv' := lv + [m + 1];
            && Closed(s', lv', popLv, cur)
            && forall i | 0 <= i < |nbrs| && (i < k + 1 || wasVisited) && 0 <= nbrs[i] < |s'.nodes| && s'.nodes[nbrs[i]].traversable ::
                 Witnessed(s', lv', nbrs[i], popLv[cur] + 1)
  {
    var nb := nbrs[k];
    var s' := Relax(s, cur, nb);
    var lv' := lv + [m + 1];
    forall n, bound | Witnessed(s, lv, n, bound)
      ensures Witnessed(s', lv', n, bound)
    {
      if !(0 <= n < |s.nodes| && s.nodes[n].visited) {
        var j :| 0 <= j < |s.open| && j < |lv| && s.open[j] == n && lv[j] <= bound;
        assert s'.open[j] == n && lv'[j] <= bound;
      }
    }
    if !wasVisited {
      assert s'.open[|s.open|] == nb && lv'[|s.open|] == popLv[cur] + 1;
      assert Witnessed(s', lv', nb, popLv[cur] + 1);
    }
    forall u | 0 <= u < |s'.nodes| && u != cur && s'.nodes[u].visited
      ensures ClosedAt(s', lv', popLv, u)
    {
      assert ClosedAt(s, lv, popLv, u);
    }
  }

  /** Once every neighbour of `cur` is relaxed the loop invariant holds
      again. */
  lemma ExpandDone(g: Grid, start: int, target: int, s: State, lv: seq<nat>, popLv: seq<nat>, m: nat,
                   cur: int, nbrs: seq<int>, wasVisited: bool)
    requires Expanding(g, start, s, lv, popLv, m, cur, nbrs, |nbrs|, wasVisited)
    requires 0 <= target < |s.nodes| && !s.nodes[target].visited
    ensures Inv(g, start, target, s, lv, popLv, m)
  {
    assert ClosedAt(s, lv, popLv, cur) by {
      forall n | n in s.nodes[cur].neighbours && 0 <= n < |s.nodes| && s.nodes[n].traversable
        ensures Witnessed(s, lv, n, popLv[cur] + 1)
      {
        var i :| 0 <= i < |nbrs| && nbrs[i] == n;
      }
    }
  }

  /** When the open set runs empty no walk leads from the start to the
      target. */
  lemma ExhaustedMeansUnreachable(g: Grid, start: int, target: int, s: State, lv: seq<nat>, popLv: seq<nat>, m: nat)
    requires Inv(g, start, target, s, lv, popLv, m)
    requires s.open == []
    ensures !Connected(g, start, target)
  {
    if Connected(g, start, target) {
      var p :| IsPath(g, p, start, target);
      ReachedBelowLevel(g, start, s, lv, popLv, |p|, p);
      assert false;
    }
  }

  /** Consistent links can be followed back: Links gives Linked. */
  lemma LinksFollow(g: Grid, start: int, nodes: seq<Node>)
    requires Placed(g, nodes) && Links(start, nodes)
    ensures Linked(nodes, g.width)
  {
    forall u | 0 <= u < |nodes|
      ensures LinkedAt(nodes, g.width, u)
    {
      assert PlacedAt(g, nodes, u);
      DecodeRoundTrip(g.width, g.height, u);
      assert LinkAt(start, nodes, u);
    }
  }

  /** One predecessor link is one step of a walk into a walkable cell, and a
      predecessor without a predecessor of its own is the start. */
  lemma LinkStep(g: Grid, start: int, nodes: seq<Node>, w: int)
    requires Placed(g, nodes) && Links(start, nodes)
    requires 0 <= w < |nodes| && nodes[w].previous.Some?
    ensures var u := nodes[w].previous.value;
            && 0 <= u < |nodes|
            && Adjacent(g.width, u, w) && g.Traversable(w)
            && (nodes[u].previous.None? ==> u == start)
  {
    assert LinkAt(start, nodes, w);
    var u := nodes[w].previous.value;
    assert PlacedAt(g, nodes, w);
    HeuristicIsDistance(g, nodes, u, w);
    assert LinkAt(start, nodes, u);
  }

  /** Entry `j` of the retraced sequence is a walkable cell one step from
      the entry after it, or from the start for the last entry. */
  lemma RetraceStep(g: Grid, start: int, nodes: seq<Node>, r: seq<int>, j: int)
    requires Placed(g, nodes) && Links(start, nodes)
    requires 0 <= j < |r|
    requires forall k | 0 <= k < |r| :: 0 <= r[k] < |nodes| && nodes[r[k]].previous.Some?
    requires LinksOnward(nodes, r, j) || j == |r| - 1
    requires j == |r| - 1 ==> var u := nodes[r[j]].previous.value; 0 <= u < |nodes| && nodes[u].previous.None?
    ensures Adjacent(g.width, if j == |r| - 1 then start else r[j + 1], r[j]) && g.Traversable(r[j])
  {
    LinkStep(g, start, nodes, r[j]);
  }

  /** The predecessor links of a consistent state lead back from any costed
      cell to the start along a walk as long as the cell's cost. */
  lemma RetraceIsPath(g: Grid, start: int, nodes: seq<Node>, v: int)
    requires Placed(g, nodes) && Links(start, nodes)
    requires 0 <= v < |nodes| && nodes[v].cost.Some?
    ensures Linked(nodes, g.width)
    ensures IsPath(g, [start] + Reverse(RetracePath(nodes, g.width, v)), start, v)
  {
    LinksFollow(g, start, nodes);
    var r := RetracePath(nodes, g.width, v);
    var p := [start] + Reverse(r);
    if |r| == 0 {
      assert LinkAt(start, nodes, v);
    } else {
      assert p[|r|] == v;
    }
    forall i | 1 <= i < |p|
      ensures StepAt(g, p, i)
    {
      var j := |r| - i;
      if j < |r| - 1 {
        assert LinksOnward(nodes, r, j);
        assert p[i - 1] == r[j + 1];
      }
      RetraceStep(g, start, nodes, r, j);
    }
  }
}
