/** The search records of path_finding.cpp and the pure steps over them:
    building one record per cell, the Manhattan heuristic, relaxing one
    neighbour, and walking the predecessor links back from a cell. Records
    live in a sequence indexed by flat cell index; a predecessor pointer is an
    optional index into that sequence. */
module Nodes {
  import opened Geometry

  datatype Option<T> = None | Some(value: T)

  /** One record per cell. `cost` is the length of the walk found so far from
      the start (None stands for the source's INFINITY); `neighbours` are the
      indices of the linked cells; `previous` is the index of the cell it was
      reached from. The source's `fDistance` is never read and is not kept. */
  datatype Node = Node(x: int, y: int, visited: bool, traversable: bool, cost: Option<nat>,
                       neighbours: seq<int>, previous: Option<int>)

  /** The records together with the open set, a FIFO queue of cell indices. */
  datatype State = State(nodes: seq<Node>, open: seq<int>)

  /** The record at index `v` describes cell `v`: its column and row, its
      walkability and its neighbour links. */
  ghost predicate PlacedAt(g: Grid, nodes: seq<Node>, v: int)
    requires g.Valid() && 0 <= v < |nodes|
  {
    && nodes[v].x == Column(g.width, v)
    && nodes[v].y == Row(g.width, v)
    && nodes[v].traversable == g.Traversable(v)
    && nodes[v].neighbours == Neighbours(g.width, g.height, v)
  }

  /** One record per cell, each describing its own cell. */
  ghost predicate Placed(g: Grid, nodes: seq<Node>) {
    && g.Valid()
    && |nodes| == g.Size()
    && forall v | 0 <= v < |nodes| :: PlacedAt(g, nodes, v)
  }

  /** Records agree on everything the search never changes. */
  ghost predicate SameShape(a: seq<Node>, b: seq<Node>) {
    && |a| == |b|
    && forall v | 0 <= v < |a| ::
         && a[v].x == b[v].x && a[v].y == b[v].y
         && a[v].traversable == b[v].traversable && a[v].neighbours == b[v].neighbours
  }

  lemma PlacedFrame(g: Grid, a: seq<Node>, b: seq<Node>)
    requires Placed(g, a) && SameShape(a, b)
    ensures Placed(g, b)
  {
    forall v | 0 <= v < |b|
      ensures PlacedAt(g, b, v)
    {
      assert PlacedAt(g, a, v);
    }
  }

  /** A linked neighbour is a cell of the map, different from the cell, at
      heuristic distance one from it. */
  lemma NeighbourLink(g: Grid, nodes: seq<Node>, u: int, n: int)
    requires Placed(g, nodes) && 0 <= u < |nodes| && n in nodes[u].neighbours
    ensures 0 <= n < |nodes| && n != u
    ensures Heuristic(nodes[u], nodes[n]) == 1
  {
    assert PlacedAt(g, nodes, u);
    NeighbourSound(g.width, g.height, u, n);
    HeuristicIsDistance(g, nodes, u, n);
  }

  /** Fresh records for a search: placed, not visited, no cost, no
      predecessor. */
  function InitNodes(g: Grid): (r: seq<Node>)
    requires g.Valid()
    ensures Placed(g, r)
    ensures forall v | 0 <= v < |r| :: 0 <= r[v].x < g.width && 0 <= r[v].y < g.height
    ensures forall v | 0 <= v < |r| :: Encode(g.width, r[v].x, r[v].y) == v
    ensures forall v | 0 <= v < |r| :: !r[v].visited && r[v].cost == None && r[v].previous == None
  {
    var r := seq(g.Size(), v requires 0 <= v < g.Size() =>
      Node(Column(g.width, v), Row(g.width, v), false, g.Traversable(v), None,
           Neighbours(g.width, g.height, v), None));
    assert forall v | 0 <= v < |r| :: PlacedAt(g, r, v);
    assert forall v | 0 <= v < |r| :: 0 <= r[v].x < g.width && 0 <= r[v].y < g.height
                                      && Encode(g.width, r[v].x, r[v].y) == v by {
      forall v | 0 <= v < |r|
        ensures 0 <= r[v].x < g.width && 0 <= r[v].y < g.height && Encode(g.width, r[v].x, r[v].y) == v
      {
        DecodeRoundTrip(g.width, g.height, v);
      }
    }
    r
  }

  /** The source's heuristic: Manhattan distance between two records. */
  function Heuristic(a: Node, b: Node): nat {
    Abs(a.x - b.x) + Abs(a.y - b.y)
  }

  /** On placed records the heuristic is the Manhattan distance of the two
      cells; it is therefore symmetric, zero only for the same cell, and one
      for every linked neighbour. */
  lemma HeuristicIsDistance(g: Grid, nodes: seq<Node>, a: int, b: int)
    requires Placed(g, nodes)
    requires 0 <= a < |nodes| && 0 <= b < |nodes|
    ensures Heuristic(nodes[a], nodes[b]) == Distance(g.width, a, b)
    ensures Heuristic(nodes[a], nodes[b]) == Heuristic(nodes[b], nodes[a])
    ensures Heuristic(nodes[a], nodes[b]) == 0 <==> a == b
    ensures b in Neighbours(g.width, g.height, a) ==> Heuristic(nodes[a], nodes[b]) == 1
  {
    assert PlacedAt(g, nodes, a) && PlacedAt(g, nodes, b);
    DistanceProperties(g.width, g.height, a, b, b);
    if b in Neighbours(g.width, g.height, a) {
      NeighbourSound(g.width, g.height, a, b);
    }
  }

  /** `c < known`, where an unknown cost is infinite. */
  predicate Below(c: nat, known: Option<nat>) {
    known.None? || c < known.value
  }

  /** One pass of the source's neighbour loop: a blocked or visited neighbour
      is skipped; otherwise its cost and predecessor are set from the current
      record and it is appended to the open set. Since the heuristic between
      neighbours is one and the guard's second disjunct always holds, the
      update always happens and sets the cost to the current cost plus one. */
  function Relax(s: State, cur: int, nb: int): (s': State)
    requires 0 <= cur < |s.nodes| && 0 <= nb < |s.nodes|
    requires s.nodes[cur].cost.Some?
    requires Heuristic(s.nodes[cur], s.nodes[nb]) == 1
    ensures !s.nodes[nb].traversable || s.nodes[nb].visited ==> s' == s
    ensures s.nodes[nb].traversable && !s.nodes[nb].visited ==>
              && s'.open == s.open + [nb]
              && s'.nodes == s.nodes[nb := s.nodes[nb].(cost := Some(s.nodes[cur].cost.value + 1),
                                                       previous := Some(cur))]
    ensures |s'.nodes| == |s.nodes| && s'.open[..|s.open|] == s.open
    ensures forall v | 0 <= v < |s.nodes| :: s'.nodes[v].visited == s.nodes[v].visited
    ensures forall v | 0 <= v < |s.nodes| && s.nodes[v].visited :: s'.nodes[v] == s.nodes[v]
  {
    var n := s.nodes[nb];
    if !n.traversable || n.visited then s
    else
      var tentative := s.nodes[cur].cost.value + Heuristic(s.nodes[cur], n);
      if Below(tentative, n.cost) || !n.visited then
        var nodes' := s.nodes[nb := n.(cost := Some(tentative), previous := Some(cur))];
        State(nodes', if !nodes'[nb].visited then s.open + [nb] else s.open)
      else
        s
  }

  /** The predecessor link of record `v` can be followed back: the record
      sits at the index its coordinates encode, and its link goes to a record
      whose cost is one less; a record without a link has cost zero. */
  ghost predicate LinkedAt(nodes: seq<Node>, width: int, v: int)
    requires 0 <= v < |nodes|
  {
    && Encode(width, nodes[v].x, nodes[v].y) == v
    && (nodes[v].previous.Some? ==>
          && 0 <= nodes[v].previous.value < |nodes|
          && nodes[v].cost.Some?
          && nodes[nodes[v].previous.value].cost.Some?
          && nodes[v].cost.value == nodes[nodes[v].previous.value].cost.value + 1)
    && (nodes[v].previous.None? && nodes[v].cost.Some? ==> nodes[v].cost.value == 0)
  }

  ghost predicate Linked(nodes: seq<Node>, width: int) {
    forall v | 0 <= v < |nodes| :: LinkedAt(nodes, width, v)
  }

  /** Entry `k` of the index sequence `r` names a record whose predecessor is
      entry `k + 1`. */
  predicate LinksOnward(nodes: seq<Node>, r: seq<int>, k: int) {
    0 <= k < |r| - 1 && 0 <= r[k] < |nodes| && nodes[r[k]].previous == Some(r[k + 1])
  }

  /** The cell indices from `v` back along the predecessor links, excluding
      the record that has no predecessor. The cost strictly decreases along
      the links, so the walk back terminates. */
  function RetracePath(nodes: seq<Node>, width: int, v: int): (r: seq<int>)
    requires Linked(nodes, width)
    requires 0 <= v < |nodes| && nodes[v].cost.Some?
    ensures |r| == nodes[v].cost.value
    ensures |r| == 0 <==> nodes[v].previous.None?
    ensures |r| > 0 ==> r[0] == v
    ensures forall k | 0 <= k < |r| :: 0 <= r[k] < |nodes| && nodes[r[k]].previous.Some?
    ensures forall k | 0 <= k < |r| - 1 :: LinksOnward(nodes, r, k)
    ensures |r| > 0 ==> var u := nodes[r[|r| - 1]].previous.value; 0 <= u < |nodes| && nodes[u].previous.None?
    decreases nodes[v].cost.value
  {
    assert LinkedAt(nodes, width, v);
    match nodes[v].previous
    case None => []
    case Some(u) =>
      var rest := RetracePath(nodes, width, u);
      OnwardCons(nodes, v, rest);
      [nodes[v].y * width + nodes[v].x] + rest
  }

  lemma OnwardCons(nodes: seq<Node>, v: int, rest: seq<int>)
    requires 0 <= v < |nodes|
    requires |rest| > 0 ==> nodes[v].previous == Some(rest[0])
    requires forall k | 0 <= k < |rest| - 1 :: LinksOnward(nodes, rest, k)
    ensures forall k | 0 <= k < |rest| :: LinksOnward(nodes, [v] + rest, k)
  {
    var r := [v] + rest;
    forall k | 0 <= k < |rest|
      ensures LinksOnward(nodes, r, k)
    {
      if k > 0 {
        assert LinksOnward(nodes, rest, k - 1);
      }
    }
  }

  function Reverse(s: seq<int>): (r: seq<int>)
    ensures |r| == |s|
    ensures forall k | 0 <= k < |s| :: r[k] == s[|s| - 1 - k]
  {
    if s == [] then [] else Reverse(s[1..]) + [s[0]]
  }

  /** Records agree on which cells are visited. */
  ghost predicate SameVisited(a: seq<Node>, b: seq<Node>) {
    |a| == |b| && forall v | 0 <= v < |a| :: a[v].visited == b[v].visited
  }

  /** Number of records not yet visited. */
  function Unvisited(nodes: seq<Node>): nat {
    if nodes == [] then 0 else (if nodes[0].visited then 0 else 1) + Unvisited(nodes[1..])
  }

  /** Number of open-set entries whose cell is already visited. */
  function Stale(nodes: seq<Node>, open: seq<int>): nat {
    if open == [] then 0
    else (if 0 <= open[0] < |nodes| && nodes[open[0]].visited then 1 else 0) + Stale(nodes, open[1..])
  }

  lemma {:induction false} UnvisitedFrame(a: seq<Node>, b: seq<Node>)
    requires SameVisited(a, b)
    ensures Unvisited(a) == Unvisited(b)
    decreases |a|
  {
    if a != [] {
      UnvisitedFrame(a[1..], b[1..]);
    }
  }

  /** Marking an unvisited record visited lowers the count by one. */
  lemma {:induction false} UnvisitedMark(nodes: seq<Node>, v: int)
    requires 0 <= v < |nodes| && !nodes[v].visited
    ensures Unvisited(nodes[v := nodes[v].(visited := true)]) + 1 == Unvisited(nodes)
    decreases |nodes|
  {
    var nodes' := nodes[v := nodes[v].(visited := true)];
    if v == 0 {
      assert nodes'[1..] == nodes[1..];
    } else {
      assert nodes'[1..] == nodes[1..][v - 1 := nodes[v].(visited := true)];
      UnvisitedMark(nodes[1..], v - 1);
    }
  }

  lemma {:induction false} StaleFrame(a: seq<Node>, b: seq<Node>, open: seq<int>)
    requires SameVisited(a, b)
    ensures Stale(a, open) == Stale(b, open)
    decreases |open|
  {
    if open != [] {
      StaleFrame(a, b, open[1..]);
    }
  }

  /** Appending an unvisited cell adds no stale entry. */
  lemma {:induction false} StaleAppendFresh(nodes: seq<Node>, open: seq<int>, n: int)
    requires 0 <= n < |nodes| && !nodes[n].visited
    ensures Stale(nodes, open + [n]) == Stale(nodes, open)
    decreases |open|
  {
    if open == [] {
      assert Stale(nodes, [n]) == Stale(nodes, []);
    } else {
      assert (open + [n])[1..] == open[1..] + [n];
      StaleAppendFresh(nodes, open[1..], n);
    }
  }
}
