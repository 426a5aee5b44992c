/** FindPath of path_finding.cpp: the open-set loop over the search records,
    the retracing of the found path and the copy into the caller's buffer.
    The caller's buffer is passed in and the buffer after the call is
    returned. */
module PathFinding {
  import opened Geometry
  import opened Nodes
  import opened SearchInvariants

  /** `r` is the length of a shortest walk from `a` to `b`, or -1 when there
      is no walk at all. */
  ghost predicate ShortestLength(g: Grid, a: int, b: int, r: int) {
    && r >= -1
    && (r == -1 <==> !Connected(g, a, b))
    && (r >= 0 ==> exists p :: IsPath(g, p, a, b) && |p| == r + 1)
    && (r >= 0 ==> forall p | IsPath(g, p, a, b) :: r <= |p| - 1)
  }

  /** What the caller's buffer holds afterwards: when the length `r` is
      non-negative and below `outSize`, its first `r` entries are the cells
      of a walk from `a` to `b`, after `a`, and the rest is untouched;
      otherwise nothing is written. */
  ghost predicate BufferWritten(g: Grid, a: int, b: int, r: int, outBuffer: seq<int>, outSize: int, out: seq<int>) {
    && |out| == |outBuffer|
    && (0 <= r < outSize ==> r <= |out| && IsPath(g, [a] + out[..r], a, b) && out[r..] == outBuffer[r..])
    && (!(0 <= r < outSize) ==> out == outBuffer)
  }

  /** The search as the source performs it, with the row decoding corrected
      to `i / width`. The start cell's walkability is not consulted. */
  method FindPath(startX: int, startY: int, targetX: int, targetY: int, cells: seq<byte>,
                  width: int, height: int, outBuffer: seq<int>, outSize: nat)
    returns (r: int, out: seq<int>)
    requires 1 <= width && 1 <= height && |cells| == width * height
    requires 0 <= startX < width && 0 <= startY < height
    requires 0 <= targetX < width && 0 <= targetY < height
    requires outSize <= |outBuffer|
    ensures ShortestLength(Grid(width, height, cells), Encode(width, startX, startY), Encode(width, targetX, targetY), r)
    ensures Encode(width, startX, startY) == Encode(width, targetX, targetY) ==> r == 0
    ensures BufferWritten(Grid(width, height, cells), Encode(width, startX, startY), Encode(width, targetX, targetY),
                          r, outBuffer, outSize, out)
  {
    var g := Grid(width, height, cells);
    var start := Encode(width, startX, startY);
    var target := Encode(width, targetX, targetY);
    EncodeRoundTrip(width, height, startX, startY);
    EncodeRoundTrip(width, height, targetX, targetY);
    var nodes := InitNodes(g);
    InitInv(g, start, target, nodes);
    var s := State(nodes[start := nodes[start].(cost := Some(0))], [start]);
    ghost var lv: seq<nat> := [0];
    ghost var popLv: seq<nat> := seq(g.Size(), _ => 0);
    ghost var m: nat := 0;
    while s.open != []
      invariant Inv(g, start, target, s, lv, popLv, m)
      decreases Unvisited(s.nodes), Stale(s.nodes, s.open)
    {
      var cur := s.open[0];
      ghost var wasVisited := s.nodes[cur].visited;
      PopKeeps(g, start, target, s, lv, popLv, m);
      s := State(s.nodes[cur := s.nodes[cur].(visited := true)], s.open[1..]);
      if !wasVisited {
        popLv := popLv[cur := lv[0]];
      }
      m := lv[0];
      lv := lv[1..];

      if cur == target {
        r, out := Found(g, start, target, s, lv, popLv, m, outBuffer, outSize);
        return;
      }

      s, lv := Expand(g, start, target, s, lv, popLv, m, cur, wasVisited);
    }
    ExhaustedMeansUnreachable(g, start, target, s, lv, popLv, m);
    r := -1;
    out := outBuffer;
  }

  /** The neighbour loop of the source for the popped cell `cur`: relax
      each neighbour in turn. Visited flags and stale open-set entries are
      left as they were, and the loop invariant holds again afterwards. */
  method Expand(g: Grid, start: int, target: int, s: State, ghost lv: seq<nat>, ghost popLv: seq<nat>, ghost m: nat,
                cur: int, ghost wasVisited: bool)
    returns (s': State, ghost lv': seq<nat>)
    requires 0 <= cur < |s.nodes|
    requires Expanding(g, start, s, lv, popLv, m, cur, s.nodes[cur].neighbours, 0, wasVisited)
    requires 0 <= target < |s.nodes| && !s.nodes[target].visited
    ensures Inv(g, start, target, s', lv', popLv, m)
    ensures Unvisited(s'.nodes) == Unvisited(s.nodes)
    ensures Stale(s'.nodes, s'.open) == Stale(s.nodes, s.open)
  {
    var nbrs := s.nodes[cur].neighbours;
    s', lv' := s, lv;
    var k := 0;
    while k < |nbrs|
      invariant Expanding(g, start, s', lv', popLv, m, cur, nbrs, k, wasVisited)
      invariant Unvisited(s'.nodes) == Unvisited(s.nodes)
      invariant Stale(s'.nodes, s'.open) == Stale(s.nodes, s.open)
      invariant !s'.nodes[target].visited
    {
      RelaxKeeps(g, start, s', lv', popLv, m, cur, nbrs, k, wasVisited);
      UnvisitedFrame(Relax(s', cur, nbrs[k]).nodes, s'.nodes);
      ghost var pushed := s'.nodes[nbrs[k]].traversable && !s'.nodes[nbrs[k]].visited;
      s' := Relax(s', cur, nbrs[k]);
      if pushed {
        lv' := lv' + [m + 1];
      }
      k := k + 1;
    }
    ExpandDone(g, start, target, s', lv', popLv, m, cur, nbrs, wasVisited);
  }

  /** The target has just been popped: retrace its links, copy the reversed
      path into the buffer when it fits, and return its length. */
  method Found(g: Grid, start: int, target: int, s: State, ghost lv: seq<nat>, ghost popLv: seq<nat>, ghost m: nat,
               outBuffer: seq<int>, outSize: nat)
    returns (r: int, out: seq<int>)
    requires 0 <= target < |s.nodes|
    requires Expanding(g, start, s, lv, popLv, m, target, s.nodes[target].neighbours, 0, false)
    requires outSize <= |outBuffer|
    ensures ShortestLength(g, start, target, r)
    ensures start == target ==> r == 0
    ensures BufferWritten(g, start, target, r, outBuffer, outSize, out)
  {
    assert Costed(s.nodes, popLv, m);
    RetraceIsPath(g, start, s.nodes, target);
    var path := RetracePath(s.nodes, g.width, target);
    ghost var walk := [start] + Reverse(path);
    assert IsPath(g, walk, start, target);
    if |path| < outSize {
      out := Reverse(path) + outBuffer[|path|..];
      assert out[..|path|] == Reverse(path);
      assert out[|path|..] == outBuffer[|path|..];
    } else {
      out := outBuffer;
    }
    r := |path|;
    forall p | IsPath(g, p, start, target)
      ensures r <= |p| - 1
    {
      assert IsWalk(g, p) && p[0] == start && s.nodes[p[|p| - 1]].visited;
    }
    if start == target {
      assert IsPath(g, [start], start, target);
    }
  }

  /** The search with a start-cell check. The neighbour loop never steps
      onto a wall, so a walk may not leave one either: a start equal to the
      target is reached in zero steps whatever its cell holds, and otherwise
      a blocked start has no path. */
  method FindPathChecked(startX: int, startY: int, targetX: int, targetY: int, cells: seq<byte>,
                         width: int, height: int, outBuffer: seq<int>, outSize: nat)
    returns (r: int, out: seq<int>)
    requires 1 <= width && 1 <= height && |cells| == width * height
    requires 0 <= startX < width && 0 <= startY < height
    requires 0 <= targetX < width && 0 <= targetY < height
    requires outSize <= |outBuffer|
    ensures var g := Grid(width, height, cells);
            var a := Encode(width, startX, startY);
            var b := Encode(width, targetX, targetY);
            && (r == -1 <==> a != b && !(g.Traversable(a) && Connected(g, a, b)))
            && (r >= 0 ==> ShortestLength(g, a, b, r))
            && (a == b ==> r == 0)
            && BufferWritten(g, a, b, r, outBuffer, outSize, out)
  {
    var a := Encode(width, startX, startY);
    var b := Encode(width, targetX, targetY);
    EncodeRoundTrip(width, height, startX, startY);
    if a != b && !Grid(width, height, cells).Traversable(a) {
      r := -1;
      out := outBuffer;
    } else {
      r, out := FindPath(startX, startY, targetX, targetY, cells, width, height, outBuffer, outSize);
    }
  }
}
