/** The two searches of the source's demonstration program, a blocked
    single cell and a blocked start, each derived from the contract of
    FindPath alone. */
module Examples {
  import opened Geometry
  import opened PathFinding

  /** The 4 x 3 map of the first demonstration. */
  const FirstMap: seq<byte> := [1, 1, 1, 1, 0, 1, 0, 1, 0, 1, 1, 1]

  /** The 3 x 3 map of the second demonstration. */
  const SecondMap: seq<byte> := [0, 0, 1, 0, 1, 1, 1, 0, 1]

  /** The walk of the first demonstration: 0, 1, 5, 9. */
  lemma FirstMapWalk()
    ensures IsPath(Grid(4, 3, FirstMap), [0, 1, 5, 9], 0, 9)
  {
    var g := Grid(4, 3, FirstMap);
    assert IsWalk(g, [0]);
    assert Adjacent(4, 0, 1) && g.Traversable(1);
    WalkExtend(g, [0], 1);
    assert Adjacent(4, 1, 5) && g.Traversable(5);
    WalkExtend(g, [0, 1], 5);
    assert Adjacent(4, 5, 9) && g.Traversable(9);
    WalkExtend(g, [0, 1, 5], 9);
  }

  lemma FirstMapNeighboursOfStart()
    ensures Neighbours(4, 3, 0) == [4, 1]
  {
  }

  lemma FirstMapNeighboursOfTarget()
    ensures Neighbours(4, 3, 9) == [5, 8, 10]
  {
  }

  /** A walkable neighbour of cell 0 in the first map is cell 1. */
  lemma FirstMapAfterStart(n: int)
    requires Adjacent(4, 0, n) && Grid(4, 3, FirstMap).Traversable(n)
    ensures n == 1
  {
    FirstMapNextToStart(n);
    assert FirstMap[4] == 0;
  }

  /** The cells of the first map next to cell 0. */
  lemma FirstMapNextToStart(n: int)
    requires 0 <= n < 12 && Adjacent(4, 0, n)
    ensures n == 4 || n == 1
  {
    NeighbourComplete(4, 3, 0, n);
    FirstMapNeighboursOfStart();
  }

  /** The cells of the first map next to cell 9. */
  lemma FirstMapNextToTarget(n: int)
    requires 0 <= n < 12 && Adjacent(4, n, 9)
    ensures n == 5 || n == 8 || n == 10
  {
    DistanceProperties(4, 3, n, 9, 9);
    NeighbourComplete(4, 3, 9, n);
    FirstMapNeighboursOfTarget();
  }

  /** A walkable cell next to both cell 1 and cell 9 of the first map is
      cell 5. */
  lemma FirstMapBeforeTarget(n: int)
    requires Adjacent(4, 1, n) && Adjacent(4, n, 9) && Grid(4, 3, FirstMap).Traversable(n)
    ensures n == 5
  {
    FirstMapNextToTarget(n);
    assert FirstMap[8] == 0 && Distance(4, 1, 10) == 3;
  }

  /** In the first map the only three-step walk from cell 0 to cell 9 goes
      through cells 1 and 5. */
  lemma FirstMapShortestWalk(q: seq<int>)
    requires IsPath(Grid(4, 3, FirstMap), q, 0, 9) && |q| == 4
    ensures q == [0, 1, 5, 9]
  {
    assert StepAt(Grid(4, 3, FirstMap), q, 1);
    FirstMapAfterStart(q[1]);
    assert StepAt(Grid(4, 3, FirstMap), q, 2) && StepAt(Grid(4, 3, FirstMap), q, 3);
    FirstMapBeforeTarget(q[2]);
  }

  /** Path length and buffer contents of the first demonstration: three
      steps, through cells 1, 5 and 9. */
  method FirstExample() returns (r: int, path: seq<int>)
    ensures r == 3 && path == [1, 5, 9]
  {
    var g := Grid(4, 3, FirstMap);
    var out;
    r, out := FindPath(0, 0, 1, 2, FirstMap, 4, 3, [0, 0, 0, 0, 0, 0, 0, 0, 0, 0, 0, 0], 12);
    FirstMapWalk();
    ghost var p :| IsPath(g, p, 0, 9) && |p| == r + 1;
    WalkAtLeastDistance(g, p);
    assert r == 3;
    FirstMapShortestWalk([0] + out[..3]);
    path := out[..3];
    assert path == ([0] + out[..3])[1..];
  }

  /** A buffer of exactly the path's length is left untouched, though the
      length is still returned. */
  method FirstExampleShortBuffer() returns (r: int, out: seq<int>)
    ensures r == 3 && out == [7, 7, 7]
  {
    var g := Grid(4, 3, FirstMap);
    r, out := FindPath(0, 0, 1, 2, FirstMap, 4, 3, [7, 7, 7], 3);
    FirstMapWalk();
    ghost var p :| IsPath(g, p, 0, 9) && |p| == r + 1;
    WalkAtLeastDistance(g, p);
  }

  /** The cells reachable from cell 2 in the second map. */
  predicate SecondRegion(n: int) {
    n == 2 || n == 4 || n == 5 || n == 8
  }

  lemma SecondMapNeighboursOf2()
    ensures Neighbours(3, 3, 2) == [5, 1]
  {
  }

  lemma SecondMapNeighboursOf4()
    ensures Neighbours(3, 3, 4) == [1, 7, 3, 5]
  {
  }

  lemma SecondMapNeighboursOf5()
    ensures Neighbours(3, 3, 5) == [2, 8, 4]
  {
  }

  lemma SecondMapNeighboursOf8()
    ensures Neighbours(3, 3, 8) == [5, 7]
  {
  }

  /** A step from the region of the second map to a walkable cell stays in
      the region. */
  lemma SecondMapStep(w: int, n: int)
    requires SecondRegion(w) && Adjacent(3, w, n) && Grid(3, 3, SecondMap).Traversable(n)
    ensures SecondRegion(n)
  {
    NeighbourComplete(3, 3, w, n);
    if w == 2 {
      SecondMapNeighboursOf2();
      assert SecondMap[1] == 0;
    } else if w == 4 {
      SecondMapNeighboursOf4();
      assert SecondMap[1] == 0 && SecondMap[3] == 0 && SecondMap[7] == 0;
    } else if w == 5 {
      SecondMapNeighboursOf5();
    } else {
      SecondMapNeighboursOf8();
      assert SecondMap[7] == 0;
    }
  }

  /** In the second map every walk from cell 2 stays inside cells 2, 4, 5
      and 8, so it never reaches cell 6. */
  lemma {:induction false} SecondMapRegion(p: seq<int>)
    requires IsWalk(Grid(3, 3, SecondMap), p) && p[0] == 2
    ensures SecondRegion(p[|p| - 1])
    decreases |p|
  {
    if |p| > 1 {
      var q := p[..|p| - 1];
      WalkPrefix(Grid(3, 3, SecondMap), p, |p| - 1);
      SecondMapRegion(q);
      assert q[|q| - 1] == p[|p| - 2];
      assert StepAt(Grid(3, 3, SecondMap), p, |p| - 1);
      SecondMapStep(p[|p| - 2], p[|p| - 1]);
    }
  }

  /** The second demonstration has no path, so neither search writes to the
      buffer. */
  method SecondExample() returns (r: int, out: seq<int>, checked: int, checkedOut: seq<int>)
    ensures r == -1 && out == [0, 0, 0, 0, 0, 0, 0]
    ensures checked == -1 && checkedOut == [0, 0, 0, 0, 0, 0, 0]
  {
    r, out := FindPath(2, 0, 0, 2, SecondMap, 3, 3, [0, 0, 0, 0, 0, 0, 0], 7);
    checked, checkedOut := FindPathChecked(2, 0, 0, 2, SecondMap, 3, 3, [0, 0, 0, 0, 0, 0, 0], 7);
    if Connected(Grid(3, 3, SecondMap), 2, 6) {
      var p :| IsPath(Grid(3, 3, SecondMap), p, 2, 6);
      SecondMapRegion(p);
      assert false;
    }
  }

  /** A single blocked cell searched from itself to itself: zero steps, with
      and without the start check. */
  method SingleBlockedCell() returns (unchecked: int, checked: int)
    ensures unchecked == 0 && checked == 0
  {
    var out;
    unchecked, out := FindPath(0, 0, 0, 0, [0], 1, 1, [], 0);
    checked, out := FindPathChecked(0, 0, 0, 0, [0], 1, 1, [], 0);
  }

  /** The one-step walk out of the blocked cell 0 of the map [0, 1]. */
  lemma BlockedStartWalk()
    ensures IsPath(Grid(2, 1, [0, 1]), [0, 1], 0, 1)
  {
    var g := Grid(2, 1, [0, 1]);
    assert IsWalk(g, [0]);
    assert Adjacent(2, 0, 1) && g.Traversable(1);
    WalkExtend(g, [0], 1);
  }

  /** A blocked start next to a walkable target: the search without the
      start check finds a one-step path out of the blocked cell and writes
      it, the checked search reports no path and leaves the buffer alone.
      On this 2 x 1 map the source's row decoding agrees with the corrected
      one, so the first search is the source's behaviour. */
  method BlockedStart() returns (unchecked: int, written: seq<int>, checked: int, untouched: seq<int>)
    ensures unchecked == 1 && written == [1, 0]
    ensures checked == -1 && untouched == [0, 0]
  {
    var g := Grid(2, 1, [0, 1]);
    unchecked, written := FindPath(0, 0, 1, 0, [0, 1], 2, 1, [0, 0], 2);
    BlockedStartWalk();
    ghost var p :| IsPath(g, p, 0, 1) && |p| == unchecked + 1;
    WalkAtLeastDistance(g, p);
    assert unchecked == 1;
    assert ([0] + written[..1])[1] == 1;
    assert written == written[..1] + written[1..];
    checked, untouched := FindPathChecked(0, 0, 1, 0, [0, 1], 2, 1, [0, 0], 2);
  }
}
