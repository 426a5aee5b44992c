/** Geometry of the traversability map: flat row-major indices, their
    decoding into columns and rows, the four-way neighbourhood of a cell,
    Manhattan distance, and walks through walkable cells. */
module Geometry {

  newtype byte = b: int | 0 <= b < 256

  /** The map handed to the search: `width` x `height` cells stored row by
      row. A cell is walkable exactly when its byte equals 1. */
  datatype Grid = Grid(width: int, height: int, cells: seq<byte>) {

    ghost predicate Valid() {
      1 <= width && 1 <= height && |cells| == width * height
    }

    function Size(): int {
      width * height
    }

    /** Walkable cell; an index outside the map is never walkable. */
    predicate Traversable(i: int) {
      0 <= i < |cells| && cells[i] == 1
    }
  }

  function Abs(n: int): nat {
    if n < 0 then -n else n
  }

  /** Flat index of column `x`, row `y`. */
  function Encode(width: int, x: int, y: int): int {
    y * width + x
  }

  function Column(width: int, i: int): int
    requires 1 <= width
  {
    i % width
  }

  function Row(width: int, i: int): int
    requires 1 <= width
  {
    i / width
  }

  /** The row decoding written in the source: the divisor is the height
      plus one instead of the width. */
  function RowAsWritten(height: int, i: int): int
    requires 0 <= height
  {
    i / (height + 1)
  }

  lemma MulBelow(a: int, b: int, c: int)
    requires 0 <= a && 0 < c && a < b
    ensures a * c + c <= b * c
  {
    assert (b - a) * c >= c by {
      assert b - a >= 1;
    }
  }

  lemma MulAtLeast(a: int, b: int)
    requires 0 <= a && 1 <= b
    ensures a <= a * b
  {
    assert a * b - a == a * (b - 1);
  }

  /** Decoding an index of the map gives a cell of the map that encodes back
      to the same index. */
  lemma DecodeRoundTrip(width: int, height: int, i: int)
    requires 1 <= width && 1 <= height && 0 <= i < width * height
    ensures 0 <= Column(width, i) < width
    ensures 0 <= Row(width, i) < height
    ensures Encode(width, Column(width, i), Row(width, i)) == i
  {
    var y := i / width;
    assert i == y * width + i % width;
    if y >= height {
      MulBelow(height - 1, y, width);
      assert false;
    }
  }

  /** Encoding a cell of the map gives an index of the map that decodes back
      to the same cell. */
  lemma EncodeRoundTrip(width: int, height: int, x: int, y: int)
    requires 1 <= width && 1 <= height && 0 <= x < width && 0 <= y < height
    ensures 0 <= Encode(width, x, y) < width * height
    ensures Column(width, Encode(width, x, y)) == x
    ensures Row(width, Encode(width, x, y)) == y
  {
    var i := Encode(width, x, y);
    MulBelow(y, height, width);
    var q := i / width;
    var r := i % width;
    assert q * width + r == y * width + x;
    if q > y {
      MulBelow(y, q, width);
      assert false;
    } else if q < y {
      MulBelow(q, y, width);
      assert false;
    }
  }

  lemma RowAsWrittenAgrees(width: int, height: int, i: int)
    requires 1 <= width && 1 <= height && 0 <= i < width * height
    requires width == height + 1 || (width == 1 && height == 1)
    ensures RowAsWritten(height, i) == Row(width, i)
  {
    if width == 1 && height == 1 {
      assert i == 0;
    }
  }

  lemma DivSelf(n: int)
    requires 1 <= n
    ensures n / n == 1
  {
  }

  lemma DivBelow(a: int, n: int)
    requires 0 <= a < n
    ensures a / n == 0
  {
  }

  lemma RowAsWrittenWitness(width: int, height: int) returns (i: int)
    requires 1 <= width && 1 <= height
    requires width != height + 1 && !(width == 1 && height == 1)
    ensures 0 <= i < width * height && RowAsWritten(height, i) != Row(width, i)
  {
    if width > height + 1 {
      i := height + 1;
      MulAtLeast(width, height);
      DivSelf(height + 1);
      DivBelow(i, width);
    } else {
      i := width;
      MulBelow(1, height, width);
      DivSelf(width);
      DivBelow(i, height + 1);
    }
  }

  /** The source's row decoding agrees with the encoding on every index of
      the map exactly when the width is the height plus one, or the map is a
      single cell. */
  lemma RowAsWrittenCorrectIff(width: int, height: int)
    requires 1 <= width && 1 <= height
    ensures (forall i | 0 <= i < width * height :: RowAsWritten(height, i) == Row(width, i))
            <==> (width == height + 1 || (width == 1 && height == 1))
  {
    if width == height + 1 || (width == 1 && height == 1) {
      forall i | 0 <= i < width * height
        ensures RowAsWritten(height, i) == Row(width, i)
      {
        RowAsWrittenAgrees(width, height, i);
      }
    } else {
      var i := RowAsWrittenWitness(width, height);
    }
  }

  /** The up, down, left and right neighbours of the cell at column `x`,
      row `y`, in the order the source links them. */
  function NeighboursAt(width: int, height: int, x: int, y: int): (r: seq<int>)
    ensures |r| <= 4
  {
    (if y > 0 then [Encode(width, x, y - 1)] else [])
    + (if y < height - 1 then [Encode(width, x, y + 1)] else [])
    + (if x > 0 then [Encode(width, x - 1, y)] else [])
    + (if x < width - 1 then [Encode(width, x + 1, y)] else [])
  }

  function Neighbours(width: int, height: int, i: int): seq<int>
    requires 1 <= width
  {
    NeighboursAt(width, height, Column(width, i), Row(width, i))
  }

  /** Manhattan distance between two flat indices. The absolute values are
      written out rather than taken with `Abs`, which keeps the solver cheap
      on the concrete maps of the examples. */
  function Distance(width: int, a: int, b: int): nat
    requires 1 <= width
  {
    var dx := Column(width, a) - Column(width, b);
    var dy := Row(width, a) - Row(width, b);
    (if dx < 0 then -dx else dx) + (if dy < 0 then -dy else dy)
  }

  predicate Adjacent(width: int, a: int, b: int)
    requires 1 <= width
  {
    Distance(width, a, b) == 1
  }

  /** With the source's row decoding, the cell at index 4 of a 5 x 1 map
      is linked to cells 9 and 13, which lie outside the five-cell map. */
  lemma NeighboursAsWrittenOutOfRange()
    ensures var n := NeighboursAt(5, 1, Column(5, 4), RowAsWritten(1, 4));
            n == [9, 13] && forall k | 0 <= k < |n| :: n[k] >= 5 * 1
  {
  }

  /** With the source's row decoding on a 3 x 3 map, no cell but 6 itself
      links to cell 6, so a search from cell 0 never reaches it, even on a
      fully walkable map, though cell 3 lies directly above it. */
  lemma NeighboursAsWrittenStranded()
    ensures forall i | 0 <= i < 9 && i != 6 :: 6 !in NeighboursAt(3, 3, Column(3, i), RowAsWritten(3, i))
    ensures 6 in Neighbours(3, 3, 3)
  {
    forall i | 0 <= i < 9 && i != 6
      ensures 6 !in NeighboursAt(3, 3, Column(3, i), RowAsWritten(3, i))
    {
      StrandedAt(i);
    }
    assert Column(3, 3) == 0 && Row(3, 3) == 1;
  }

  /** With the source's row decoding on a 3 x 3 map, cell 4 links to cells
      3 and 7, yet the coordinates recorded for them are two apart from and
      equal to those of cell 4, so the heuristic of such a step is 2 or 0,
      not 1. */
  lemma NeighboursAsWrittenMisplaced()
    ensures NeighboursAt(3, 3, Column(3, 4), RowAsWritten(3, 4)) == [1, 7, 3, 5]
    ensures Abs(Column(3, 4) - Column(3, 3)) + Abs(RowAsWritten(3, 4) - RowAsWritten(3, 3)) == 2
    ensures Abs(Column(3, 4) - Column(3, 7)) + Abs(RowAsWritten(3, 4) - RowAsWritten(3, 7)) == 0
  {
  }

  /** The as-written links of each cell of a 3 x 3 map other than 6. */
  lemma StrandedAt(i: int)
    requires 0 <= i < 9 && i != 6
    ensures 6 !in NeighboursAt(3, 3, Column(3, i), RowAsWritten(3, i))
  {
    if i < 4 {
      assert RowAsWritten(3, i) == 0;
    } else if i < 8 {
      assert RowAsWritten(3, i) == 1 && i - 3 <= Column(3, i) + 3 <= i;
    } else {
      assert RowAsWritten(3, i) == 2 && Column(3, i) == 2;
    }
  }

  lemma NeighbourSound(width: int, height: int, i: int, n: int)
    requires 1 <= width && 1 <= height && 0 <= i < width * height
    requires n in Neighbours(width, height, i)
    ensures 0 <= n < width * height && Adjacent(width, i, n)
    ensures || n == i - width || n == i + width
            || (Row(width, n) == Row(width, i) && (n == i - 1 || n == i + 1))
  {
    var x := Column(width, i);
    var y := Row(width, i);
    DecodeRoundTrip(width, height, i);
    if y > 0 && n == Encode(width, x, y - 1) {
      StepFacts(width, height, i, x, y - 1);
    } else if y < height - 1 && n == Encode(width, x, y + 1) {
      StepFacts(width, height, i, x, y + 1);
    } else if x > 0 && n == Encode(width, x - 1, y) {
      StepFacts(width, height, i, x - 1, y);
    } else {
      assert x < width - 1 && n == Encode(width, x + 1, y);
      StepFacts(width, height, i, x + 1, y);
    }
  }

  /** A cell one column or one row away from cell `i` is in the map, adjacent
      to `i`, and one row or one index away from it. */
  lemma StepFacts(width: int, height: int, i: int, nx: int, ny: int)
    requires 1 <= width && 1 <= height && 0 <= i < width * height
    requires 0 <= nx < width && 0 <= ny < height
    requires Abs(nx - Column(width, i)) + Abs(ny - Row(width, i)) == 1
    ensures var n := Encode(width, nx, ny);
            && 0 <= n < width * height && Adjacent(width, i, n)
            && (|| n == i - width || n == i + width
                || (Row(width, n) == Row(width, i) && (n == i - 1 || n == i + 1)))
  {
    var x := Column(width, i);
    var y := Row(width, i);
    DecodeRoundTrip(width, height, i);
    EncodeRoundTrip(width, height, nx, ny);
    var n := Encode(width, nx, ny);
    assert i == y * width + x;
    if ny == y - 1 {
      assert n == i - width;
    } else if ny == y + 1 {
      assert n == i + width;
    }
  }

  lemma NeighbourComplete(width: int, height: int, i: int, n: int)
    requires 1 <= width && 1 <= height && 0 <= i < width * height
    requires 0 <= n < width * height && Adjacent(width, i, n)
    ensures n in Neighbours(width, height, i)
  {
    var x := Column(width, i);
    var y := Row(width, i);
    DecodeRoundTrip(width, height, i);
    DecodeRoundTrip(width, height, n);
    var nx := Column(width, n);
    var ny := Row(width, n);
    if ny == y - 1 {
      assert n == Encode(width, x, y - 1);
    } else if ny == y + 1 {
      assert n == Encode(width, x, y + 1);
    } else if nx == x - 1 {
      assert n == Encode(width, x - 1, y);
    } else {
      assert nx == x + 1 && ny == y;
      assert n == Encode(width, x + 1, y);
    }
  }

  /** The neighbours of a cell are exactly the cells of the map at Manhattan
      distance one; none of them is reached by wrapping around a row end. */
  lemma NeighboursExact(width: int, height: int, i: int)
    requires 1 <= width && 1 <= height && 0 <= i < width * height
    ensures forall n :: n in Neighbours(width, height, i) <==> 0 <= n < width * height && Adjacent(width, i, n)
    ensures forall n | n in Neighbours(width, height, i) ::
              || n == i - width || n == i + width
              || (Row(width, n) == Row(width, i) && (n == i - 1 || n == i + 1))
  {
    forall n | n in Neighbours(width, height, i)
      ensures 0 <= n < width * height && Adjacent(width, i, n)
      ensures || n == i - width || n == i + width
              || (Row(width, n) == Row(width, i) && (n == i - 1 || n == i + 1))
    {
      NeighbourSound(width, height, i, n);
    }
    forall n | 0 <= n < width * height && Adjacent(width, i, n)
      ensures n in Neighbours(width, height, i)
    {
      NeighbourComplete(width, height, i, n);
    }
  }

  /** Manhattan distance is a metric on the cells of the map. */
  lemma DistanceProperties(width: int, height: int, a: int, b: int, c: int)
    requires 1 <= width && 1 <= height
    requires 0 <= a < width * height && 0 <= b < width * height
    ensures Distance(width, a, b) == Distance(width, b, a)
    ensures Distance(width, a, b) == 0 <==> a == b
    ensures Distance(width, a, c) <= Distance(width, a, b) + Distance(width, b, c)
  {
    if Distance(width, a, b) == 0 {
      DecodeRoundTrip(width, height, a);
      DecodeRoundTrip(width, height, b);
    }
  }

  lemma DistanceTriangle(width: int, a: int, b: int, c: int)
    requires 1 <= width
    ensures Distance(width, a, c) <= Distance(width, a, b) + Distance(width, b, c)
  {
  }

  /** Step `k` of `p` goes to an adjacent walkable cell. */
  predicate StepAt(g: Grid, p: seq<int>, k: int) {
    1 <= g.width && 1 <= k < |p| && Adjacent(g.width, p[k - 1], p[k]) && g.Traversable(p[k])
  }

  /** A walk: a non-empty sequence of map cells in which every step goes to
      an adjacent walkable cell. The first cell need not be walkable. */
  ghost predicate IsWalk(g: Grid, p: seq<int>) {
    && g.Valid()
    && |p| >= 1
    && 0 <= p[0] < g.Size()
    && forall k | 1 <= k < |p| :: StepAt(g, p, k)
  }

  /** A walk from cell `a` to cell `b`; it has |p| - 1 steps. */
  ghost predicate IsPath(g: Grid, p: seq<int>, a: int, b: int) {
    IsWalk(g, p) && p[0] == a && p[|p| - 1] == b
  }

  ghost predicate Connected(g: Grid, a: int, b: int) {
    exists p :: IsPath(g, p, a, b)
  }

  /** Every non-empty prefix of a walk is a walk. */
  lemma WalkPrefix(g: Grid, p: seq<int>, n: int)
    requires IsWalk(g, p) && 1 <= n <= |p|
    ensures IsWalk(g, p[..n])
  {
    var q := p[..n];
    forall k | 1 <= k < |q|
      ensures StepAt(g, q, k)
    {
      assert StepAt(g, p, k);
      assert q[k - 1] == p[k - 1] && q[k] == p[k];
    }
  }

  /** A walk followed by one step to an adjacent walkable cell is a walk. */
  lemma WalkExtend(g: Grid, p: seq<int>, n: int)
    requires IsWalk(g, p) && Adjacent(g.width, p[|p| - 1], n) && g.Traversable(n)
    ensures IsWalk(g, p + [n])
  {
    var q := p + [n];
    forall k | 1 <= k < |q|
      ensures StepAt(g, q, k)
    {
      if k < |p| {
        assert StepAt(g, p, k);
        assert q[k - 1] == p[k - 1] && q[k] == p[k];
      } else {
        assert q[k - 1] == p[|p| - 1] && q[k] == n;
      }
    }
  }

  /** Every walk is at least as long as the Manhattan distance between its
      ends. */
  lemma {:induction false} WalkAtLeastDistance(g: Grid, p: seq<int>)
    requires IsWalk(g, p)
    ensures |p| - 1 >= Distance(g.width, p[0], p[|p| - 1])
    decreases |p|
  {
    if |p| > 1 {
      var q := p[..|p| - 1];
      WalkPrefix(g, p, |p| - 1);
      WalkAtLeastDistance(g, q);
      assert q[0] == p[0] && q[|q| - 1] == p[|p| - 2];
      assert StepAt(g, p, |p| - 1);
      DistanceTriangle(g.width, p[0], p[|p| - 2], p[|p| - 1]);
    }
  }
}
