/** The movie theater (day 9): red tiles at integer points; any two of them are opposite
    corners of a rectangle of tiles. Part 1 finds the largest such rectangle. */
module Theater {
  import opened Common
  import opened Sorting

  type Point2D = (int, int)

  /** Four corners, counter-clockwise from the smallest. */
  type Rectangle = seq<Point2D>

  datatype Pair = Pair(area: nat, rectangle: Rectangle)

  function Abs(v: int): nat
  {
    if v < 0 then -v else v
  }

  /** `rectangleArea`: the number of tiles in the rectangle with corners `p1` and `p2`, both
      borders included. */
  function RectangleArea(p1: Point2D, p2: Point2D): nat
  {
    var width := Abs(p2.0 - p1.0) + 1;
    var height := Abs(p2.1 - p1.1) + 1;
    width * height
  }

  /** The area is at least 1, and at least the length of each side. */
  lemma RectangleAreaBounds(p1: Point2D, p2: Point2D)
    ensures RectangleArea(p1, p2) >= 1
    ensures RectangleArea(p1, p2) >= Abs(p2.0 - p1.0) + 1 && RectangleArea(p1, p2) >= Abs(p2.1 - p1.1) + 1
  {
    var width := Abs(p2.0 - p1.0) + 1;
    var height := Abs(p2.1 - p1.1) + 1;
    assert width * height == width + width * (height - 1);
    assert width * height == height + height * (width - 1);
  }

  /** The area does not depend on which corner comes first. */
  lemma RectangleAreaSymmetric(p1: Point2D, p2: Point2D)
    ensures RectangleArea(p1, p2) == RectangleArea(p2, p1)
  {
    assert Abs(p2.0 - p1.0) == Abs(p1.0 - p2.0);
    assert Abs(p2.1 - p1.1) == Abs(p1.1 - p2.1);
  }

  /** `rectangleFromBounds`. */
  function RectangleFromBounds(minX: int, minY: int, maxX: int, maxY: int): Rectangle
  {
    [(minX, minY), (maxX, minY), (maxX, maxY), (minX, maxY)]
  }

  /** `[a, b].sort((a, b) => a - b)`: the two numbers in ascending order. */
  function SortTwo(a: int, b: int): (r: (int, int))
    ensures r.0 <= r.1
    ensures r == (a, b) || r == (b, a)
  {
    if a - b <= 0 then (a, b) else (b, a)
  }

  /** `rectangleFromPoints`: the axis-aligned rectangle with `p1` and `p2` as opposite
      corners. */
  function RectangleFromPoints(p1: Point2D, p2: Point2D): Rectangle
  {
    var (minX, maxX) := SortTwo(p1.0, p2.0);
    var (minY, maxY) := SortTwo(p1.1, p2.1);
    RectangleFromBounds(minX, minY, maxX, maxY)
  }

  /** The rectangle has four corners, counter-clockwise from the smallest, and its bounds
      are those of the two points. */
  lemma RectangleCorners(p1: Point2D, p2: Point2D)
    ensures var r := RectangleFromPoints(p1, p2);
      && |r| == 4
      && r[0].0 <= r[2].0 && r[0].1 <= r[2].1
      && r[1] == (r[2].0, r[0].1) && r[3] == (r[0].0, r[2].1)
      && ((r[0].0, r[2].0) == (p1.0, p2.0) || (r[0].0, r[2].0) == (p2.0, p1.0))
      && ((r[0].1, r[2].1) == (p1.1, p2.1) || (r[0].1, r[2].1) == (p2.1, p1.1))
  {
  }

  /** `toPair`: the area of the two corners with their rectangle. */
  function ToPair(p1: Point2D, p2: Point2D): Pair
  {
    Pair(RectangleArea(p1, p2), RectangleFromPoints(p1, p2))
  }

  /** The area `toPair` reports is the number of tiles of the rectangle it reports. */
  lemma ToPairArea(p1: Point2D, p2: Point2D)
    ensures var r := ToPair(p1, p2).rectangle;
      ToPair(p1, p2).area == (r[2].0 - r[0].0 + 1) * (r[2].1 - r[0].1 + 1)
  {
    var r := RectangleFromPoints(p1, p2);
    RectangleCorners(p1, p2);
    var width, height := Abs(p2.0 - p1.0) + 1, Abs(p2.1 - p1.1) + 1;
    assert r[2].0 - r[0].0 + 1 == width && r[2].1 - r[0].1 + 1 == height;
    assert ToPair(p1, p2).area == width * height;
  }

  /** The pairs of `p1` with every point of `others`, in order. */
  function PairsWith(p1: Point2D, others: seq<Point2D>): (r: seq<Pair>)
    ensures |r| == |others|
    ensures forall k :: 0 <= k < |others| ==> r[k] == ToPair(p1, others[k])
  {
    seq(|others|, k requires 0 <= k < |others| => ToPair(p1, others[k]))
  }

  /** The `flatMap` of `allPairs` over the points still to come. */
  function PairsOf(firsts: seq<Point2D>, others: seq<Point2D>): (r: seq<Pair>)
    ensures r == [] <==> firsts == [] || others == []
  {
    if firsts == [] then [] else PairsWith(firsts[0], others) + PairsOf(firsts[1..], others)
  }

  function Tail<T>(s: seq<T>): seq<T>
  {
    if s == [] then [] else s[1..]
  }

  /** `allPairs`: every point with every point after the first, itself included. */
  function AllPairs(points: seq<Point2D>): (r: seq<Pair>)
    ensures r == [] <==> |points| < 2
  {
    PairsOf(points, Tail(points))
  }

  lemma {:induction false} PairsOfLength(firsts: seq<Point2D>, others: seq<Point2D>)
    ensures |PairsOf(firsts, others)| == |firsts| * |others|
  {
    if firsts != [] {
      PairsOfLength(firsts[1..], others);
      assert |firsts| * |others| == |others| + (|firsts| - 1) * |others|;
    }
  }

  /** There are `n * (n - 1)` pairs of `n` points. */
  lemma AllPairsLength(points: seq<Point2D>)
    ensures |AllPairs(points)| == |points| * (|points| - 1)
  {
    PairsOfLength(points, Tail(points));
  }

  /** Every first point is paired with every other point. */
  lemma {:induction false} PairsOfHolds(firsts: seq<Point2D>, others: seq<Point2D>, i: nat, k: nat)
    requires i < |firsts| && k < |others|
    ensures ToPair(firsts[i], others[k]) in PairsOf(firsts, others)
  {
    var here, rest := PairsWith(firsts[0], others), PairsOf(firsts[1..], others);
    assert PairsOf(firsts, others) == here + rest;
    if i == 0 {
      assert here[k] == ToPair(firsts[0], others[k]);
      assert (here + rest)[k] == here[k];
    } else {
      PairsOfHolds(firsts[1..], others, i - 1, k);
      assert firsts[1..][i - 1] == firsts[i];
      assert ToPair(firsts[i], others[k]) in rest;
    }
  }

  /** Every pair in `PairsOf` comes from one of the first points and one of the others. */
  lemma {:induction false} PairsOfFrom(firsts: seq<Point2D>, others: seq<Point2D>, n: nat) returns (i: nat, k: nat)
    requires n < |PairsOf(firsts, others)|
    ensures i < |firsts| && k < |others|
    ensures PairsOf(firsts, others)[n] == ToPair(firsts[i], others[k])
  {
    var here, rest := PairsWith(firsts[0], others), PairsOf(firsts[1..], others);
    assert PairsOf(firsts, others) == here + rest;
    if n < |others| {
      i, k := 0, n;
      assert (here + rest)[n] == here[n];
    } else {
      var i', k' := PairsOfFrom(firsts[1..], others, n - |others|);
      i, k := i' + 1, k';
      assert (here + rest)[n] == rest[n - |others|];
      assert firsts[1..][i'] == firsts[i];
    }
  }

  /** `allPairs` holds every point paired with every point but the first, itself included,
      and in both orders for two points after the first. */
  lemma AllPairsHolds(points: seq<Point2D>, i: nat, j: nat)
    requires i < |points| && 1 <= j < |points|
    ensures ToPair(points[i], points[j]) in AllPairs(points)
  {
    var others := points[1..];
    assert Tail(points) == others && others[j - 1] == points[j];
    PairsOfHolds(points, others, i, j - 1);
  }

  /** ... and nothing else: never the first point in second place. */
  lemma AllPairsOnly(points: seq<Point2D>, n: nat) returns (i: nat, j: nat)
    requires n < |AllPairs(points)|
    ensures i < |points| && 1 <= j < |points|
    ensures AllPairs(points)[n] == ToPair(points[i], points[j])
  {
    var k;
    i, k := PairsOfFrom(points, Tail(points), n);
    j := k + 1;
  }

  function Area(p: Pair): int
  {
    p.area
  }

  /** `part1`: the area of the first pair once the pairs are sorted by area and reversed; no
      answer (`undefined`) with fewer than two points. */
  function Part1(points: seq<Point2D>): (r: Option<nat>)
    ensures r.None? <==> |points| < 2
  {
    var sorted := SortBy(AllPairs(points), Area);
    var pairs := Reverse(sorted);
    if pairs == [] then None else Some(pairs[0].area)
  }

  /** A pair of `allPairs` whose area no pair of `allPairs` exceeds is at least the area
      between any two of the points. */
  lemma AtMostLargest(points: seq<Point2D>, top: Pair, i0: nat, j0: nat, i: nat, j: nat)
    requires i0 < |points| && j0 < |points| && i < |points| && j < |points| && |points| >= 2
    requires top == ToPair(points[i0], points[j0])
    requires forall q :: q in AllPairs(points) ==> q.area <= top.area
    ensures RectangleArea(points[i], points[j]) <= top.area
  {
    if i == 0 && j == 0 {
      RectangleAreaBounds(points[i0], points[j0]);
      assert RectangleArea(points[0], points[0]) == 1;
    } else if j == 0 {
      RectangleAreaSymmetric(points[i], points[j]);
      AllPairsHolds(points, j, i);
    } else {
      AllPairsHolds(points, i, j);
    }
  }

  /** `part1` is the area of some rectangle between two of the points, and no rectangle
      between any two of them (the first point in either place) is larger. */
  lemma Part1IsLargest(points: seq<Point2D>)
    requires |points| >= 2
    ensures exists i, j :: 0 <= i < |points| && 0 <= j < |points| && Part1(points) == Some(RectangleArea(points[i], points[j]))
    ensures forall i, j :: 0 <= i < |points| && 0 <= j < |points| ==> RectangleArea(points[i], points[j]) <= Part1(points).value
  {
    var all := AllPairs(points);
    var sorted := SortBy(all, Area);
    var top := sorted[|sorted| - 1];
    assert Reverse(sorted)[0] == top;
    assert top in multiset(all) by {
      assert top in multiset(sorted);
    }
    var n :| 0 <= n < |all| && all[n] == top;
    var i0, j0 := AllPairsOnly(points, n);
    assert Part1(points) == Some(RectangleArea(points[i0], points[j0]));
    forall q | q in all ensures q.area <= top.area {
      assert q in multiset(sorted);
      var m :| 0 <= m < |sorted| && sorted[m] == q;
      assert Area(sorted[m]) <= Area(top);
    }
    forall i, j | 0 <= i < |points| && 0 <= j < |points|
      ensures RectangleArea(points[i], points[j]) <= top.area
    {
      AtMostLargest(points, top, i0, j0, i, j);
    }
  }
}
