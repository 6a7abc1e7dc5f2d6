/** The junction boxes (day 8). Every pair of boxes gets an index pair and a distance; the `n`
    closest pairs are connected, and the circuits are the connected components of the
    resulting graph, found by an iterative depth-first traversal that marks a shared
    `visited` array. Part 1 multiplies the sizes of the three largest circuits.
    Distances are compared as squared integer distances: the square root is monotone,
    so the order of the pairs is the same. */
module Playground {
  import opened Common
  import opened Sorting

  datatype Point = Point(x: int, y: int, z: int)

  /** A pair of box indices, `a < b`, and the (squared) distance between the boxes. */
  datatype Pair = Pair(a: nat, b: nat, dist: int)

  function SquaredDistance(p: Point, q: Point): (r: int)
    ensures r >= 0
    ensures r == 0 <==> p == q
  {
    var dx, dy, dz := p.x - q.x, p.y - q.y, p.z - q.z;
    assert dx * dx >= 0 && dy * dy >= 0 && dz * dz >= 0;
    assert dx * dx == 0 ==> dx == 0;
    assert dy * dy == 0 ==> dy == 0;
    assert dz * dz == 0 ==> dz == 0;
    dx * dx + dy * dy + dz * dz
  }

  /*** allPairs ***/

  /** The pairs of box `i` with each later box, in order. */
  function Row(points: seq<Point>, i: nat): (r: seq<Pair>)
    requires i < |points|
    ensures |r| == |points| - i - 1
    ensures forall j :: 0 <= j < |r| ==> r[j] == Pair(i, i + 1 + j, SquaredDistance(points[i], points[i + 1 + j]))
  {
    seq(|points| - i - 1, j requires 0 <= j < |points| - i - 1 => Pair(i, i + 1 + j, SquaredDistance(points[i], points[i + 1 + j])))
  }

  /** The rows of boxes `i` onwards, concatenated (the `flatMap` from index `i`). */
  function RowsFrom(points: seq<Point>, i: nat): seq<Pair>
    decreases |points| - i
  {
    if i >= |points| then [] else Row(points, i) + RowsFrom(points, i + 1)
  }

  /** `allPairs`. */
  function AllPairs(points: seq<Point>): seq<Pair>
  {
    RowsFrom(points, 0)
  }

  /** How often the index pair `(a, b)` occurs in `ps`. */
  function Occurrences(ps: seq<Pair>, a: nat, b: nat): nat
  {
    if ps == [] then 0
    else Occurrences(ps[..|ps| - 1], a, b) + (if ps[|ps| - 1].a == a && ps[|ps| - 1].b == b then 1 else 0)
  }

  lemma {:induction false} OccurrencesAppend(xs: seq<Pair>, ys: seq<Pair>, a: nat, b: nat)
    ensures Occurrences(xs + ys, a, b) == Occurrences(xs, a, b) + Occurrences(ys, a, b)
    decreases |ys|
  {
    if ys == [] {
      assert xs + ys == xs;
    } else {
      assert (xs + ys)[..|xs + ys| - 1] == xs + ys[..|ys| - 1];
      OccurrencesAppend(xs, ys[..|ys| - 1], a, b);
    }
  }

  lemma {:induction false} OccurrencesInRow(points: seq<Point>, i: nat, k: nat, a: nat, b: nat)
    requires i < |points| && k <= |points| - i - 1
    ensures Occurrences(Row(points, i)[..k], a, b) == if a == i && i < b <= i + k then 1 else 0
  {
    if k > 0 {
      var r := Row(points, i);
      assert r[..k][..k - 1] == r[..k - 1];
      OccurrencesInRow(points, i, k - 1, a, b);
    }
  }

  lemma {:induction false} OccurrencesInRows(points: seq<Point>, i: nat, a: nat, b: nat)
    ensures Occurrences(RowsFrom(points, i), a, b) == if i <= a < b < |points| then 1 else 0
    decreases |points| - i
  {
    if i < |points| {
      var r := Row(points, i);
      OccurrencesAppend(r, RowsFrom(points, i + 1), a, b);
      OccurrencesInRow(points, i, |r|, a, b);
      assert r[..|r|] == r;
      OccurrencesInRows(points, i + 1, a, b);
    }
  }

  /** Every index pair `a < b` occurs in `allPairs` exactly once, and no other pair occurs. */
  lemma AllPairsOnce(points: seq<Point>, a: nat, b: nat)
    ensures Occurrences(AllPairs(points), a, b) == if a < b < |points| then 1 else 0
  {
    OccurrencesInRows(points, 0, a, b);
  }

  lemma {:induction false} RowsFromLength(points: seq<Point>, i: nat)
    requires i <= |points|
    ensures 2 * |RowsFrom(points, i)| == (|points| - i) * (|points| - i - 1)
    decreases |points| - i
  {
    if i < |points| {
      RowsFromLength(points, i + 1);
      var m := |points| - i;
      assert |RowsFrom(points, i)| == (m - 1) + |RowsFrom(points, i + 1)|;
      TriangleStep(m);
    }
  }

  lemma TriangleStep(m: int)
    ensures m * (m - 1) == (m - 1) * (m - 2) + 2 * (m - 1)
  {
  }

  /** `allPairs` has n(n-1)/2 pairs. */
  lemma AllPairsLength(points: seq<Point>)
    ensures |AllPairs(points)| == |points| * (|points| - 1) / 2
  {
    RowsFromLength(points, 0);
  }

  lemma {:induction false} RowsFromPairs(points: seq<Point>, i: nat)
    ensures forall k :: 0 <= k < |RowsFrom(points, i)| ==>
      var p := RowsFrom(points, i)[k];
      i <= p.a < p.b < |points| && p.dist == SquaredDistance(points[p.a], points[p.b])
    decreases |points| - i
  {
    if i < |points| {
      RowsFromPairs(points, i + 1);
      var r, rest := Row(points, i), RowsFrom(points, i + 1);
      forall k | 0 <= k < |r + rest| ensures (r + rest)[k] == if k < |r| then r[k] else rest[k - |r|] {
      }
    }
  }

  /** Every pair holds two box indices, the smaller first, and their distance. */
  lemma AllPairsWellFormed(points: seq<Point>)
    ensures forall k :: 0 <= k < |AllPairs(points)| ==>
      var p := AllPairs(points)[k];
      p.a < p.b < |points| && p.dist == SquaredDistance(points[p.a], points[p.b])
  {
    RowsFromPairs(points, 0);
  }

  /*** closestPairs ***/

  function Dist(p: Pair): int
  {
    p.dist
  }

  /** `closestPairs`: the first `n` pairs of the stable sort by distance. */
  function ClosestPairs(points: seq<Point>, n: nat): (r: seq<Pair>)
    ensures |r| == if n < |AllPairs(points)| then n else |AllPairs(points)|
    ensures SortedBy(r, Dist)
    ensures multiset(r) <= multiset(AllPairs(points))
    ensures forall q :: q in multiset(AllPairs(points)) - multiset(r) ==>
              forall k :: 0 <= k < |r| ==> r[k].dist <= q.dist
  {
    var all := AllPairs(points);
    var sorted := SortBy(all, Dist);
    var m := if n < |sorted| then n else |sorted|;
    PrefixOfSorted(sorted, Dist, m);
    sorted[..m]
  }

  /** Every pair of the closest ones names two boxes. */
  lemma ClosestPairsIn(points: seq<Point>, n: nat)
    ensures PairsIn(ClosestPairs(points, n), |points|)
  {
    var r := ClosestPairs(points, n);
    AllPairsWellFormed(points);
    forall k | 0 <= k < |r| ensures r[k].a < |points| && r[k].b < |points| {
      assert r[k] in multiset(AllPairs(points));
      var j :| 0 <= j < |AllPairs(points)| && AllPairs(points)[j] == r[k];
    }
  }

  /*** buildGraph ***/

  predicate PairsIn(pairs: seq<Pair>, n: nat)
  {
    forall k :: 0 <= k < |pairs| ==> pairs[k].a < n && pairs[k].b < n
  }

  /** One step of the `reduce`: `b` is appended to the list of `a`, then `a` to the list of `b`. */
  function Link(graph: seq<seq<nat>>, p: Pair): (r: seq<seq<nat>>)
    requires p.a < |graph| && p.b < |graph|
    ensures |r| == |graph|
  {
    var g := graph[p.a := graph[p.a] + [p.b]];
    g[p.b := g[p.b] + [p.a]]
  }

  /** The adjacency lists after linking every pair, starting from `n` empty lists. */
  function Adjacency(n: nat, pairs: seq<Pair>): (r: seq<seq<nat>>)
    requires PairsIn(pairs, n)
    ensures |r| == n
  {
    if pairs == [] then seq(n, _ => [])
    else Link(Adjacency(n, pairs[..|pairs| - 1]), pairs[|pairs| - 1])
  }

  /** Some pair joins `u` and `v`, in either order. */
  ghost predicate Linked(pairs: seq<Pair>, u: nat, v: nat)
  {
    exists k :: 0 <= k < |pairs| && Joins(pairs[k], u, v)
  }

  predicate Joins(p: Pair, u: nat, v: nat)
  {
    (p.a == u && p.b == v) || (p.a == v && p.b == u)
  }

  lemma LinkNeighbours(graph: seq<seq<nat>>, p: Pair, u: nat, v: nat)
    requires p.a < |graph| && p.b < |graph| && u < |graph|
    ensures v in Link(graph, p)[u] <==> v in graph[u] || Joins(p, u, v)
  {
  }

  lemma LinkedSnoc(pairs: seq<Pair>, u: nat, v: nat)
    requires pairs != []
    ensures Linked(pairs, u, v) <==> Linked(pairs[..|pairs| - 1], u, v) || Joins(pairs[|pairs| - 1], u, v)
  {
    var init := pairs[..|pairs| - 1];
    if Linked(init, u, v) {
      var k :| 0 <= k < |init| && Joins(init[k], u, v);
      assert pairs[k] == init[k];
    }
    if Linked(pairs, u, v) {
      var k :| 0 <= k < |pairs| && Joins(pairs[k], u, v);
      if k < |init| {
        assert init[k] == pairs[k];
      }
    }
  }

  /** `v` is a neighbour of `u` exactly when a pair joins them. */
  lemma {:induction false} AdjacencyNeighbours(n: nat, pairs: seq<Pair>, u: nat, v: nat)
    requires PairsIn(pairs, n) && u < n
    ensures v in Adjacency(n, pairs)[u] <==> Linked(pairs, u, v)
  {
    if pairs != [] {
      var init := pairs[..|pairs| - 1];
      AdjacencyNeighbours(n, init, u, v);
      LinkNeighbours(Adjacency(n, init), pairs[|pairs| - 1], u, v);
      LinkedSnoc(pairs, u, v);
    }
  }

  /** Every neighbour is a vertex. */
  predicate ValidGraph(graph: seq<seq<nat>>)
  {
    forall u, k :: 0 <= u < |graph| && 0 <= k < |graph[u]| ==> graph[u][k] < |graph|
  }

  /** Edges go both ways. */
  ghost predicate Symmetric(graph: seq<seq<nat>>)
  {
    forall u, v :: 0 <= u < |graph| && 0 <= v < |graph| ==> (v in graph[u] <==> u in graph[v])
  }

  /** The adjacency lists name only vertices and are symmetric. */
  lemma AdjacencyUndirected(n: nat, pairs: seq<Pair>)
    requires PairsIn(pairs, n)
    ensures ValidGraph(Adjacency(n, pairs)) && Symmetric(Adjacency(n, pairs))
  {
    var g := Adjacency(n, pairs);
    forall u, k | 0 <= u < n && 0 <= k < |g[u]| ensures g[u][k] < n {
      AdjacencyNeighbours(n, pairs, u, g[u][k]);
      var j :| 0 <= j < |pairs| && Joins(pairs[j], u, g[u][k]);
    }
    forall u, v | 0 <= u < n && 0 <= v < n ensures v in g[u] <==> u in g[v] {
      AdjacencyNeighbours(n, pairs, u, v);
      AdjacencyNeighbours(n, pairs, v, u);
    }
  }

  /** `buildGraph`: `n` empty lists, then each pair appended at both of its ends. */
  method BuildGraph(n: nat, pairs: seq<Pair>) returns (graph: seq<seq<nat>>)
    requires PairsIn(pairs, n)
    ensures graph == Adjacency(n, pairs)
  {
    var lists := new seq<nat>[n](_ => []);
    assert lists[..] == Adjacency(n, pairs[..0]);
    for k := 0 to |pairs|
      invariant lists[..] == Adjacency(n, pairs[..k])
    {
      assert pairs[..k + 1][..k] == pairs[..k];
      var p := pairs[k];
      lists[p.a] := lists[p.a] + [p.b];
      lists[p.b] := lists[p.b] + [p.a];
    }
    assert pairs[..|pairs|] == pairs;
    graph := lists[..];
  }

  /*** Circuits ***/

  /** `p` follows edges of the graph. */
  ghost predicate IsWalk(graph: seq<seq<nat>>, p: seq<nat>)
  {
    && |p| >= 1
    && (forall i :: 0 <= i < |p| ==> p[i] < |graph|)
    && (forall i :: 0 <= i < |p| - 1 ==> p[i + 1] in graph[p[i]])
  }

  ghost predicate Connected(graph: seq<seq<nat>>, u: nat, v: nat)
  {
    exists p :: IsWalk(graph, p) && p[0] == u && p[|p| - 1] == v
  }

  /** The circuit of `u`: every vertex a walk from `u` reaches. */
  ghost function Component(graph: seq<seq<nat>>, u: nat): set<nat>
  {
    set v: nat | v < |graph| && Connected(graph, u, v)
  }

  /** The vertices marked in `visited` that were not marked in `before`. */
  ghost function NewlyMarked(before: seq<bool>, visited: seq<bool>): set<nat>
    requires |before| == |visited|
  {
    set v: nat | v < |visited| && visited[v] && !before[v]
  }

  lemma WalkExtend(graph: seq<seq<nat>>, p: seq<nat>, w: nat)
    requires IsWalk(graph, p) && w in graph[p[|p| - 1]] && w < |graph|
    ensures IsWalk(graph, p + [w])
  {
    var q := p + [w];
    forall i | 0 <= i < |q| - 1 ensures q[i + 1] in graph[q[i]] {
      if i < |p| - 1 {
        assert q[i] == p[i] && q[i + 1] == p[i + 1];
      }
    }
  }

  /** The vertices below `n`. */
  function Vertices(n: nat): (r: set<nat>)
    ensures forall v: nat :: v in r <==> v < n
    ensures |r| == n
  {
    if n == 0 then {}
    else
      var r := Vertices(n - 1);
      assert n - 1 !in r;
      r + {n - 1}
  }

  lemma SubsetSize<T>(a: set<T>, b: set<T>)
    requires a <= b
    ensures |a| <= |b|
  {
    assert b == a + (b - a);
  }

  /** `visited` is `before` with exactly the vertices of `marked` added. */
  ghost predicate MarkedExactly(before: seq<bool>, visited: seq<bool>, marked: set<nat>)
  {
    && |before| == |visited|
    && (forall v :: 0 <= v < |visited| ==> (visited[v] <==> before[v] || v in marked))
    && (forall v :: v in marked ==> v < |visited| && !before[v])
  }

  lemma MarkedExactlyIsNewlyMarked(before: seq<bool>, visited: seq<bool>, marked: set<nat>)
    requires MarkedExactly(before, visited, marked)
    ensures NewlyMarked(before, visited) == marked
  {
  }

  /** Each marked vertex has a walk from `start` recorded in `walks`. */
  ghost predicate WalksTo(graph: seq<seq<nat>>, start: nat, marked: set<nat>, walks: map<nat, seq<nat>>)
  {
    forall v :: v in marked ==> v in walks && IsWalk(graph, walks[v]) && walks[v][0] == start && walks[v][|walks[v]| - 1] == v
  }

  /** The stack holds distinct marked vertices not yet popped; marked = popped + stacked. */
  ghost predicate StackHolds(stack: seq<nat>, popped: set<nat>, marked: set<nat>)
  {
    && (forall i, j :: 0 <= i < j < |stack| ==> stack[i] != stack[j])
    && (forall i :: 0 <= i < |stack| ==> stack[i] in marked && stack[i] !in popped)
    && popped <= marked
    && (forall v :: v in marked ==> v in popped || v in stack)
  }

  /** Popping the top of the stack. */
  lemma PopHolds(stack: seq<nat>, popped: set<nat>, marked: set<nat>)
    requires StackHolds(stack, popped, marked) && stack != []
    ensures StackHolds(stack[..|stack| - 1], popped + {stack[|stack| - 1]}, marked)
  {
    var v, rest := stack[|stack| - 1], stack[..|stack| - 1];
    forall u | u in marked ensures u in popped + {v} || u in rest {
      if u !in popped && u != v {
        var i :| 0 <= i < |stack| && stack[i] == u;
        assert rest[i] == u;
      }
    }
  }

  /** Pushing a vertex as it is marked. */
  lemma PushHolds(stack: seq<nat>, popped: set<nat>, marked: set<nat>, w: nat)
    requires StackHolds(stack, popped, marked) && w !in marked
    ensures StackHolds(stack + [w], popped, marked + {w})
  {
  }

  /** When the stack is empty, the popped vertices are the newly marked ones. */
  lemma TraversalDone(graph: seq<seq<nat>>, before: seq<bool>, visited: seq<bool>, start: nat,
                      popped: set<nat>, marked: set<nat>, walks: map<nat, seq<nat>>)
    requires MarkedExactly(before, visited, marked) && StackHolds([], popped, marked)
    requires WalksTo(graph, start, marked, walks) && start in marked
    requires forall u, k :: u in popped && 0 <= k < |graph[u]| ==> graph[u][k] < |visited| && visited[graph[u][k]]
    ensures var m := NewlyMarked(before, visited);
      && m == popped && start in m
      && (forall v :: v in m ==> Connected(graph, start, v))
      && (forall u, k :: u in m && 0 <= k < |graph[u]| ==> graph[u][k] < |visited| && visited[graph[u][k]])
  {
    MarkedExactlyIsNewlyMarked(before, visited, marked);
    forall v | v in marked ensures Connected(graph, start, v) {
      var p := walks[v];
      assert IsWalk(graph, p) && p[0] == start && p[|p| - 1] == v;
    }
  }

  /** The `forEach` over the neighbours of `v`: each one not yet visited is marked and pushed. */
  method MarkNeighbours(graph: seq<seq<nat>>, visited: array<bool>, v: nat, stack: seq<nat>,
                        ghost before: seq<bool>, ghost start: nat, ghost popped: set<nat>,
                        ghost marked: set<nat>, ghost walks: map<nat, seq<nat>>)
    returns (next: seq<nat>, ghost marked': set<nat>, ghost walks': map<nat, seq<nat>>)
    requires ValidGraph(graph) && visited.Length == |graph| && v in marked
    requires MarkedExactly(before, visited[..], marked) && StackHolds(stack, popped, marked)
    requires WalksTo(graph, start, marked, walks)
    modifies visited
    ensures MarkedExactly(before, visited[..], marked') && StackHolds(next, popped, marked')
    ensures WalksTo(graph, start, marked', walks') && marked <= marked'
    ensures forall k :: 0 <= k < |graph[v]| ==> visited[graph[v][k]]
    ensures forall u :: 0 <= u < visited.Length && old(visited[u]) ==> visited[u]
  {
    next, marked', walks' := stack, marked, walks;
    var neighbours := graph[v];
    for j := 0 to |neighbours|
      invariant MarkedExactly(before, visited[..], marked') && StackHolds(next, popped, marked')
      invariant WalksTo(graph, start, marked', walks') && marked <= marked'
      invariant forall k :: 0 <= k < j ==> visited[neighbours[k]]
      invariant forall u :: 0 <= u < visited.Length && old(visited[u]) ==> visited[u]
    {
      var w := neighbours[j];
      if !visited[w] {
        visited[w] := true;
        WalkExtend(graph, walks'[v], w);
        walks' := walks'[w := walks'[v] + [w]];
        PushHolds(next, popped, marked', w);
        next := next + [w];
        marked' := marked' + {w};
      }
    }
  }

  /** `traverseCircuit`: nothing when `start` is already visited; otherwise a depth-first
      traversal from `start` with an explicit stack. A vertex is marked when it is pushed, so
      it is pushed at most once; the result counts the vertices popped. The newly marked
      vertices are all connected to `start`, and every neighbour of one of them ends up marked. */
  method TraverseCircuit(graph: seq<seq<nat>>, visited: array<bool>, start: nat) returns (size: nat)
    requires ValidGraph(graph) && visited.Length == |graph| && start < |graph|
    modifies visited
    ensures old(visited[start]) ==> size == 0 && visited[..] == old(visited[..])
    ensures forall v :: 0 <= v < visited.Length && old(visited[v]) ==> visited[v]
    ensures !old(visited[start]) ==>
      var marked := NewlyMarked(old(visited[..]), visited[..]);
      && start in marked
      && size == |marked| && size <= |graph|
      && (forall v :: v in marked ==> Connected(graph, start, v))
      && (forall u, k :: u in marked && 0 <= k < |graph[u]| ==> visited[graph[u][k]])
  {
    if visited[start] {
      return 0;
    }
    ghost var before := visited[..];
    var stack := [start];
    visited[start] := true;
    size := 0;
    ghost var popped: set<nat> := {};
    ghost var marked: set<nat> := {start};
    ghost var walks: map<nat, seq<nat>> := map[start := [start]];
    while stack != []
      invariant MarkedExactly(before, visited[..], marked)
      invariant StackHolds(stack, popped, marked)
      invariant WalksTo(graph, start, marked, walks)
      invariant start in marked && size == |popped|
      invariant forall u, k :: u in popped && 0 <= k < |graph[u]| ==> visited[graph[u][k]]
      decreases |graph| - |popped|
    {
      stack, popped, marked, walks := PopAndMark(graph, visited, stack, before, start, popped, marked, walks);
      size := size + 1;
    }
    TraversalDone(graph, before, visited[..], start, popped, marked, walks);
    SubsetSize(popped, Vertices(|graph|));
  }

  /** One pass of the traversal's loop: the top of the stack is popped and counted, and its
      unvisited neighbours are marked and pushed. */
  method PopAndMark(graph: seq<seq<nat>>, visited: array<bool>, stack: seq<nat>, ghost before: seq<bool>,
                    ghost start: nat, ghost popped: set<nat>, ghost marked: set<nat>, ghost walks: map<nat, seq<nat>>)
    returns (stack': seq<nat>, ghost popped': set<nat>, ghost marked': set<nat>, ghost walks': map<nat, seq<nat>>)
    requires ValidGraph(graph) && visited.Length == |graph| && stack != []
    requires MarkedExactly(before, visited[..], marked) && StackHolds(stack, popped, marked)
    requires WalksTo(graph, start, marked, walks) && start in marked
    requires forall u, k :: u in popped && 0 <= k < |graph[u]| ==> visited[graph[u][k]]
    modifies visited
    ensures MarkedExactly(before, visited[..], marked') && StackHolds(stack', popped', marked')
    ensures WalksTo(graph, start, marked', walks') && start in marked'
    ensures forall u, k :: u in popped' && 0 <= k < |graph[u]| ==> visited[graph[u][k]]
    ensures |popped'| == |popped| + 1 <= |graph|
  {
    var v := stack[|stack| - 1];
    PopHolds(stack, popped, marked);
    popped' := popped + {v};
    stack', marked', walks' := MarkNeighbours(graph, visited, v, stack[..|stack| - 1], before, start, popped', marked, walks);
    SubsetSize(popped', Vertices(|graph|));
  }

  lemma ConnectedStep(graph: seq<seq<nat>>, a: nat, u: nat, k: nat)
    requires ValidGraph(graph) && u < |graph| && k < |graph[u]| && Connected(graph, a, u)
    ensures Connected(graph, a, graph[u][k])
  {
    var p :| IsWalk(graph, p) && p[0] == a && p[|p| - 1] == u;
    WalkExtend(graph, p, graph[u][k]);
    assert (p + [graph[u][k]])[0] == a;
  }

  /** The visited vertices are closed under edges. */
  ghost predicate Closed(graph: seq<seq<nat>>, visited: seq<bool>)
    requires ValidGraph(graph) && |visited| == |graph|
  {
    forall u, k :: 0 <= u < |graph| && visited[u] && 0 <= k < |graph[u]| ==> visited[graph[u][k]]
  }

  /** What a traversal from `start` promises about the vertices it marks. */
  ghost predicate Traversed(graph: seq<seq<nat>>, before: seq<bool>, after: seq<bool>, start: nat)
    requires ValidGraph(graph) && |before| == |graph| && |after| == |graph|
  {
    var marked := NewlyMarked(before, after);
    && (forall v :: 0 <= v < |graph| && before[v] ==> after[v])
    && start in marked
    && (forall v :: v in marked ==> Connected(graph, start, v))
    && (forall u, k :: u in marked && 0 <= k < |graph[u]| ==> after[graph[u][k]])
  }

  lemma {:induction false} WalkStaysMarked(graph: seq<seq<nat>>, before: seq<bool>, after: seq<bool>, start: nat, p: seq<nat>, i: nat)
    requires ValidGraph(graph) && Symmetric(graph) && |before| == |graph| && |after| == |graph|
    requires Closed(graph, before) && Traversed(graph, before, after, start)
    requires IsWalk(graph, p) && p[0] == start && i < |p|
    ensures p[i] in NewlyMarked(before, after)
    decreases i
  {
    if i > 0 {
      WalkStaysMarked(graph, before, after, start, p, i - 1);
      var u, w := p[i - 1], p[i];
      var k :| 0 <= k < |graph[u]| && graph[u][k] == w;
      assert after[w];
      OutsideClosed(graph, before, u, w);
    }
  }

  /** In an undirected graph, a neighbour of a vertex outside a closed set is outside it too. */
  lemma OutsideClosed(graph: seq<seq<nat>>, before: seq<bool>, u: nat, w: nat)
    requires ValidGraph(graph) && Symmetric(graph) && |before| == |graph| && Closed(graph, before)
    requires u < |graph| && w < |graph| && w in graph[u] && !before[u]
    ensures !before[w]
  {
    assert u in graph[w];
    var k :| 0 <= k < |graph[w]| && graph[w][k] == u;
  }

  /** In an undirected graph whose visited part is closed, a traversal from an unvisited
      vertex marks exactly its circuit. */
  lemma TraversalIsComponent(graph: seq<seq<nat>>, before: seq<bool>, after: seq<bool>, start: nat)
    requires ValidGraph(graph) && Symmetric(graph) && |before| == |graph| && |after| == |graph|
    requires Closed(graph, before) && Traversed(graph, before, after, start)
    ensures NewlyMarked(before, after) == Component(graph, start)
  {
    forall v | v in Component(graph, start) ensures v in NewlyMarked(before, after) {
      var p :| IsWalk(graph, p) && p[0] == start && p[|p| - 1] == v;
      WalkStaysMarked(graph, before, after, start, p, |p| - 1);
    }
  }

  /** The state of `circuitSizes` between two traversals: one size per root, roots pairwise
      unconnected, and the visited vertices are those connected to some root. */
  ghost predicate SizesSoFar(graph: seq<seq<nat>>, visited: seq<bool>, sizes: seq<nat>, roots: seq<nat>, covered: set<nat>)
  {
    && |visited| == |graph| && |roots| == |sizes|
    && (forall k :: 0 <= k < |sizes| ==> roots[k] < |graph| && sizes[k] > 0 && sizes[k] == |Component(graph, roots[k])|)
    && (forall k, l :: 0 <= k < l < |roots| ==> !Connected(graph, roots[k], roots[l]))
    && (forall v :: 0 <= v < |graph| ==> (visited[v] <==> exists k :: 0 <= k < |roots| && Connected(graph, roots[k], v)))
    && (forall v: nat :: v in covered <==> v < |visited| && visited[v])
    && Sum(sizes) == |covered|
  }

  lemma SizesSoFarClosed(graph: seq<seq<nat>>, visited: seq<bool>, sizes: seq<nat>, roots: seq<nat>, covered: set<nat>)
    requires ValidGraph(graph) && SizesSoFar(graph, visited, sizes, roots, covered)
    ensures Closed(graph, visited)
  {
    forall u, k | 0 <= u < |graph| && visited[u] && 0 <= k < |graph[u]| ensures visited[graph[u][k]] {
      var j :| 0 <= j < |roots| && Connected(graph, roots[j], u);
      ConnectedStep(graph, roots[j], u, k);
    }
  }

  /** The roots stay pairwise unconnected when an unvisited vertex joins them. */
  lemma AddRoot(graph: seq<seq<nat>>, before: seq<bool>, sizes: seq<nat>, roots: seq<nat>, covered: set<nat>, start: nat)
    requires SizesSoFar(graph, before, sizes, roots, covered) && start < |graph| && !before[start]
    ensures forall k, l :: 0 <= k < l < |roots + [start]| ==> !Connected(graph, (roots + [start])[k], (roots + [start])[l])
  {
    var roots' := roots + [start];
    forall k, l | 0 <= k < l < |roots'| ensures !Connected(graph, roots'[k], roots'[l]) {
      assert roots'[k] == roots[k];
      if l < |roots| {
        assert roots'[l] == roots[l];
      }
    }
  }

  /** After the traversal, the visited vertices are those connected to a root. */
  lemma AddVisited(graph: seq<seq<nat>>, before: seq<bool>, after: seq<bool>, sizes: seq<nat>, roots: seq<nat>,
                   covered: set<nat>, start: nat)
    requires ValidGraph(graph) && start < |graph| && |after| == |graph|
    requires SizesSoFar(graph, before, sizes, roots, covered)
    requires Traversed(graph, before, after, start)
    requires NewlyMarked(before, after) == Component(graph, start)
    ensures forall v :: 0 <= v < |graph| ==>
      (after[v] <==> exists k :: 0 <= k < |roots + [start]| && Connected(graph, (roots + [start])[k], v))
  {
    var roots' := roots + [start];
    forall v | 0 <= v < |graph| ensures after[v] <==> exists k :: 0 <= k < |roots'| && Connected(graph, roots'[k], v) {
      if after[v] {
        if before[v] {
          var k :| 0 <= k < |roots| && Connected(graph, roots[k], v);
          assert roots'[k] == roots[k];
        } else {
          assert v in NewlyMarked(before, after);
          assert roots'[|roots|] == start;
        }
      } else {
        assert v !in Component(graph, start);
        forall k | 0 <= k < |roots'| ensures !Connected(graph, roots'[k], v) {
          if k < |roots| {
            assert roots'[k] == roots[k];
          }
        }
      }
    }
  }

  /** The covered set grows by the newly marked vertices, and the sizes' sum with it. */
  lemma AddCovered(before: seq<bool>, after: seq<bool>, sizes: seq<nat>, covered: set<nat>, size: nat)
    requires |before| == |after|
    requires forall v :: 0 <= v < |before| && before[v] ==> after[v]
    requires forall v: nat :: v in covered <==> v < |before| && before[v]
    requires Sum(sizes) == |covered| && size == |NewlyMarked(before, after)|
    ensures forall v: nat :: v in covered + NewlyMarked(before, after) <==> v < |after| && after[v]
    ensures Sum(sizes + [size]) == |covered + NewlyMarked(before, after)|
  {
    assert covered * NewlyMarked(before, after) == {};
    SumAppend(sizes, [size]);
  }

  /** A traversal from an unvisited vertex adds its circuit as a new entry. */
  lemma AddCircuit(graph: seq<seq<nat>>, before: seq<bool>, after: seq<bool>, sizes: seq<nat>, roots: seq<nat>,
                   covered: set<nat>, start: nat, size: nat)
    requires ValidGraph(graph) && Symmetric(graph) && start < |graph| && |after| == |graph|
    requires SizesSoFar(graph, before, sizes, roots, covered) && !before[start]
    requires Traversed(graph, before, after, start) && size == |NewlyMarked(before, after)|
    ensures SizesSoFar(graph, after, sizes + [size], roots + [start], covered + NewlyMarked(before, after))
  {
    SizesSoFarClosed(graph, before, sizes, roots, covered);
    TraversalIsComponent(graph, before, after, start);
    AddRoot(graph, before, sizes, roots, covered, start);
    AddVisited(graph, before, after, sizes, roots, covered, start);
    AddCovered(before, after, sizes, covered, size);
    var roots', sizes' := roots + [start], sizes + [size];
    forall k | 0 <= k < |sizes'| ensures roots'[k] < |graph| && sizes'[k] > 0 && sizes'[k] == |Component(graph, roots'[k])| {
      if k < |sizes| {
        assert roots'[k] == roots[k] && sizes'[k] == sizes[k];
      }
    }
  }

  /** What `circuitSizes` computes, with the ghost `roots` naming one vertex per entry: every
      entry is the (positive) size of its root's circuit, no two roots share a circuit, and
      every vertex lies in the circuit of some root. */
  ghost predicate Circuits(graph: seq<seq<nat>>, sizes: seq<nat>, roots: seq<nat>)
  {
    && |roots| == |sizes|
    && (forall k :: 0 <= k < |sizes| ==> roots[k] < |graph| && sizes[k] > 0 && sizes[k] == |Component(graph, roots[k])|)
    && (forall k, l :: 0 <= k < l < |roots| ==> !Connected(graph, roots[k], roots[l]))
    && (forall v :: 0 <= v < |graph| ==> InSomeCircuit(graph, roots, v))
  }

  ghost predicate InSomeCircuit(graph: seq<seq<nat>>, roots: seq<nat>, v: nat)
  {
    exists k :: 0 <= k < |roots| && Connected(graph, roots[k], v)
  }

  /** Once every vertex is visited, the entries so far are all the circuits. */
  lemma SizesDone(graph: seq<seq<nat>>, visited: seq<bool>, sizes: seq<nat>, roots: seq<nat>, covered: set<nat>)
    requires SizesSoFar(graph, visited, sizes, roots, covered)
    requires forall v :: 0 <= v < |visited| ==> visited[v]
    ensures Circuits(graph, sizes, roots) && Sum(sizes) == |graph|
  {
    forall v: nat ensures v in covered <==> v in Vertices(|graph|) {
    }
    assert covered == Vertices(|graph|);
    forall v | 0 <= v < |graph| ensures InSomeCircuit(graph, roots, v) {
      assert visited[v];
    }
  }

  /** `circuitSizes`: a traversal from every vertex in turn over one shared `visited` array,
      keeping the positive sizes. There is one entry per circuit, and the entries add up to
      the number of vertices. */
  method CircuitSizes(graph: seq<seq<nat>>) returns (sizes: seq<nat>, ghost roots: seq<nat>)
    requires ValidGraph(graph) && Symmetric(graph)
    ensures Circuits(graph, sizes, roots)
    ensures Sum(sizes) == |graph|
  {
    var visited := new bool[|graph|](_ => false);
    sizes, roots := [], [];
    ghost var covered: set<nat> := {};
    for start := 0 to |graph|
      invariant SizesSoFar(graph, visited[..], sizes, roots, covered)
      invariant forall v :: 0 <= v < start ==> visited[v]
    {
      sizes, roots, covered := VisitFrom(graph, visited, start, sizes, roots, covered);
    }
    SizesDone(graph, visited[..], sizes, roots, covered);
  }

  /** One pass of `circuitSizes`' loop: the traversal from `start`, and its size kept when it
      is positive. */
  method VisitFrom(graph: seq<seq<nat>>, visited: array<bool>, start: nat, sizes: seq<nat>,
                   ghost roots: seq<nat>, ghost covered: set<nat>)
    returns (sizes': seq<nat>, ghost roots': seq<nat>, ghost covered': set<nat>)
    requires ValidGraph(graph) && Symmetric(graph) && start < |graph| && visited.Length == |graph|
    requires SizesSoFar(graph, visited[..], sizes, roots, covered)
    requires forall v :: 0 <= v < start ==> visited[v]
    modifies visited
    ensures SizesSoFar(graph, visited[..], sizes', roots', covered')
    ensures forall v :: 0 <= v <= start ==> visited[v]
  {
    ghost var before := visited[..];
    var size := TraverseCircuit(graph, visited, start);
    if size > 0 {
      AddCircuit(graph, before, visited[..], sizes, roots, covered, start, size);
      sizes', roots', covered' := sizes + [size], roots + [start], covered + NewlyMarked(before, visited[..]);
    } else {
      sizes', roots', covered' := sizes, roots, covered;
    }
  }

  function Neg(x: nat): int
  {
    -(x as int)
  }

  /** The sizes sorted from largest to smallest (`sort((a, b) => b - a)`). */
  function Descending(sizes: seq<nat>): (r: seq<nat>)
    ensures |r| == |sizes| && multiset(r) == multiset(sizes)
    ensures forall i, j :: 0 <= i < j < |r| ==> r[i] >= r[j]
  {
    var r := SortBy(sizes, Neg);
    assert forall i, j :: 0 <= i < j < |r| ==> Neg(r[i]) <= Neg(r[j]);
    r
  }

  /** The product of the three largest sizes; NaN (None) when there are fewer than three. */
  function TopThree(sizes: seq<nat>): (r: Option<nat>)
    ensures r.Some? <==> |sizes| >= 3
  {
    var d := Descending(sizes);
    if |d| < 3 then None else Some(d[0] * d[1] * d[2])
  }

  /** `TopThree` multiplies three of the sizes, and every size left out is at most each of them. */
  lemma TopThreeLargest(sizes: seq<nat>)
    requires |sizes| >= 3
    ensures |Descending(sizes)| == |sizes|
    ensures var d := Descending(sizes);
      && TopThree(sizes) == Some(d[0] * d[1] * d[2])
      && multiset(d[..3]) <= multiset(sizes)
      && forall q :: q in multiset(sizes) - multiset(d[..3]) ==> q <= d[2] && q <= d[1] && q <= d[0]
  {
    var d := Descending(sizes);
    PrefixOfSorted(d, Neg, 3);
    forall q | q in multiset(sizes) - multiset(d[..3]) ensures q <= d[2] && q <= d[1] && q <= d[0] {
      assert Neg(d[2]) <= Neg(q);
    }
  }

  /** The graph the `n` closest pairs make. */
  ghost function PairGraph(points: seq<Point>, n: nat): seq<seq<nat>>
  {
    ClosestPairsIn(points, n);
    Adjacency(|points|, ClosestPairs(points, n))
  }

  /** `part1`: connect the `n` closest pairs and multiply the three largest circuit sizes. */
  method Part1(points: seq<Point>, n: nat) returns (r: Option<nat>)
    ensures exists sizes: seq<nat>, roots: seq<nat> ::
              Circuits(PairGraph(points, n), sizes, roots) && Sum(sizes) == |points| && r == TopThree(sizes)
  {
    var pairs := ClosestPairs(points, n);
    ClosestPairsIn(points, n);
    var graph := BuildGraph(|points|, pairs);
    AdjacencyUndirected(|points|, pairs);
    var sizes;
    ghost var roots;
    sizes, roots := CircuitSizes(graph);
    r := TopThree(sizes);
    assert graph == PairGraph(points, n);
  }
}
