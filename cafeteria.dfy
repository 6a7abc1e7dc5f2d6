/** The cafeteria inventory (day 5): fresh-ingredient ID ranges, inclusive at both ends.
    Part 1 counts the available ingredients that fall in some range; part 2 counts the IDs
    the ranges cover, by sorting the ranges by their low end and sweeping over them while
    merging ranges that overlap or touch. */
module Cafeteria {
  import opened Common
  import opened Sorting

  datatype Range = Range(low: int, high: int)

  /** `inRange`: both ends belong to the range. */
  predicate InRange(item: int, range: Range)
  {
    item >= range.low && item <= range.high
  }

  /** The ranges that contain `item`, in their order (the `filter` of `inAnyRange`). */
  function Containing(ranges: seq<Range>, item: int): (r: seq<Range>)
    ensures forall k :: 0 <= k < |r| ==> r[k] in ranges && InRange(item, r[k])
    ensures forall k :: 0 <= k < |ranges| && InRange(item, ranges[k]) ==> ranges[k] in r
  {
    if ranges == [] then []
    else
      var init := ranges[..|ranges| - 1];
      var last := ranges[|ranges| - 1];
      assert forall k :: 0 <= k < |init| ==> init[k] == ranges[k];
      Containing(init, item) + (if InRange(item, last) then [last] else [])
  }

  /** `inAnyRange`: the filter keeps at least one range. */
  predicate InAnyRange(ranges: seq<Range>, item: int)
  {
    |Containing(ranges, item)| > 0
  }

  lemma InAnyRangeExists(ranges: seq<Range>, item: int)
    ensures InAnyRange(ranges, item) <==> exists k :: 0 <= k < |ranges| && InRange(item, ranges[k])
  {
    var c := Containing(ranges, item);
    if |c| > 0 {
      assert c[0] in ranges;
      var k :| 0 <= k < |ranges| && ranges[k] == c[0];
    }
  }

  /** The ingredients kept by the `filter` of `part1`. */
  function Fresh(ranges: seq<Range>, ingredients: seq<int>): seq<int>
  {
    if ingredients == [] then []
    else
      var last := ingredients[|ingredients| - 1];
      Fresh(ranges, ingredients[..|ingredients| - 1]) + (if InAnyRange(ranges, last) then [last] else [])
  }

  /** `part1`: how many of the ingredients are fresh. */
  function Part1(ranges: seq<Range>, ingredients: seq<int>): nat
  {
    |Fresh(ranges, ingredients)|
  }

  /** The positions of the fresh ingredients. */
  function FreshPositions(ranges: seq<Range>, ingredients: seq<int>): set<nat>
  {
    set i: nat | i < |ingredients| && InAnyRange(ranges, ingredients[i])
  }

  lemma FreshPositionsSnoc(ranges: seq<Range>, ingredients: seq<int>)
    requires ingredients != []
    ensures var n := |ingredients| - 1;
      FreshPositions(ranges, ingredients)
        == FreshPositions(ranges, ingredients[..n]) + (if InAnyRange(ranges, ingredients[n]) then {n} else {})
  {
    var n := |ingredients| - 1;
    var init := ingredients[..n];
    forall i: nat | i < n ensures ingredients[i] == init[i] {
    }
  }

  /** `part1` counts exactly the positions whose ingredient lies in some range. */
  lemma {:induction false} Part1Counts(ranges: seq<Range>, ingredients: seq<int>)
    ensures Part1(ranges, ingredients) == |FreshPositions(ranges, ingredients)|
  {
    if ingredients != [] {
      var n := |ingredients| - 1;
      Part1Counts(ranges, ingredients[..n]);
      FreshPositionsSnoc(ranges, ingredients);
      assert n !in FreshPositions(ranges, ingredients[..n]);
    }
  }

  /** Every integer some range contains. */
  function Covered(ranges: seq<Range>): set<int>
  {
    if ranges == [] then {}
    else
      var last := ranges[|ranges| - 1];
      Covered(ranges[..|ranges| - 1]) + Interval(last.low, last.high)
  }

  lemma {:induction false} CoveredMember(ranges: seq<Range>, x: int)
    ensures x in Covered(ranges) <==> exists k :: 0 <= k < |ranges| && InRange(x, ranges[k])
  {
    if ranges != [] {
      var init := ranges[..|ranges| - 1];
      CoveredMember(init, x);
      if x in Covered(init) {
        var k :| 0 <= k < |init| && InRange(x, init[k]);
        assert ranges[k] == init[k];
      }
      if exists k :: 0 <= k < |ranges| && InRange(x, ranges[k]) {
        var k :| 0 <= k < |ranges| && InRange(x, ranges[k]);
        if k < |init| {
          assert init[k] == ranges[k];
        }
      }
    }
  }

  lemma CoveredIsAnyRange(ranges: seq<Range>, item: int)
    ensures item in Covered(ranges) <==> InAnyRange(ranges, item)
  {
    InAnyRangeExists(ranges, item);
    CoveredMember(ranges, item);
  }

  /*** Part 2: the sweep ***/

  /** The sweep's accumulator: IDs counted so far and the range being grown. */
  datatype State = State(count: int, currentLow: int, currentHigh: int)

  /** `overlaps`: the next range starts inside the current one or right after it. */
  predicate Overlaps(state: State, low: int)
  {
    low <= state.currentHigh + 1
  }

  /** `extend`: the current range grows to cover `high`. */
  function Extend(state: State, high: int): (r: State)
    ensures r.count == state.count && r.currentLow == state.currentLow
    ensures r.currentHigh >= state.currentHigh && r.currentHigh >= high
    ensures r.currentHigh == state.currentHigh || r.currentHigh == high
  {
    state.(currentHigh := if state.currentHigh >= high then state.currentHigh else high)
  }

  /** `closeAndStart`: the current range is counted and `low..high` becomes current. */
  function CloseAndStart(state: State, low: int, high: int): (r: State)
    ensures r.count - state.count == |Interval(state.currentLow, state.currentHigh)| || state.currentLow > state.currentHigh
    ensures r.currentLow == low && r.currentHigh == high
  {
    State(state.count + (state.currentHigh - state.currentLow + 1), low, high)
  }

  function Step(state: State, range: Range): State
  {
    if Overlaps(state, range.low) then Extend(state, range.high) else CloseAndStart(state, range.low, range.high)
  }

  /** The `reduce` over the ranges, left to right. */
  function Sweep(state: State, ranges: seq<Range>): State
  {
    if ranges == [] then state else Step(Sweep(state, ranges[..|ranges| - 1]), ranges[|ranges| - 1])
  }

  function Low(r: Range): int
  {
    r.low
  }

  /** `countUnionRanges`. The program reads `sorted[0]` and fails on an empty list;
      the model reports that as `None`. */
  function CountUnionRanges(ranges: seq<Range>): (r: Option<int>)
    ensures r.None? <==> ranges == []
  {
    var sorted := SortBy(ranges, Low);
    if sorted == [] then None else Some(SweepCount(sorted))
  }

  /** The `reduce` over the sorted ranges from the first one, and the count it ends with once
      the last current range is added. */
  function SweepCount(sorted: seq<Range>): int
    requires sorted != []
  {
    var final := Sweep(State(0, sorted[0].low, sorted[0].high), sorted[1..]);
    final.count + (final.currentHigh - final.currentLow + 1)
  }

  /** The integers from `lo` to `hi`. */
  function Interval(lo: int, hi: int): (r: set<int>)
    ensures forall x :: x in r <==> lo <= x <= hi
    ensures lo <= hi ==> |r| == hi - lo + 1
    decreases hi - lo
  {
    if lo > hi then {}
    else
      var below := Interval(lo, hi - 1);
      assert hi !in below;
      below + {hi}
  }

  predicate WellFormed(ranges: seq<Range>)
  {
    forall k :: 0 <= k < |ranges| ==> ranges[k].low <= ranges[k].high
  }

  lemma CoveredSnoc(ranges: seq<Range>, r: Range)
    ensures Covered(ranges + [r]) == Covered(ranges) + Interval(r.low, r.high)
  {
    assert (ranges + [r])[..|ranges|] == ranges;
  }

  /** A next range that overlaps or touches the current one is merged into it. */
  lemma MergeStep(prev: State, r: Range)
    requires prev.currentLow <= prev.currentHigh
    requires prev.currentLow <= r.low <= r.high && Overlaps(prev, r.low)
    ensures var state := Extend(prev, r.high);
      Interval(prev.currentLow, prev.currentHigh) + Interval(r.low, r.high)
        == Interval(state.currentLow, state.currentHigh)
  {
  }

  /** A next range that starts past the current one closes it: the current range joins the
      counted part, which stays below the new current range. */
  lemma CloseStep(d: set<int>, prev: State, r: Range)
    requires forall x :: x in d ==> x < prev.currentLow
    requires |d| == prev.count
    requires prev.currentLow <= prev.currentHigh && !Overlaps(prev, r.low)
    ensures var current := Interval(prev.currentLow, prev.currentHigh);
      && (forall x :: x in d + current ==> x < r.low)
      && |d + current| == CloseAndStart(prev, r.low, r.high).count
  {
    var current := Interval(prev.currentLow, prev.currentHigh);
    assert d * current == {};
  }

  /** One step of the sweep keeps its invariant: the next range starts at or after the
      current one, and is either merged into it or closes it. */
  lemma SweepStep(d: set<int>, prev: State, r: Range) returns (done: set<int>)
    requires forall x :: x in d ==> x < prev.currentLow
    requires |d| == prev.count
    requires prev.currentLow <= prev.currentHigh
    requires prev.currentLow <= r.low <= r.high
    ensures var state := Step(prev, r);
      && d + Interval(prev.currentLow, prev.currentHigh) + Interval(r.low, r.high)
           == done + Interval(state.currentLow, state.currentHigh)
      && (forall x :: x in done ==> x < state.currentLow)
      && |done| == state.count
      && state.currentLow <= state.currentHigh
      && state.currentLow <= r.low
  {
    var current := Interval(prev.currentLow, prev.currentHigh);
    if Overlaps(prev, r.low) {
      done := d;
      assert Step(prev, r) == Extend(prev, r.high);
      MergeStep(prev, r);
      assert d + current + Interval(r.low, r.high) == d + (current + Interval(r.low, r.high));
    } else {
      done := d + current;
      assert Step(prev, r) == CloseAndStart(prev, r.low, r.high);
      CloseStep(d, prev, r);
    }
  }

  /** One more sorted range takes one more step of the sweep and adds its integers to those
      covered. */
  lemma SweepUnfold(sorted: seq<Range>, k: nat)
    requires 1 <= k < |sorted|
    ensures var init := State(0, sorted[0].low, sorted[0].high);
      Sweep(init, sorted[1..k + 1]) == Step(Sweep(init, sorted[1..k]), sorted[k])
    ensures Covered(sorted[..k + 1]) == Covered(sorted[..k]) + Interval(sorted[k].low, sorted[k].high)
  {
    var rest := sorted[1..k + 1];
    assert rest[..|rest| - 1] == sorted[1..k] && rest[|rest| - 1] == sorted[k];
    assert sorted[..k + 1] == sorted[..k] + [sorted[k]];
    CoveredSnoc(sorted[..k], sorted[k]);
  }

  /** The invariant of the sweep after the first `k + 1` sorted ranges: what they cover is the
      counted part, all below `currentLow`, plus the current range. */
  lemma {:induction false} SweepInvariant(sorted: seq<Range>, k: nat) returns (done: set<int>)
    requires k < |sorted| && WellFormed(sorted) && SortedBy(sorted, Low)
    ensures var state := Sweep(State(0, sorted[0].low, sorted[0].high), sorted[1..k + 1]);
      && Covered(sorted[..k + 1]) == done + Interval(state.currentLow, state.currentHigh)
      && (forall x :: x in done ==> x < state.currentLow)
      && |done| == state.count
      && state.currentLow <= state.currentHigh
      && state.currentLow <= sorted[k].low
  {
    var init := State(0, sorted[0].low, sorted[0].high);
    if k == 0 {
      done := {};
      assert sorted[..1] == [] + [sorted[0]];
      CoveredSnoc([], sorted[0]);
    } else {
      var d := SweepInvariant(sorted, k - 1);
      SweepUnfold(sorted, k);
      assert Low(sorted[k - 1]) <= Low(sorted[k]);
      done := SweepStep(d, Sweep(init, sorted[1..k]), sorted[k]);
    }
  }

  lemma CoveredSubset(a: seq<Range>, b: seq<Range>)
    requires multiset(a) == multiset(b)
    ensures Covered(a) <= Covered(b)
  {
    forall x | x in Covered(a) ensures x in Covered(b) {
      CoveredMember(a, x);
      CoveredMember(b, x);
      var k :| 0 <= k < |a| && InRange(x, a[k]);
      assert a[k] in multiset(b);
      var m :| 0 <= m < |b| && b[m] == a[k];
    }
  }

  /** Reordering the ranges does not change what they cover. */
  lemma CoveredPermutation(a: seq<Range>, b: seq<Range>)
    requires multiset(a) == multiset(b)
    ensures Covered(a) == Covered(b)
  {
    CoveredSubset(a, b);
    CoveredSubset(b, a);
  }

  lemma DisjointCount(done: set<int>, state: State)
    requires forall x :: x in done ==> x < state.currentLow
    requires |done| == state.count && state.currentLow <= state.currentHigh
    ensures |done + Interval(state.currentLow, state.currentHigh)| == state.count + (state.currentHigh - state.currentLow + 1)
  {
    assert done * Interval(state.currentLow, state.currentHigh) == {};
  }

  /** Sorting keeps every range well formed. */
  lemma SortedWellFormed(ranges: seq<Range>)
    requires WellFormed(ranges)
    ensures WellFormed(SortBy(ranges, Low))
  {
    var sorted := SortBy(ranges, Low);
    forall k | 0 <= k < |sorted| ensures sorted[k].low <= sorted[k].high {
      assert sorted[k] in multiset(ranges);
      var m :| 0 <= m < |ranges| && ranges[m] == sorted[k];
    }
  }

  /** The sweep over the sorted ranges ends with a count and a current range that together
      number the integers the ranges cover. */
  lemma SweepCovers(sorted: seq<Range>)
    requires sorted != [] && WellFormed(sorted) && SortedBy(sorted, Low)
    ensures |Covered(sorted)| == SweepCount(sorted)
  {
    var n := |sorted| - 1;
    assert sorted[1..n + 1] == sorted[1..] && sorted[..n + 1] == sorted;
    var done := SweepInvariant(sorted, n);
    var final := Sweep(State(0, sorted[0].low, sorted[0].high), sorted[1..]);
    assert Covered(sorted) == done + Interval(final.currentLow, final.currentHigh);
    DisjointCount(done, final);
  }

  /** For well-formed ranges, `countUnionRanges` is the number of integers they cover. */
  lemma CountUnionRangesCorrect(ranges: seq<Range>)
    requires ranges != [] && WellFormed(ranges)
    ensures CountUnionRanges(ranges) == Some(|Covered(ranges)|)
  {
    var sorted := SortBy(ranges, Low);
    SortedWellFormed(ranges);
    SweepCovers(sorted);
    CoveredPermutation(sorted, ranges);
  }
}
