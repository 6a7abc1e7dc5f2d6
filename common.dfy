/** Small value types shared by the puzzle modules: optional values, results that
    carry the error a solver throws, and sums over sequences of numbers. */
module Common {

  datatype Option<+T> = None | Some(value: T)

  /** The outcome of a computation that the program either finishes or aborts by throwing. */
  datatype Result<+T> = Ok(value: T) | Err(message: string)

  /** Left-to-right sum, as `reduce((a, b) => a + b, 0)` or lodash `sum` computes it. */
  function Sum(xs: seq<int>): int
  {
    if xs == [] then 0 else Sum(xs[..|xs| - 1]) + xs[|xs| - 1]
  }

  lemma {:induction false} SumAppend(xs: seq<int>, ys: seq<int>)
    ensures Sum(xs + ys) == Sum(xs) + Sum(ys)
    decreases |ys|
  {
    if ys == [] {
      assert xs + ys == xs;
    } else {
      assert (xs + ys)[..|xs + ys| - 1] == xs + ys[..|ys| - 1];
      SumAppend(xs, ys[..|ys| - 1]);
    }
  }

  lemma {:induction false} SumNonNegative(xs: seq<int>)
    requires forall i :: 0 <= i < |xs| ==> xs[i] >= 0
    ensures Sum(xs) >= 0
  {
    if xs != [] {
      SumNonNegative(xs[..|xs| - 1]);
    }
  }

  /** lodash `reverse` (and `Array.prototype.reverse`) on a fresh list. */
  function Reverse<T>(s: seq<T>): (r: seq<T>)
    ensures |r| == |s|
    ensures forall i :: 0 <= i < |s| ==> r[i] == s[|s| - 1 - i]
  {
    if s == [] then [] else Reverse(s[1..]) + [s[0]]
  }

  /** A sum does not depend on the order of its terms. */
  lemma {:induction false} SumReverse(xs: seq<int>)
    ensures Sum(Reverse(xs)) == Sum(xs)
  {
    if xs != [] {
      SumReverse(xs[1..]);
      SumAppend(Reverse(xs[1..]), [xs[0]]);
      SumAppend([xs[0]], xs[1..]);
      assert [xs[0]] + xs[1..] == xs;
      assert Sum([xs[0]]) == xs[0] by {
        assert [xs[0]][..0] == [];
      }
    }
  }
}
