/** The lobby (day 3): each line is a bank of batteries, one digit per battery; turning on
    `slots` of them in order reads their digits as a number, the joltage. The solver picks the
    digits greedily, one slot at a time, and sums the joltages of all banks. */
module Lobby {
  import opened Common
  import opened Text

  /** Every element is a single decimal digit. */
  predicate AllDigitValues(xs: seq<nat>)
  {
    forall i :: 0 <= i < |xs| ==> xs[i] < 10
  }

  /** `line.split("").map(parseInt)` on a line of digits. */
  function ParseLineToNumbers(line: string): (r: seq<nat>)
    requires AllDigits(line)
    ensures |r| == |line| && AllDigitValues(r)
  {
    seq(|line|, i requires 0 <= i < |line| => (line[i] - '0') as nat)
  }

  /** Each element is `parseInt` of its one-character piece of the line. */
  lemma ParseEachCharacter(line: string, i: nat)
    requires AllDigits(line) && i < |line|
    ensures ParseInt(Chars(line)[i]) == Some(ParseLineToNumbers(line)[i])
  {
    var piece := Chars(line)[i];
    assert piece == [line[i]];
    assert piece[..0] == [];
    assert DecimalValue(piece) == (line[i] - '0') as nat;
  }

  /** lodash `maxBy` on a non-empty list of numbers. */
  function MaxBy(xs: seq<nat>): (r: nat)
    requires xs != []
    ensures r in xs
    ensures forall i :: 0 <= i < |xs| ==> xs[i] <= r
  {
    if |xs| == 1 then xs[0]
    else
      var m := MaxBy(xs[1..]);
      assert forall i :: 1 <= i < |xs| ==> xs[i] == xs[1..][i - 1];
      if xs[0] >= m then xs[0] else m
  }

  /** lodash `indexOf`: the first position of `x`. */
  function IndexOf(xs: seq<nat>, x: nat): (r: nat)
    requires x in xs
    ensures r < |xs| && xs[r] == x
    ensures forall k :: 0 <= k < r ==> xs[k] != x
  {
    if xs[0] == x then 0
    else
      assert x in xs[1..];
      1 + IndexOf(xs[1..], x)
  }

  /** The character of a decimal digit. */
  function DigitChar(d: nat): (r: char)
    requires d < 10
    ensures IsDigit(r) && (r - '0') as nat == d
  {
    '0' + d as char
  }

  /** A one-digit number prints as one character, which parses back to the digit. */
  lemma DigitString(d: nat)
    requires d < 10
    ensures DecimalString(d) == [DigitChar(d)]
    ensures ParseLineToNumbers(DecimalString(d)) == [d]
  {
  }

  /** `findHighestJoltage`: with one slot left, the largest digit; otherwise the first largest
      digit that still leaves `slots - 1` digits after it, followed by the best choice from
      the digits after it. */
  function FindHighestJoltage(parts: seq<nat>, slots: nat): (r: string)
    requires 1 <= slots <= |parts| && AllDigitValues(parts)
    ensures |r| == slots && AllDigits(r)
    ensures ParseLineToNumbers(r) == Greedy(parts, slots)
    decreases slots
  {
    if slots == 1 then
      assert ParseLineToNumbers([DigitChar(MaxBy(parts))]) == [MaxBy(parts)];
      [DigitChar(MaxBy(parts))]
    else
      var candidates := parts[..|parts| - (slots - 1)];
      var max := MaxBy(candidates);
      var index := IndexOf(candidates, max);
      var rest := parts[index + 1..];
      var tail := FindHighestJoltage(rest, slots - 1);
      ConsGreedy(parts, slots, max, index, tail);
      [DigitChar(max)] + tail
  }

  /*** Subsequences and their order ***/

  /** `xs` can be read off `ys` left to right, skipping elements. */
  predicate SubseqOf(xs: seq<nat>, ys: seq<nat>)
    decreases |ys|
  {
    xs == [] || (ys != [] && ((xs[0] == ys[0] && SubseqOf(xs[1..], ys[1..])) || SubseqOf(xs, ys[1..])))
  }

  /** The first element of a subsequence is taken at some position `j`, and the rest from
      after it. */
  lemma {:induction false} SubseqHead(xs: seq<nat>, ys: seq<nat>) returns (j: nat)
    requires xs != [] && SubseqOf(xs, ys)
    ensures j < |ys| && ys[j] == xs[0] && SubseqOf(xs[1..], ys[j + 1..])
    decreases |ys|
  {
    if xs[0] == ys[0] && SubseqOf(xs[1..], ys[1..]) {
      j := 0;
    } else {
      var k := SubseqHead(xs, ys[1..]);
      j := k + 1;
      assert ys[1..][k + 1..] == ys[j + 1..];
    }
  }

  lemma {:induction false} SubseqLength(xs: seq<nat>, ys: seq<nat>)
    requires SubseqOf(xs, ys)
    ensures |xs| <= |ys|
    decreases |ys|
  {
    if xs != [] {
      if xs[0] == ys[0] && SubseqOf(xs[1..], ys[1..]) {
        SubseqLength(xs[1..], ys[1..]);
      } else {
        SubseqLength(xs, ys[1..]);
      }
    }
  }

  /** Taking the first element of both and a subsequence of the rests. */
  lemma SubseqTake(xs: seq<nat>, ys: seq<nat>)
    requires xs != [] && ys != [] && xs[0] == ys[0] && SubseqOf(xs[1..], ys[1..])
    ensures SubseqOf(xs, ys)
  {
  }

  /** A subsequence of a suffix is a subsequence of any longer suffix. */
  lemma {:induction false} SubseqSuffix(xs: seq<nat>, ys: seq<nat>, i: nat, j: nat)
    requires i <= j <= |ys| && SubseqOf(xs, ys[j..])
    ensures SubseqOf(xs, ys[i..])
    decreases j - i
  {
    if i < j {
      assert ys[j - 1..][1..] == ys[j..];
      assert SubseqOf(xs, ys[j - 1..]);
      SubseqSuffix(xs, ys, i, j - 1);
    }
  }

  /** Conversely, an element taken at position `j` followed by a subsequence of what comes
      after it is a subsequence. */
  lemma SubseqAt(xs: seq<nat>, ys: seq<nat>, j: nat)
    requires xs != [] && j < |ys| && ys[j] == xs[0] && SubseqOf(xs[1..], ys[j + 1..])
    ensures SubseqOf(xs, ys)
  {
    assert ys[j..][1..] == ys[j + 1..];
    SubseqTake(xs, ys[j..]);
    SubseqDrop(xs, ys, j);
  }

  /** A subsequence of a suffix is a subsequence of the whole. */
  lemma SubseqDrop(xs: seq<nat>, ys: seq<nat>, j: nat)
    requires j <= |ys| && SubseqOf(xs, ys[j..])
    ensures SubseqOf(xs, ys)
  {
    SubseqSuffix(xs, ys, 0, j);
    assert ys[0..] == ys;
  }

  lemma {:induction false} SubseqDigits(xs: seq<nat>, ys: seq<nat>)
    requires SubseqOf(xs, ys) && AllDigitValues(ys)
    ensures AllDigitValues(xs)
    decreases |ys|
  {
    if xs != [] {
      var j := SubseqHead(xs, ys);
      assert AllDigitValues(ys[j + 1..]);
      SubseqDigits(xs[1..], ys[j + 1..]);
      assert forall i :: 1 <= i < |xs| ==> xs[i] == xs[1..][i - 1];
    }
  }

  /** Lexicographic order on digit lists of one length, which for numbers of one length is
      the numeric order. */
  predicate LexLe(xs: seq<nat>, ys: seq<nat>)
    requires |xs| == |ys|
  {
    xs == [] || xs[0] < ys[0] || (xs[0] == ys[0] && LexLe(xs[1..], ys[1..]))
  }

  /** The order decided by the first elements, or by the rests when those are equal. */
  lemma LexLeCons(xs: seq<nat>, ys: seq<nat>)
    requires |xs| == |ys| > 0
    requires xs[0] < ys[0] || (xs[0] == ys[0] && LexLe(xs[1..], ys[1..]))
    ensures LexLe(xs, ys)
  {
  }

  /*** The greedy choice ***/

  /** Where `findHighestJoltage` takes its next digit: the first position of the largest
      digit among all but the last `slots - 1`. */
  function FirstIndex(parts: seq<nat>, slots: nat): (r: nat)
    requires 2 <= slots <= |parts|
    ensures r <= |parts| - slots
    ensures forall k :: 0 <= k <= |parts| - slots ==> parts[k] <= parts[r]
    ensures forall k :: 0 <= k < r ==> parts[k] != parts[r]
  {
    var candidates := parts[..|parts| - (slots - 1)];
    var index := IndexOf(candidates, MaxBy(candidates));
    assert forall k :: 0 <= k < |candidates| ==> candidates[k] == parts[k];
    index
  }

  /** The greedy choice on digit values: the largest digit that leaves `slots - 1` digits
      after it, then the choice from after its first occurrence. */
  function Greedy(parts: seq<nat>, slots: nat): (r: seq<nat>)
    requires 1 <= slots <= |parts|
    ensures |r| == slots
    decreases slots
  {
    if slots == 1 then [MaxBy(parts)]
    else
      var index := FirstIndex(parts, slots);
      [parts[index]] + Greedy(parts[index + 1..], slots - 1)
  }

  /** The largest digit that leaves `slots - 1` digits after it, followed by the digits of a
      greedy choice from after it, is the greedy choice. */
  lemma ConsGreedy(parts: seq<nat>, slots: nat, max: nat, index: nat, tail: string)
    requires 2 <= slots <= |parts| && AllDigitValues(parts)
    requires max == MaxBy(parts[..|parts| - (slots - 1)])
    requires index == IndexOf(parts[..|parts| - (slots - 1)], max)
    requires AllDigits(tail) && ParseLineToNumbers(tail) == Greedy(parts[index + 1..], slots - 1)
    ensures max < 10 && ParseLineToNumbers([DigitChar(max)] + tail) == Greedy(parts, slots)
  {
    var rest := Greedy(parts[index + 1..], slots - 1);
    assert parts[..|parts| - (slots - 1)][index] == parts[index];
    assert FirstIndex(parts, slots) == index;
    assert Greedy(parts, slots) == [max] + rest;
    ParseCons(DigitChar(max), tail);
  }

  /** Parsing a line with one more character in front. */
  lemma ParseCons(c: char, line: string)
    requires IsDigit(c) && AllDigits(line)
    ensures AllDigits([c] + line)
    ensures ParseLineToNumbers([c] + line) == [(c - '0') as nat] + ParseLineToNumbers(line)
  {
    var s := [c] + line;
    assert forall i :: 0 <= i < |line| ==> s[i + 1] == line[i];
  }

  /** With one slot, the greedy digit is a subsequence of the bank. */
  lemma GreedyOneIsSubsequence(parts: seq<nat>)
    requires 1 <= |parts|
    ensures SubseqOf(Greedy(parts, 1), parts)
  {
    var g := Greedy(parts, 1);
    assert g[1..] == [];
    SubseqAt(g, parts, IndexOf(parts, MaxBy(parts)));
  }

  /** The digit taken at `FirstIndex`, followed by the greedy digits of what comes after it,
      is a subsequence of the bank. */
  lemma {:induction false} GreedyStepIsSubsequence(parts: seq<nat>, slots: nat)
    requires 2 <= slots <= |parts|
    ensures SubseqOf(Greedy(parts, slots), parts)
    decreases slots, 0
  {
    var index := FirstIndex(parts, slots);
    var g := Greedy(parts, slots);
    GreedyIsSubsequence(parts[index + 1..], slots - 1);
    assert g[1..] == Greedy(parts[index + 1..], slots - 1);
    SubseqAt(g, parts, index);
  }

  /** The greedy digits are a subsequence of the bank. */
  lemma {:induction false} GreedyIsSubsequence(parts: seq<nat>, slots: nat)
    requires 1 <= slots <= |parts|
    ensures SubseqOf(Greedy(parts, slots), parts)
    decreases slots, 1
  {
    if slots == 1 {
      GreedyOneIsSubsequence(parts);
    } else {
      GreedyStepIsSubsequence(parts, slots);
    }
  }

  /** The chosen digits are a subsequence of the bank. */
  lemma ChosenIsSubsequence(parts: seq<nat>, slots: nat)
    requires 1 <= slots <= |parts| && AllDigitValues(parts)
    ensures SubseqOf(ParseLineToNumbers(FindHighestJoltage(parts, slots)), parts)
  {
    GreedyIsSubsequence(parts, slots);
  }

  /** A subsequence of `slots` digits starts with at most the first digit chosen, and when it
      starts with that digit, the rest of it is read off the digits after the chosen one. */
  lemma FirstPick(parts: seq<nat>, slots: nat, xs: seq<nat>)
    requires 2 <= slots <= |parts|
    requires |xs| == slots && SubseqOf(xs, parts)
    ensures var index := FirstIndex(parts, slots);
      && xs[0] <= parts[index]
      && (xs[0] == parts[index] ==> SubseqOf(xs[1..], parts[index + 1..]))
  {
    var j := SubseqHead(xs, parts);
    var index := FirstIndex(parts, slots);
    SubseqLength(xs[1..], parts[j + 1..]);
    assert j <= |parts| - slots;
    if xs[0] == parts[index] {
      assert index <= j;
      var rest := parts[index + 1..];
      assert rest[j - index..] == parts[j + 1..];
      SubseqDrop(xs[1..], rest, j - index);
    }
  }

  /** With one slot, every single digit of the bank is at most the chosen one. */
  lemma OnePick(parts: seq<nat>, xs: seq<nat>)
    requires 1 <= |parts|
    requires |xs| == 1 && SubseqOf(xs, parts)
    ensures LexLe(xs, Greedy(parts, 1))
  {
    var j := SubseqHead(xs, parts);
    assert xs[1..] == [] == Greedy(parts, 1)[1..];
  }

  /** A subsequence of `slots` digits is no higher than the greedy choice: its first digit is
      at most the greedy one, and when the two are equal the rest of it is a subsequence of what
      follows the greedy digit, no higher than the greedy rest. */
  lemma {:induction false} GreedyStepIsHighest(parts: seq<nat>, slots: nat, xs: seq<nat>)
    requires 2 <= slots <= |parts|
    requires |xs| == slots && SubseqOf(xs, parts)
    ensures LexLe(xs, Greedy(parts, slots))
    decreases slots, 0
  {
    var index := FirstIndex(parts, slots);
    var g := Greedy(parts, slots);
    assert g[0] == parts[index] && g[1..] == Greedy(parts[index + 1..], slots - 1);
    FirstPick(parts, slots, xs);
    if xs[0] == parts[index] {
      GreedyIsHighest(parts[index + 1..], slots - 1, xs[1..]);
    }
    LexLeCons(xs, g);
  }

  /** No subsequence of `slots` digits comes after the greedy one in lexicographic order. */
  lemma {:induction false} GreedyIsHighest(parts: seq<nat>, slots: nat, xs: seq<nat>)
    requires 1 <= slots <= |parts|
    requires |xs| == slots && SubseqOf(xs, parts)
    ensures LexLe(xs, Greedy(parts, slots))
    decreases slots, 1
  {
    if slots == 1 {
      OnePick(parts, xs);
    } else {
      GreedyStepIsHighest(parts, slots, xs);
    }
  }

  /** No subsequence of `slots` digits comes after the chosen one in lexicographic order. */
  lemma ChosenIsHighest(parts: seq<nat>, slots: nat, xs: seq<nat>)
    requires 1 <= slots <= |parts| && AllDigitValues(parts)
    requires |xs| == slots && SubseqOf(xs, parts)
    ensures LexLe(xs, ParseLineToNumbers(FindHighestJoltage(parts, slots)))
  {
    GreedyIsHighest(parts, slots, xs);
  }

  /*** Joltage values ***/

  /** The number whose decimal digits, most significant first, are `xs`. */
  function Joltage(xs: seq<nat>): nat
  {
    if xs == [] then 0 else Joltage(xs[..|xs| - 1]) * 10 + xs[|xs| - 1]
  }

  function Pow10(k: nat): (r: nat)
    ensures r >= 1
  {
    if k == 0 then 1 else 10 * Pow10(k - 1)
  }

  /** `parseInt` of a string of digits is the number of its digits. */
  lemma {:induction false} ParsedJoltage(s: string)
    requires AllDigits(s)
    ensures DecimalValue(s) == Joltage(ParseLineToNumbers(s))
  {
    if s != [] {
      var init := s[..|s| - 1];
      ParsedJoltage(init);
      assert ParseLineToNumbers(s)[..|s| - 1] == ParseLineToNumbers(init);
    }
  }

  /** Splitting off the most significant digit. */
  lemma {:induction false} JoltageFront(xs: seq<nat>)
    requires xs != []
    ensures Joltage(xs) == xs[0] * Pow10(|xs| - 1) + Joltage(xs[1..])
  {
    if |xs| == 1 {
      assert xs[..0] == [] && xs[1..] == [];
    } else {
      var init := xs[..|xs| - 1];
      JoltageFront(init);
      assert init[1..] == xs[1..][..|xs| - 2];
      var p, q := Pow10(|xs| - 2), Pow10(|xs| - 1);
      var a, b, last := xs[0], Joltage(init[1..]), xs[|xs| - 1];
      assert q == 10 * p;
      assert Joltage(init) == a * p + b;
      assert Joltage(xs[1..]) == b * 10 + last by {
        assert xs[1..][..|xs| - 2] == init[1..];
      }
      ShiftDigit(a, p, b);
      assert Joltage(xs) == (a * p + b) * 10 + last;
    }
  }

  /** Multiplying by ten shifts both the leading digit's place and the lower digits. */
  lemma ShiftDigit(a: int, p: int, b: int)
    ensures (a * p + b) * 10 == a * (10 * p) + b * 10
  {
  }

  lemma {:induction false} JoltageBound(xs: seq<nat>)
    requires AllDigitValues(xs)
    ensures Joltage(xs) < Pow10(|xs|)
  {
    if xs != [] {
      var init := xs[..|xs| - 1];
      JoltageBound(init);
      assert Joltage(init) * 10 <= (Pow10(|init|) - 1) * 10;
    }
  }

  /** A smaller leading digit gives a smaller number, whatever the lower digits. */
  lemma LeadingDigit(a: nat, b: nat, p: nat, x: nat, y: nat)
    requires a < b && x < p
    ensures a * p + x <= b * p + y
  {
    var k := b - a - 1;
    assert b == a + 1 + k;
    assert b * p == a * p + p + k * p;
    assert k * p >= 0;
  }

  /** For digit lists of one length, the lexicographic order is the order of the numbers. */
  lemma {:induction false} LexLeJoltage(xs: seq<nat>, ys: seq<nat>)
    requires |xs| == |ys| && AllDigitValues(xs) && AllDigitValues(ys) && LexLe(xs, ys)
    ensures Joltage(xs) <= Joltage(ys)
  {
    if xs != [] {
      JoltageFront(xs);
      JoltageFront(ys);
      var p := Pow10(|xs| - 1);
      if xs[0] < ys[0] {
        JoltageBound(xs[1..]);
        LeadingDigit(xs[0], ys[0], p, Joltage(xs[1..]), Joltage(ys[1..]));
      } else {
        LexLeJoltage(xs[1..], ys[1..]);
      }
    }
  }

  /** The joltage the solver reads is the largest one any choice of `slots` batteries in order
      gives. */
  lemma HighestJoltage(parts: seq<nat>, slots: nat, xs: seq<nat>)
    requires 1 <= slots <= |parts| && AllDigitValues(parts)
    requires |xs| == slots && SubseqOf(xs, parts)
    ensures ParseInt(FindHighestJoltage(parts, slots)) == Some(Joltage(ParseLineToNumbers(FindHighestJoltage(parts, slots))))
    ensures Joltage(xs) <= Joltage(ParseLineToNumbers(FindHighestJoltage(parts, slots)))
  {
    var r := FindHighestJoltage(parts, slots);
    ParsedJoltage(r);
    SubseqDigits(xs, parts);
    ChosenIsHighest(parts, slots, xs);
    LexLeJoltage(xs, ParseLineToNumbers(r));
  }

  /** With one slot the solver reads the largest battery. */
  lemma OneSlotIsMaximum(parts: seq<nat>)
    requires 1 <= |parts| && AllDigitValues(parts)
    ensures ParseInt(FindHighestJoltage(parts, 1)) == Some(MaxBy(parts))
  {
    DigitString(MaxBy(parts));
    assert DecimalString(MaxBy(parts))[..0] == [];
  }

  /*** The sum over all banks ***/

  /** Every bank is a line of digits with at least `batteries` of them. */
  predicate Banks(data: seq<string>, batteries: nat)
  {
    forall i :: 0 <= i < |data| ==> AllDigits(data[i]) && batteries <= |data[i]|
  }

  /** The joltage of one bank, as `parseInt(findHighestJoltage(...))` reads it. */
  function BankJoltage(line: string, batteries: nat): (r: nat)
    requires AllDigits(line) && 1 <= batteries <= |line|
    ensures forall xs :: |xs| == batteries && SubseqOf(xs, ParseLineToNumbers(line)) ==> Joltage(xs) <= r
  {
    var parts := ParseLineToNumbers(line);
    var joltage := FindHighestJoltage(parts, batteries);
    forall xs | |xs| == batteries && SubseqOf(xs, parts)
      ensures Joltage(xs) <= ParseInt(joltage).value
    {
      HighestJoltage(parts, batteries, xs);
    }
    ParseInt(joltage).value
  }

  /** `calculateJoltageData`: the sum of the joltages of the banks. */
  function CalculateJoltageData(data: seq<string>, batteries: nat): (r: nat)
    requires 1 <= batteries && Banks(data, batteries)
  {
    if data == [] then 0
    else CalculateJoltageData(data[..|data| - 1], batteries) + BankJoltage(data[|data| - 1], batteries)
  }

  /** A choice of `batteries` batteries in order from every bank. */
  predicate Choice(data: seq<string>, batteries: nat, picks: seq<seq<nat>>)
    requires Banks(data, batteries)
  {
    |picks| == |data| &&
    forall i :: 0 <= i < |data| ==> |picks[i]| == batteries && SubseqOf(picks[i], ParseLineToNumbers(data[i]))
  }

  function TotalJoltage(picks: seq<seq<nat>>): nat
  {
    if picks == [] then 0 else TotalJoltage(picks[..|picks| - 1]) + Joltage(picks[|picks| - 1])
  }

  /** No choice of batteries gives a larger total than the solver's. */
  lemma {:induction false} CalculateJoltageDataIsHighest(data: seq<string>, batteries: nat, picks: seq<seq<nat>>)
    requires 1 <= batteries && Banks(data, batteries) && Choice(data, batteries, picks)
    ensures TotalJoltage(picks) <= CalculateJoltageData(data, batteries)
  {
    if data != [] {
      var n := |data| - 1;
      var init := data[..n];
      BanksPrefix(data, batteries, n);
      assert Choice(init, batteries, picks[..n]) by {
        forall i | 0 <= i < n ensures |picks[..n][i]| == batteries && SubseqOf(picks[..n][i], ParseLineToNumbers(init[i])) {
          assert init[i] == data[i] && picks[..n][i] == picks[i];
        }
      }
      CalculateJoltageDataIsHighest(init, batteries, picks[..n]);
    }
  }

  /** The batteries the solver turns on in one bank, as digit values. */
  function Pick(line: string, batteries: nat): (r: seq<nat>)
    requires AllDigits(line) && 1 <= batteries <= |line|
    ensures |r| == batteries && SubseqOf(r, ParseLineToNumbers(line))
    ensures Joltage(r) == BankJoltage(line, batteries)
  {
    var parts := ParseLineToNumbers(line);
    var joltage := FindHighestJoltage(parts, batteries);
    ChosenIsSubsequence(parts, batteries);
    ParsedJoltage(joltage);
    ParseLineToNumbers(joltage)
  }

  /** The solver's picks, bank by bank. */
  function Picks(data: seq<string>, batteries: nat): (r: seq<seq<nat>>)
    requires 1 <= batteries && Banks(data, batteries)
    ensures |r| == |data| && forall i :: 0 <= i < |data| ==> r[i] == Pick(data[i], batteries)
  {
    seq(|data|, i requires 0 <= i < |data| => Pick(data[i], batteries))
  }

  lemma BanksPrefix(data: seq<string>, batteries: nat, n: nat)
    requires Banks(data, batteries) && n <= |data|
    ensures Banks(data[..n], batteries)
  {
    forall i | 0 <= i < n ensures AllDigits(data[..n][i]) && batteries <= |data[..n][i]| {
      assert data[..n][i] == data[i];
    }
  }

  /** The solver's own choice is a choice of batteries, and it reaches its total. */
  lemma {:induction false} CalculateJoltageDataIsReached(data: seq<string>, batteries: nat)
    requires 1 <= batteries && Banks(data, batteries)
    ensures Choice(data, batteries, Picks(data, batteries))
    ensures TotalJoltage(Picks(data, batteries)) == CalculateJoltageData(data, batteries)
  {
    var picks := Picks(data, batteries);
    if data != [] {
      var n := |data| - 1;
      var init := data[..n];
      BanksPrefix(data, batteries, n);
      CalculateJoltageDataIsReached(init, batteries);
      assert picks[..n] == Picks(init, batteries);
    }
  }

  /** `part1`: two batteries per bank. */
  function Part1(data: seq<string>): (r: nat)
    requires Banks(data, 2)
    ensures Choice(data, 2, Picks(data, 2)) && r == TotalJoltage(Picks(data, 2))
    ensures forall picks :: Choice(data, 2, picks) ==> TotalJoltage(picks) <= r
  {
    CalculateJoltageDataIsReached(data, 2);
    forall picks | Choice(data, 2, picks) ensures TotalJoltage(picks) <= CalculateJoltageData(data, 2) {
      CalculateJoltageDataIsHighest(data, 2, picks);
    }
    CalculateJoltageData(data, 2)
  }

  /** `part2`: twelve batteries per bank. */
  function Part2(data: seq<string>): (r: nat)
    requires Banks(data, 12)
    ensures Choice(data, 12, Picks(data, 12)) && r == TotalJoltage(Picks(data, 12))
    ensures forall picks :: Choice(data, 12, picks) ==> TotalJoltage(picks) <= r
  {
    CalculateJoltageDataIsReached(data, 12);
    forall picks | Choice(data, 12, picks) ensures TotalJoltage(picks) <= CalculateJoltageData(data, 12) {
      CalculateJoltageDataIsHighest(data, 12, picks);
    }
    CalculateJoltageData(data, 12)
  }
}
