/** The JavaScript string operations the solvers parse their input with: `split` and `join`
    on a one-character separator, `split("")`, and the two number readers `Number` and
    `parseInt` restricted to unsigned decimal text. */
module Text {
  import opened Common

  /** `s.split(c)` for a one-character separator: the pieces between the occurrences of `c`. */
  function Split(s: string, c: char): (r: seq<string>)
    ensures |r| >= 1
    ensures forall i :: 0 <= i < |r| ==> c !in r[i]
  {
    if s == [] then [""]
    else
      var rest := Split(s[1..], c);
      if s[0] == c then [""] + rest else [[s[0]] + rest[0]] + rest[1..]
  }

  /** `parts.join(c)`. */
  function Join(parts: seq<string>, c: char): string
  {
    if parts == [] then ""
    else if |parts| == 1 then parts[0]
    else parts[0] + [c] + Join(parts[1..], c)
  }

  /** Joining the pieces of a split gives the string back. */
  lemma {:induction false} JoinSplit(s: string, c: char)
    ensures Join(Split(s, c), c) == s
  {
    if s != [] {
      var rest := Split(s[1..], c);
      JoinSplit(s[1..], c);
      if s[0] == c {
        assert Split(s, c)[1..] == rest;
      } else {
        var r := Split(s, c);
        if |rest| == 1 {
          assert r == [[s[0]] + rest[0]];
        } else {
          assert r[1..] == rest[1..];
          assert Join(rest, c) == rest[0] + [c] + Join(rest[1..], c);
        }
      }
    }
  }

  /** Splitting a join of separator-free pieces gives the pieces back. */
  lemma {:induction false} SplitJoin(parts: seq<string>, c: char)
    requires |parts| >= 1
    requires forall i :: 0 <= i < |parts| ==> c !in parts[i]
    ensures Split(Join(parts, c), c) == parts
    decreases |parts|, |parts[0]|
  {
    var p := parts[0];
    if p == [] {
      if |parts| > 1 {
        SplitJoin(parts[1..], c);
        assert Join(parts, c) == [c] + Join(parts[1..], c);
        assert ([c] + Join(parts[1..], c))[1..] == Join(parts[1..], c);
        assert [""] + parts[1..] == parts;
      }
    } else {
      var shorter := [p[1..]] + parts[1..];
      assert shorter[1..] == parts[1..];
      SplitJoin(shorter, c);
      var j := Join(parts, c);
      assert j == [p[0]] + Join(shorter, c) by {
        if |parts| > 1 {
          assert Join(shorter, c) == p[1..] + [c] + Join(parts[1..], c);
        }
      }
      assert j[1..] == Join(shorter, c);
      assert p[0] != c by { assert p[0] in p; }
      assert [p[0]] + p[1..] == p;
      assert [[p[0]] + p[1..]] + parts[1..] == parts;
    }
  }

  /** The number of occurrences of `c` in `s`. */
  function Occurrences(s: string, c: char): nat
  {
    if s == [] then 0 else (if s[0] == c then 1 else 0) + Occurrences(s[1..], c)
  }

  /** A split yields one piece more than there are separators. */
  lemma {:induction false} SplitLength(s: string, c: char)
    ensures |Split(s, c)| == Occurrences(s, c) + 1
  {
    if s != [] {
      SplitLength(s[1..], c);
    }
  }

  /** `s.split("")`: one single-character string per character. */
  function Chars(s: string): (r: seq<string>)
    ensures |r| == |s|
    ensures forall i :: 0 <= i < |r| ==> r[i] == [s[i]]
  {
    seq(|s|, i requires 0 <= i < |s| => [s[i]])
  }

  predicate IsDigit(ch: char)
  {
    '0' <= ch <= '9'
  }

  predicate AllDigits(s: string)
  {
    forall i :: 0 <= i < |s| ==> IsDigit(s[i])
  }

  /** The value of a string of decimal digits, most significant first. */
  function DecimalValue(s: string): nat
    requires AllDigits(s)
  {
    if s == [] then 0 else DecimalValue(s[..|s| - 1]) * 10 + (s[|s| - 1] - '0') as nat
  }

  /** `Number(s)` on text made only of decimal digits: the empty string reads as 0. Any other
      text is None here; JavaScript reads some of it as a number (blanks around the digits,
      a sign, a decimal point, an exponent, a `0x` prefix), but the inputs this models are
      digit pieces. */
  function Number(s: string): (r: Option<nat>)
    ensures r.Some? <==> AllDigits(s)
  {
    if AllDigits(s) then Some(DecimalValue(s)) else None
  }

  /** The longest prefix of `s` made of digits. */
  function DigitPrefix(s: string): (r: string)
    ensures |r| <= |s| && r == s[..|r|]
    ensures AllDigits(r)
    ensures |r| < |s| ==> !IsDigit(s[|r|])
  {
    if s == [] || !IsDigit(s[0]) then "" else [s[0]] + DigitPrefix(s[1..])
  }

  /** `parseInt(s)` on text without leading blanks, a sign or a `0x` prefix: the value of the
      leading digits, NaN (None) when there are none. */
  function ParseInt(s: string): (r: Option<nat>)
    ensures r.None? <==> (s == [] || !IsDigit(s[0]))
    ensures AllDigits(s) && s != [] ==> r == Some(DecimalValue(s))
  {
    var d := DigitPrefix(s);
    assert AllDigits(s) ==> d == s;
    if d == [] then None else Some(DecimalValue(d))
  }

  /** `n.toString()`: the decimal digits of `n`, with no leading zero. */
  function DecimalString(n: nat): (r: string)
    ensures r != [] && AllDigits(r)
    ensures DecimalValue(r) == n
  {
    var last := ['0' + (n % 10) as char];
    if n < 10 then last
    else
      var r := DecimalString(n / 10) + last;
      assert r[..|r| - 1] == DecimalString(n / 10);
      r
  }

  /** Joining at least one non-empty piece gives a non-empty string. */
  lemma JoinNonEmpty(parts: seq<string>, c: char)
    requires |parts| >= 1 && parts[0] != []
    ensures Join(parts, c) != []
  {
  }
}
