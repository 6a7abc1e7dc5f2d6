/** The trash compactor (day 6): a worksheet of problems laid out in columns, the numbers of
    each problem stacked above its operator ('*' or '+'). Part 1 reads the columns as
    space-separated fields; the cephalopod reading reads each number down a column of
    characters, the problems separated by columns of blanks. */
module Compactor {
  import opened Common
  import opened Text

  /*** transpose ***/

  /** `transpose`: a `reduce` that, for each row in turn, appends its i-th value to the i-th
      column built so far; the columns are as many as the last row is long. */
  function Transpose<T>(grid: seq<seq<T>>): (r: seq<seq<T>>)
    ensures grid != [] ==> |r| == |grid[|grid| - 1]|
  {
    if grid == [] then []
    else
      var acc := Transpose(grid[..|grid| - 1]);
      var row := grid[|grid| - 1];
      seq(|row|, i requires 0 <= i < |row| => (if i < |acc| then acc[i] else []) + [row[i]])
  }

  /** Every row has `width` elements. */
  predicate Rectangular<T>(grid: seq<seq<T>>, width: nat)
  {
    forall j :: 0 <= j < |grid| ==> |grid[j]| == width
  }

  /** On a rectangular grid, `transpose` swaps rows and columns. */
  lemma {:induction false} TransposeRectangular<T>(grid: seq<seq<T>>, width: nat)
    requires grid != [] && Rectangular(grid, width)
    ensures |Transpose(grid)| == width && Rectangular(Transpose(grid), |grid|)
    ensures forall i, j :: 0 <= i < width && 0 <= j < |grid| ==> Transpose(grid)[i][j] == grid[j][i]
  {
    var init := grid[..|grid| - 1];
    if init != [] {
      TransposeRectangular(init, width);
    }
  }

  /** Transposing a rectangular grid with at least one column twice gives it back. */
  lemma TransposeTwice<T>(grid: seq<seq<T>>, width: nat)
    requires grid != [] && width >= 1 && Rectangular(grid, width)
    ensures Transpose(Transpose(grid)) == grid
  {
    TransposeRectangular(grid, width);
    var t := Transpose(grid);
    TransposeRectangular(t, |grid|);
    var tt := Transpose(t);
    forall j | 0 <= j < |grid| ensures tt[j] == grid[j] {
      assert |tt[j]| == width;
      forall i | 0 <= i < width ensures tt[j][i] == grid[j][i] {
        assert tt[j][i] == t[i][j];
      }
    }
  }

  /*** product, sum and performOperation ***/

  /** `product`: `reduce((a, b) => a * b, 1)`. */
  function Product(xs: seq<int>): int
  {
    if xs == [] then 1 else Product(xs[..|xs| - 1]) * xs[|xs| - 1]
  }

  /** The product of a concatenation is the product of the products. */
  lemma {:induction false} ProductAppend(xs: seq<int>, ys: seq<int>)
    ensures Product(xs + ys) == Product(xs) * Product(ys)
    decreases |ys|
  {
    if ys == [] {
      assert xs + ys == xs;
    } else {
      var init, last := ys[..|ys| - 1], ys[|ys| - 1];
      assert (xs + ys)[..|xs + ys| - 1] == xs + init;
      ProductAppend(xs, init);
      calc {
        Product(xs + ys);
        Product(xs + init) * last;
        (Product(xs) * Product(init)) * last;
        Product(xs) * (Product(init) * last);
        Product(xs) * Product(ys);
      }
    }
  }

  /** A product does not depend on the order of its factors. */
  lemma {:induction false} ProductReverse(xs: seq<int>)
    ensures Product(Reverse(xs)) == Product(xs)
  {
    if xs != [] {
      ProductReverse(xs[1..]);
      ProductAppend(Reverse(xs[1..]), [xs[0]]);
      ProductAppend([xs[0]], xs[1..]);
      assert [xs[0]] + xs[1..] == xs;
      assert Product([xs[0]]) == xs[0] by {
        assert [xs[0]][..0] == [];
      }
    }
  }

  /** `performOperation`: the product for "*", the sum for "+", and an error otherwise. */
  function PerformOperation(operation: string, numbers: seq<int>): (r: Result<int>)
    ensures r.Ok? <==> operation == "*" || operation == "+"
  {
    if operation == "*" then Ok(Product(numbers))
    else if operation == "+" then Ok(Sum(numbers))
    else Err("Fel")
  }

  /** The numbers of a problem may be taken in either order. */
  lemma PerformOperationReverse(operation: string, numbers: seq<int>)
    ensures PerformOperation(operation, Reverse(numbers)) == PerformOperation(operation, numbers)
  {
    ProductReverse(numbers);
    SumReverse(numbers);
  }

  /*** getOperation ***/

  /** `s` without its '-' characters. */
  function NonDash(s: string): (r: string)
    ensures '-' !in r && |r| <= |s|
  {
    if s == [] then "" else (if s[0] == '-' then "" else [s[0]]) + NonDash(s[1..])
  }

  /** `filter((item) => item !== "-")` on one-character pieces. */
  function WithoutDashes(pieces: seq<string>): (r: seq<string>)
    ensures forall i :: 0 <= i < |r| ==> r[i] != "-"
  {
    if pieces == [] then [] else (if pieces[0] == "-" then [] else [pieces[0]]) + WithoutDashes(pieces[1..])
  }

  /** `getOperation`: the characters of the first item other than '-', joined with the
      default separator ','. */
  function GetOperation(items: seq<string>): (r: string)
  {
    var first := if items == [] then "" else items[0];
    Join(WithoutDashes(Chars(first)), ',')
  }

  lemma {:induction false} WithoutDashesChars(s: string)
    ensures WithoutDashes(Chars(s)) == Chars(NonDash(s))
  {
    if s != [] {
      assert Chars(s) == [[s[0]]] + Chars(s[1..]);
      assert Chars(s)[1..] == Chars(s[1..]);
      WithoutDashesChars(s[1..]);
      if s[0] != '-' {
        assert Chars(NonDash(s)) == [[s[0]]] + Chars(NonDash(s[1..]));
      }
    }
  }

  /** Joining `n` one-character pieces with ',' gives `2n - 1` characters. */
  lemma {:induction false} JoinCharsLength(s: string)
    requires s != []
    ensures |Join(Chars(s), ',')| == 2 * |s| - 1
    ensures Join(Chars(s), ',')[0] == s[0]
  {
    if |s| > 1 {
      assert Chars(s)[1..] == Chars(s[1..]);
      JoinCharsLength(s[1..]);
    }
  }

  /** The operation is the single character `c` exactly when the first item, without its
      dashes, is `c`. */
  lemma GetOperationSymbol(items: seq<string>, c: char)
    requires items != []
    ensures GetOperation(items) == [c] <==> NonDash(items[0]) == [c]
  {
    var s := NonDash(items[0]);
    WithoutDashesChars(items[0]);
    if s != [] {
      JoinCharsLength(s);
    }
  }

  /*** part1 ***/

  /** `filter((item) => item !== "")`. */
  function NonEmpty(pieces: seq<string>): (r: seq<string>)
    ensures forall i :: 0 <= i < |r| ==> r[i] != "" && r[i] in pieces
  {
    if pieces == [] then []
    else
      var rest := NonEmpty(pieces[1..]);
      (if pieces[0] == "" then [] else [pieces[0]]) + rest
  }

  /** The space-separated fields of a line. */
  function Fields(line: string): (r: seq<string>)
    ensures forall i :: 0 <= i < |r| ==> r[i] != "" && ' ' !in r[i]
  {
    NonEmpty(Split(line, ' '))
  }

  /** The fields of every line. */
  function FieldGrid(data: seq<string>): (r: seq<seq<string>>)
    ensures |r| == |data|
  {
    seq(|data|, j requires 0 <= j < |data| => Fields(data[j]))
  }

  /** A worksheet part 1 can read: every line has as many fields as the first, and all fields
      but those of the last line (the operators) are numbers. */
  predicate Worksheet(data: seq<string>)
  {
    && |data| >= 1
    && Rectangular(FieldGrid(data), |Fields(data[0])|)
    && forall j, c :: 0 <= j < |data| - 1 && 0 <= c < |Fields(data[j])| ==> AllDigits(Fields(data[j])[c])
  }

  /** All items of a column but its last read as numbers. */
  predicate NumbersAbove(row: seq<string>)
  {
    forall k :: 0 <= k < |row| - 1 ==> ParseInt(row[k]).Some?
  }

  /** The reducer of `part1` on one transposed row: reversed, its first item is the operator
      and the rest are the numbers. */
  function ColumnResult(row: seq<string>): (r: Result<int>)
    requires NumbersAbove(row)
  {
    var items := Reverse(row);
    var operation := GetOperation(items);
    var rest := if items == [] then [] else items[1..];
    var nums := seq(|rest|, k requires 0 <= k < |rest| => ParseInt(rest[k]).value as int);
    PerformOperation(operation, nums)
  }

  /** The `reduce` of `part1`: the running total, or the error of the first column whose
      operator is neither '*' nor '+'. */
  function Part1Fold(rows: seq<seq<string>>): (r: Result<int>)
    requires forall i :: 0 <= i < |rows| ==> NumbersAbove(rows[i])
  {
    if rows == [] then Ok(0)
    else
      match Part1Fold(rows[..|rows| - 1])
      case Err(e) => Err(e)
      case Ok(acc) =>
        match ColumnResult(rows[|rows| - 1])
        case Err(e) => Err(e)
        case Ok(v) => Ok(acc + v)
  }

  /** The operator field of a problem is exactly '*' or '+'. */
  predicate IsOperator(field: string)
  {
    NonDash(field) == "*" || NonDash(field) == "+"
  }

  /** The problem in column `c` of the field grid, computed down the column: its operator
      applied to its numbers from top to bottom. */
  function ColumnValue(grid: seq<seq<string>>, c: nat): int
    requires |grid| >= 1 && Rectangular(grid, |grid[0]|) && c < |grid[0]|
    requires forall j :: 0 <= j < |grid| - 1 ==> AllDigits(grid[j][c])
  {
    var nums := seq(|grid| - 1, j requires 0 <= j < |grid| - 1 => DecimalValue(grid[j][c]) as int);
    if NonDash(grid[|grid| - 1][c]) == "*" then Product(nums) else Sum(nums)
  }

  /** One transposed row gives its column's problem, or the error. */
  lemma ColumnResultIsColumnValue(grid: seq<seq<string>>, c: nat, row: seq<string>)
    requires |grid| >= 1 && Rectangular(grid, |grid[0]|) && c < |grid[0]| && NumberFields(grid)
    requires |row| == |grid| && forall j :: 0 <= j < |grid| ==> row[j] == grid[j][c]
    ensures NumbersAbove(row)
    ensures ColumnResult(row) == if IsOperator(grid[|grid| - 1][c]) then Ok(ColumnValue(grid, c)) else Err("Fel")
  {
    var items := Reverse(row);
    var rest := items[1..];
    var nums := seq(|rest|, k requires 0 <= k < |rest| => ParseInt(rest[k]).value as int);
    var down := seq(|grid| - 1, j requires 0 <= j < |grid| - 1 => DecimalValue(grid[j][c]) as int);
    assert nums == Reverse(down);
    PerformOperationReverse(GetOperation(items), down);
    var op := grid[|grid| - 1][c];
    GetOperationSymbol(items, '*');
    GetOperationSymbol(items, '+');
  }

  /** Every field above the last row is a number. */
  predicate NumberFields(grid: seq<seq<string>>)
  {
    forall j, c :: 0 <= j < |grid| - 1 && 0 <= c < |grid[j]| ==> AllDigits(grid[j][c]) && grid[j][c] != ""
  }

  /** The first `n` operator fields are '*' or '+'. */
  predicate Operators(ops: seq<string>, n: nat)
    requires n <= |ops|
  {
    forall c :: 0 <= c < n ==> IsOperator(ops[c])
  }

  lemma OperatorsStep(ops: seq<string>, n: nat)
    requires 0 < n <= |ops|
    ensures Operators(ops, n) <==> Operators(ops, n - 1) && IsOperator(ops[n - 1])
  {
  }

  /** The sum of the problems in the first `n` columns. */
  function Total(grid: seq<seq<string>>, n: nat): int
    requires |grid| >= 1 && Rectangular(grid, |grid[0]|) && NumberFields(grid) && n <= |grid[0]|
  {
    if n == 0 then 0 else Total(grid, n - 1) + ColumnValue(grid, n - 1)
  }

  /** What column `c` of the field grid contributes: its problem, or the error. */
  function ColumnOutcome(grid: seq<seq<string>>, c: nat): Result<int>
    requires |grid| >= 1 && Rectangular(grid, |grid[0]|) && NumberFields(grid) && c < |grid[0]|
  {
    if IsOperator(grid[|grid| - 1][c]) then Ok(ColumnValue(grid, c)) else Err("Fel")
  }

  /** `t` holds the columns of the field grid as rows, each readable by the reducer. */
  predicate ColumnsOf(grid: seq<seq<string>>, t: seq<seq<string>>)
    requires |grid| >= 1 && Rectangular(grid, |grid[0]|) && NumberFields(grid)
  {
    && |t| == |grid[0]|
    && forall c :: 0 <= c < |t| ==> NumbersAbove(t[c]) && ColumnResult(t[c]) == ColumnOutcome(grid, c)
  }

  /** The rows of the transposed field grid are its columns, numbers above the operator. */
  lemma TransposedColumns(grid: seq<seq<string>>)
    requires |grid| >= 1 && Rectangular(grid, |grid[0]|) && NumberFields(grid)
    ensures ColumnsOf(grid, Transpose(grid))
  {
    TransposeRectangular(grid, |grid[0]|);
    var t := Transpose(grid);
    forall c | 0 <= c < |grid[0]|
      ensures NumbersAbove(t[c]) && ColumnResult(t[c]) == ColumnOutcome(grid, c)
    {
      ColumnResultIsColumnValue(grid, c, t[c]);
    }
  }

  /** One more column: the fold over `n` rows continues the fold over `n - 1`. */
  lemma Part1FoldStep(rows: seq<seq<string>>, n: nat)
    requires 0 < n <= |rows| && forall i :: 0 <= i < |rows| ==> NumbersAbove(rows[i])
    ensures Part1Fold(rows[..n]) ==
      if Part1Fold(rows[..n - 1]).Err? then Part1Fold(rows[..n - 1])
      else if ColumnResult(rows[n - 1]).Err? then ColumnResult(rows[n - 1])
      else Ok(Part1Fold(rows[..n - 1]).value + ColumnResult(rows[n - 1]).value)
  {
    assert rows[..n][..n - 1] == rows[..n - 1];
    assert rows[..n][n - 1] == rows[n - 1];
  }

  /** The fold over the first `n` columns of the transposed grid sums their problems. */
  lemma {:induction false} Part1FoldColumns(grid: seq<seq<string>>, t: seq<seq<string>>, n: nat)
    requires |grid| >= 1 && Rectangular(grid, |grid[0]|) && NumberFields(grid) && n <= |grid[0]|
    requires ColumnsOf(grid, t)
    ensures Part1Fold(t[..n]).Ok? <==> Operators(grid[|grid| - 1], n)
    ensures Part1Fold(t[..n]).Ok? ==> Part1Fold(t[..n]).value == Total(grid, n)
  {
    if n > 0 {
      Part1FoldColumns(grid, t, n - 1);
      Part1FoldStep(t, n);
      assert ColumnResult(t[n - 1]) == ColumnOutcome(grid, n - 1);
      OperatorsStep(grid[|grid| - 1], n);
    }
  }

  /** `part1`: the sum of every problem read down its column of fields; an error when some
      operator is neither '*' nor '+'. */
  function Part1(data: seq<string>): (r: Result<int>)
    requires Worksheet(data)
    ensures var grid := FieldGrid(data);
      && (r.Ok? <==> Operators(grid[|grid| - 1], |grid[0]|))
      && (r.Ok? ==> r.value == Total(grid, |grid[0]|))
  {
    var grid := FieldGrid(data);
    var transposed := Transpose(grid);
    TransposedColumns(grid);
    Part1FoldColumns(grid, transposed, |grid[0]|);
    assert transposed[..|grid[0]|] == transposed;
    Part1Fold(transposed)
  }

  /*** getSeparatorColumns ***/

  /** `Math.max(...lines.map((l) => l.length))`: the length of the longest line. */
  function MaxLength(lines: seq<string>): (r: nat)
    requires lines != []
    ensures forall i :: 0 <= i < |lines| ==> |lines[i]| <= r
    ensures exists i :: 0 <= i < |lines| && |lines[i]| == r
  {
    if |lines| == 1 then |lines[0]|
    else
      var init := lines[..|lines| - 1];
      var m := MaxLength(init);
      assert forall i :: 0 <= i < |init| ==> init[i] == lines[i];
      if |lines[|lines| - 1]| > m then |lines[|lines| - 1]| else m
  }

  /** `line[col] ?? " "`: a column past the end of a line reads as a blank. */
  function CharAt(line: string, col: nat): char
  {
    if col < |line| then line[col] else ' '
  }

  /** No line has a digit in column `col`. */
  predicate IsSeparator(lines: seq<string>, col: nat)
  {
    forall i :: 0 <= i < |lines| ==> !IsDigit(CharAt(lines[i], col))
  }

  predicate Increasing(cols: seq<nat>)
  {
    forall a, b :: 0 <= a < b < |cols| ==> cols[a] < cols[b]
  }

  /** The `filter` of `getSeparatorColumns` over the columns below `n`. */
  function SeparatorsBelow(lines: seq<string>, n: nat): (r: seq<nat>)
    ensures Increasing(r)
    ensures forall col: nat :: col in r <==> col < n && IsSeparator(lines, col)
  {
    if n == 0 then []
    else
      var init := SeparatorsBelow(lines, n - 1);
      assert forall a :: 0 <= a < |init| ==> init[a] < n - 1 by {
        forall a | 0 <= a < |init| ensures init[a] < n - 1 {
          assert init[a] in init;
        }
      }
      if IsSeparator(lines, n - 1) then init + [n - 1] else init
  }

  /** `getSeparatorColumns`: in ascending order, exactly the columns below the longest line's
      length in which no line has a digit. */
  function GetSeparatorColumns(lines: seq<string>): (r: seq<nat>)
    requires lines != []
    ensures Increasing(r)
    ensures forall col: nat :: col in r <==> col < MaxLength(lines) && IsSeparator(lines, col)
  {
    SeparatorsBelow(lines, MaxLength(lines))
  }

  /*** replaceSeparators ***/

  /** `line.padEnd(maxLen, " ")`. */
  function PadEnd(line: string, maxLen: nat): (r: string)
    ensures |r| == if |line| < maxLen then maxLen else |line|
    ensures forall i :: 0 <= i < |r| ==> r[i] == CharAt(line, i)
  {
    if |line| < maxLen then line + seq(maxLen - |line|, _ => ' ') else line
  }

  /** Every column of `cols` is below `maxLen`. */
  predicate Below(cols: seq<nat>, maxLen: nat)
  {
    forall k :: 0 <= k < |cols| ==> cols[k] < maxLen
  }

  /** The line padded to `maxLen` with `sep` written over each column of `cols` in turn: what
      the `forEach` of `replaceSeparators` leaves in `chars`. */
  function Stamped(line: string, maxLen: nat, cols: seq<nat>, sep: char): (r: string)
    requires |line| <= maxLen && Below(cols, maxLen)
    ensures |r| == maxLen
  {
    if cols == [] then PadEnd(line, maxLen)
    else Stamped(line, maxLen, cols[..|cols| - 1], sep)[cols[|cols| - 1] := sep]
  }

  /** Each column of the stamped line holds `sep` when it is one of `cols`, and otherwise the
      character of the line, a blank past its end. */
  lemma {:induction false} StampedCells(line: string, maxLen: nat, cols: seq<nat>, sep: char)
    requires |line| <= maxLen && Below(cols, maxLen)
    ensures forall i :: 0 <= i < maxLen ==>
      Stamped(line, maxLen, cols, sep)[i] == if i in cols then sep else CharAt(line, i)
  {
    if cols != [] {
      var init := cols[..|cols| - 1];
      StampedCells(line, maxLen, init, sep);
      assert cols == init + [cols[|cols| - 1]];
    }
  }

  /** Writing `c` at one position adds one occurrence of `c`, unless `c` was already there. */
  lemma {:induction false} OccurrencesUpdate(s: string, i: nat, c: char)
    requires i < |s|
    ensures Occurrences(s[i := c], c) == Occurrences(s, c) + (if s[i] == c then 0 else 1)
  {
    if i == 0 {
      assert s[i := c][1..] == s[1..];
    } else {
      assert s[i := c][1..] == s[1..][i - 1 := c];
      OccurrencesUpdate(s[1..], i - 1, c);
    }
  }

  lemma {:induction false} NoOccurrences(s: string, c: char)
    requires c !in s
    ensures Occurrences(s, c) == 0
  {
    if s != [] {
      assert s[0] in s;
      assert forall k :: 0 <= k < |s| - 1 ==> s[1..][k] == s[k + 1];
      NoOccurrences(s[1..], c);
    }
  }

  /** A line without `sep`, stamped at distinct columns, holds `sep` once per column. */
  lemma {:induction false} StampedOccurrences(line: string, maxLen: nat, cols: seq<nat>, sep: char)
    requires |line| <= maxLen && Below(cols, maxLen) && Increasing(cols)
    requires sep !in line && sep != ' '
    ensures Occurrences(Stamped(line, maxLen, cols, sep), sep) == |cols|
  {
    if cols == [] {
      var padded := PadEnd(line, maxLen);
      assert sep !in padded by {
        forall i | 0 <= i < |padded| ensures padded[i] != sep {
          if i < |line| {
            assert line[i] in line;
          }
        }
      }
      NoOccurrences(padded, sep);
    } else {
      var init, last := cols[..|cols| - 1], cols[|cols| - 1];
      StampedOccurrences(line, maxLen, init, sep);
      StampedCells(line, maxLen, init, sep);
      assert last !in init by {
        forall k | 0 <= k < |init| ensures init[k] != last {
          assert init[k] == cols[k];
        }
      }
      assert CharAt(line, last) != sep by {
        if last < |line| {
          assert line[last] in line;
        }
      }
      OccurrencesUpdate(Stamped(line, maxLen, init, sep), last, sep);
    }
  }

  /** One line of `replaceSeparators`: a fresh array of the padded characters, `sep` written
      at each column in turn. */
  method ReplaceLine(line: string, maxLen: nat, cols: seq<nat>, sep: char) returns (r: string)
    requires |line| <= maxLen && Below(cols, maxLen)
    ensures r == Stamped(line, maxLen, cols, sep)
  {
    var chars := new char[maxLen](i => if 0 <= i < |line| then line[i] else ' ');
    assert chars[..] == PadEnd(line, maxLen);
    for k := 0 to |cols|
      invariant chars[..] == Stamped(line, maxLen, cols[..k], sep)
    {
      assert cols[..k + 1][..k] == cols[..k];
      chars[cols[k]] := sep;
    }
    assert cols[..|cols|] == cols;
    r := chars[..];
  }

  /** `replaceSeparators`: every line padded to the longest line's length, with `sep` in each
      of the given columns. */
  method ReplaceSeparators(lines: seq<string>, cols: seq<nat>, sep: char) returns (r: seq<string>)
    requires lines != [] && Below(cols, MaxLength(lines))
    ensures |r| == |lines|
    ensures forall i :: 0 <= i < |lines| ==> r[i] == Stamped(lines[i], MaxLength(lines), cols, sep)
  {
    var maxLen := MaxLength(lines);
    r := [];
    for i := 0 to |lines|
      invariant |r| == i
      invariant forall j :: 0 <= j < i ==> r[j] == Stamped(lines[j], maxLen, cols, sep)
    {
      var line := ReplaceLine(lines[i], maxLen, cols, sep);
      r := r + [line];
    }
  }

  /** When no line holds 'x', the lines with 'x' at the separator columns all split into one
      field more than there are separator columns, so the grid handed to `transpose` is
      rectangular. */
  lemma SeparatedFields(lines: seq<string>)
    requires lines != [] && forall i :: 0 <= i < |lines| ==> 'x' !in lines[i]
    ensures var cols := GetSeparatorColumns(lines);
      Below(cols, MaxLength(lines)) &&
      forall i :: 0 <= i < |lines| ==> |Split(Stamped(lines[i], MaxLength(lines), cols, 'x'), 'x')| == |cols| + 1
  {
    var cols := GetSeparatorColumns(lines);
    var maxLen := MaxLength(lines);
    assert Below(cols, maxLen) by {
      forall k | 0 <= k < |cols| ensures cols[k] < maxLen {
        assert cols[k] in cols;
      }
    }
    forall i | 0 <= i < |lines|
      ensures |Split(Stamped(lines[i], maxLen, cols, 'x'), 'x')| == |cols| + 1
    {
      StampedOccurrences(lines[i], maxLen, cols, 'x');
      SplitLength(Stamped(lines[i], maxLen, cols, 'x'), 'x');
    }
  }

  /*** transposedNumbers and transposeAndArrangeNumbers ***/

  /** `transposedNumbers`: the characters of every item after the first, transposed. */
  function TransposedNumbers(items: seq<string>): seq<seq<string>>
  {
    var numbers := if items == [] then [] else items[1..];
    Transpose(seq(|numbers|, j requires 0 <= j < |numbers| => Chars(numbers[j])))
  }

  /** `join("")`. */
  function Concat(parts: seq<string>): string
  {
    if parts == [] then "" else parts[0] + Concat(parts[1..])
  }

  /** `transposeAndArrangeNumbers`: each transposed column without its '-' pieces, reversed,
      joined and read by `parseInt`. */
  function TransposeAndArrangeNumbers(items: seq<string>): (r: seq<Option<nat>>)
    ensures |r| == |TransposedNumbers(items)|
  {
    var transposed := TransposedNumbers(items);
    seq(|transposed|, k requires 0 <= k < |transposed| =>
      ParseInt(Concat(Reverse(WithoutDashes(transposed[k])))))
  }

  /** Column `k` of the numbers, read from the top down. */
  function ColumnChars(numbers: seq<string>, k: nat): (r: string)
    requires forall j :: 0 <= j < |numbers| ==> k < |numbers[j]|
    ensures |r| == |numbers| && forall j :: 0 <= j < |numbers| ==> r[j] == numbers[j][k]
  {
    seq(|numbers|, j requires 0 <= j < |numbers| => numbers[j][k])
  }

  lemma {:induction false} ConcatChars(s: string)
    ensures Concat(Chars(s)) == s
  {
    if s != [] {
      assert Chars(s)[1..] == Chars(s[1..]);
      ConcatChars(s[1..]);
    }
  }

  lemma {:induction false} NonDashAppend(s: string, t: string)
    ensures NonDash(s + t) == NonDash(s) + NonDash(t)
  {
    if s != [] {
      assert (s + t)[1..] == s[1..] + t;
      NonDashAppend(s[1..], t);
    } else {
      assert s + t == t;
    }
  }

  lemma {:induction false} NonDashReverse(s: string)
    ensures NonDash(Reverse(s)) == Reverse(NonDash(s))
  {
    if s != [] {
      NonDashReverse(s[1..]);
      assert Reverse(s) == Reverse(s[1..]) + [s[0]];
      NonDashAppend(Reverse(s[1..]), [s[0]]);
      assert NonDash([s[0]]) == if s[0] == '-' then "" else [s[0]];
      assert NonDash(s) == NonDash([s[0]]) + NonDash(s[1..]);
      ReverseAppend(NonDash([s[0]]), NonDash(s[1..]));
    }
  }

  lemma ReverseAppend(s: string, t: string)
    ensures Reverse(s + t) == Reverse(t) + Reverse(s)
  {
  }

  lemma ReverseReverse(s: string)
    ensures Reverse(Reverse(s)) == s
  {
  }

  lemma ReverseChars(s: string)
    ensures Reverse(Chars(s)) == Chars(Reverse(s))
  {
  }

  /** One transposed column, bottom up, reads as the digits of `down` without the padding. */
  lemma ArrangedColumn(column: seq<string>, down: string)
    requires column == Chars(Reverse(down))
    ensures ParseInt(Concat(Reverse(WithoutDashes(column)))) == ParseInt(NonDash(down))
  {
    var digits := NonDash(down);
    WithoutDashesChars(Reverse(down));
    NonDashReverse(down);
    var kept := WithoutDashes(column);
    assert kept == Chars(Reverse(digits));
    ReverseChars(Reverse(digits));
    ReverseReverse(digits);
    assert Reverse(kept) == Chars(digits);
    ConcatChars(digits);
  }

  /** Reversed as `part2` hands them over, the numbers above the operator transpose into their
      character columns read from the bottom up. */
  lemma TransposedColumnsUp(numbers: seq<string>, op: string, width: nat)
    requires numbers != [] && Rectangular(numbers, width)
    ensures var t := TransposedNumbers(Reverse(numbers + [op]));
      |t| == width &&
      forall k :: 0 <= k < width ==> t[k] == Chars(Reverse(ColumnChars(numbers, k)))
  {
    var items := Reverse(numbers + [op]);
    var m := |numbers|;
    var up := items[1..];
    assert |up| == m && forall j :: 0 <= j < m ==> up[j] == numbers[m - 1 - j];
    var grid := seq(|up|, j requires 0 <= j < |up| => Chars(up[j]));
    assert Rectangular(grid, width);
    TransposeRectangular(grid, width);
    var t := Transpose(grid);
    forall k | 0 <= k < width
      ensures t[k] == Chars(Reverse(ColumnChars(numbers, k)))
    {
      forall j | 0 <= j < m ensures t[k][j] == [up[j][k]] {
        assert t[k][j] == grid[j][k];
      }
      ColumnUp(numbers, width, up, t, k);
    }
  }

  /** One column of the transposed rows, which are the numbers bottom up. */
  lemma ColumnUp(numbers: seq<string>, width: nat, up: seq<string>, t: seq<seq<string>>, k: nat)
    requires Rectangular(numbers, width) && k < width && |up| == |numbers|
    requires forall j :: 0 <= j < |up| ==> up[j] == numbers[|numbers| - 1 - j]
    requires k < |t| && |t[k]| == |up|
    requires forall j :: 0 <= j < |up| ==> t[k][j] == [up[j][k]]
    ensures t[k] == Chars(Reverse(ColumnChars(numbers, k)))
  {
    var down := ColumnChars(numbers, k);
    forall j | 0 <= j < |up| ensures t[k][j] == Chars(Reverse(down))[j] {
      assert up[j][k] == down[|numbers| - 1 - j];
    }
  }

  /** The cephalopod reading of one problem: for a column of fields whose numbers (above the
      operator) all have `width` characters, reversed as `part2` hands it over,
      `transposeAndArrangeNumbers` reads the digits of each character column from the top
      down, skipping the '-' padding. */
  lemma ArrangedNumbersReadDown(numbers: seq<string>, op: string, width: nat)
    requires numbers != [] && Rectangular(numbers, width)
    ensures var r := TransposeAndArrangeNumbers(Reverse(numbers + [op]));
      |r| == width &&
      forall k :: 0 <= k < width ==> r[k] == ParseInt(NonDash(ColumnChars(numbers, k)))
  {
    var items := Reverse(numbers + [op]);
    TransposedColumnsUp(numbers, op, width);
    var t := TransposedNumbers(items);
    forall k | 0 <= k < width
      ensures TransposeAndArrangeNumbers(items)[k] == ParseInt(NonDash(ColumnChars(numbers, k)))
    {
      ArrangedColumn(t[k], ColumnChars(numbers, k));
    }
  }
}
