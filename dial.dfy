/** The secret entrance (day 2 in the repository, "Day 1" in its output): a dial with the
    positions 0 to 99 starts at 50 and is turned by a list of lines such as "L68" or "R14".
    Part 1 counts the lines after which the dial shows 0; part 2 counts every click that lands
    on 0, once by a closed form per line (`calcWraps`) and once click by click (`part2_2`).
    The reference for both is the unbounded position 50 + (the signed sum of the turns), which
    shows 0 exactly when it is a multiple of 100. */
module SecretEntrance {
  import opened Common
  import opened Text

  /** The positions on the dial. */
  const Ranges := 100

  /** A line the parser reads: a direction character followed by at least one digit. */
  predicate WellFormed(line: string)
  {
    |line| >= 2 && AllDigits(line[1..])
  }

  predicate AllWellFormed(lines: seq<string>)
  {
    forall i :: 0 <= i < |lines| ==> WellFormed(lines[i])
  }

  /** `parseInt(tail(line).join(""))`. */
  function Value(line: string): (r: nat)
    requires WellFormed(line)
    ensures ParseInt(line[1..]) == Some(r)
  {
    DecimalValue(line[1..])
  }

  predicate IsTurn(line: string)
  {
    |line| >= 1 && (line[0] == 'L' || line[0] == 'R')
  }

  predicate AllTurns(lines: seq<string>)
  {
    forall i :: 0 <= i < |lines| ==> IsTurn(lines[i])
  }

  /*** The reference: unbounded positions ***/

  /** The direction a line moves in: -1, +1, or 0 for a line that does not move the dial. */
  type DirectionOf = char -> int

  /** The direction as the TypeScript solver reads it: 'L' left, 'R' right, anything else
      not a turn. */
  function JsDirection(c: char): int
  {
    if c == 'L' then -1 else if c == 'R' then 1 else 0
  }

  /** `p` after `j` clicks in direction `d` from `pos`. */
  function Move(pos: int, d: int, j: nat): int
  {
    if d < 0 then pos - j else if d > 0 then pos + j else pos
  }

  /** The number of clicks a line makes. */
  function Clicks(line: string, dirOf: DirectionOf): nat
    requires WellFormed(line)
  {
    if dirOf(line[0]) == 0 then 0 else Value(line)
  }

  /** The signed sum of the turns. */
  function Net(lines: seq<string>, dirOf: DirectionOf): int
    requires AllWellFormed(lines)
  {
    if lines == [] then 0
    else
      var last := lines[|lines| - 1];
      Move(Net(lines[..|lines| - 1], dirOf), dirOf(last[0]), Clicks(last, dirOf))
  }

  /** How many of the first `n` clicks from `pos` in direction `d` land on a multiple of 100. */
  function StepZeros(pos: int, d: int, n: nat): nat
  {
    if n == 0 then 0 else StepZeros(pos, d, n - 1) + if Move(pos, d, n) % Ranges == 0 then 1 else 0
  }

  /** How many clicks of the whole list land on a multiple of 100, starting from `start`. */
  function UnitZeros(lines: seq<string>, start: int, dirOf: DirectionOf): nat
    requires AllWellFormed(lines)
  {
    if lines == [] then 0
    else
      var init, last := lines[..|lines| - 1], lines[|lines| - 1];
      UnitZeros(init, start, dirOf) + StepZeros(start + Net(init, dirOf), dirOf(last[0]), Clicks(last, dirOf))
  }

  /** How many lines end on a multiple of 100, starting from `start`. */
  function LineZeros(lines: seq<string>, start: int, dirOf: DirectionOf): nat
    requires AllWellFormed(lines)
  {
    if lines == [] then 0
    else LineZeros(lines[..|lines| - 1], start, dirOf) + if (start + Net(lines, dirOf)) % Ranges == 0 then 1 else 0
  }

  /*** Arithmetic ***/

  /** A remainder is unchanged by adding multiples of 100. */
  lemma ModShift(a: int, k: int)
    ensures (a + Ranges * k) % Ranges == a % Ranges
  {
    var q, r := a / Ranges, a % Ranges;
    assert a + Ranges * k == Ranges * (q + k) + r;
  }

  /** `x` and `y` differ by a multiple of 100. */
  predicate Congruent(x: int, y: int)
  {
    (x - y) % Ranges == 0
  }

  lemma CongruentMod(x: int, y: int)
    requires Congruent(x, y)
    ensures x % Ranges == y % Ranges
  {
    var k := (x - y) / Ranges;
    assert x == y + Ranges * k;
    ModShift(y, k);
  }

  lemma CongruentTrans(x: int, y: int, z: int)
    requires Congruent(x, y) && Congruent(y, z)
    ensures Congruent(x, z)
  {
    var a, b := (x - y) / Ranges, (y - z) / Ranges;
    assert x - z == Ranges * (a + b);
    ModShift(0, a + b);
  }

  /** A value strictly between -100 and 100 is zero exactly when a congruent value is a
      multiple of 100. */
  lemma CongruentZero(x: int, y: int)
    requires Congruent(x, y) && -Ranges < x < Ranges
    ensures x == 0 <==> y % Ranges == 0
  {
    CongruentMod(x, y);
  }

  /** Flooring division steps down by one exactly at a multiple of 100. */
  lemma DivStep(a: int)
    ensures a / Ranges == (a - 1) / Ranges + if a % Ranges == 0 then 1 else 0
  {
  }

  /** `(-v - 1) / 100` in terms of `v / 100`. */
  lemma NegDiv(v: int)
    requires v >= 0
    ensures (-v - 1) / Ranges == -(v / Ranges) - 1
  {
    var q, r := v / Ranges, v % Ranges;
    assert -v - 1 == Ranges * (-q - 1) + (Ranges - 1 - r);
  }

  /** Clicking right: the multiples of 100 in (pos, pos + n]. */
  lemma {:induction false} StepZerosRight(pos: int, n: nat)
    ensures StepZeros(pos, 1, n) == (pos + n) / Ranges - pos / Ranges
  {
    if n > 0 {
      StepZerosRight(pos, n - 1);
      DivStep(pos + n);
    }
  }

  /** Clicking left: the multiples of 100 in [pos - n, pos). */
  lemma {:induction false} StepZerosLeft(pos: int, n: nat)
    ensures StepZeros(pos, -1, n) == (pos - 1) / Ranges - (pos - n - 1) / Ranges
  {
    if n > 0 {
      StepZerosLeft(pos, n - 1);
      DivStep(pos - n);
    }
  }

  /** Clicks that land on zero depend only on the position modulo 100. */
  lemma {:induction false} StepZerosCongruent(pos: int, pos': int, d: int, n: nat)
    requires Congruent(pos, pos')
    ensures StepZeros(pos, d, n) == StepZeros(pos', d, n)
  {
    if n > 0 {
      StepZerosCongruent(pos, pos', d, n - 1);
      assert Congruent(Move(pos, d, n), Move(pos', d, n));
      CongruentMod(Move(pos, d, n), Move(pos', d, n));
    }
  }

  /*** turnDial and the wrapping ***/

  /** `turnDial`: the dial moved by the line, unwrapped; a line that is neither 'L' nor 'R'
      is an error. */
  function TurnDial(line: string, dial: int): (r: Result<int>)
    requires WellFormed(line)
    ensures r.Ok? <==> IsTurn(line)
    ensures line[0] == 'L' ==> r == Ok(dial - Value(line))
    ensures line[0] == 'R' ==> r == Ok(dial + Value(line))
  {
    match line[0]
    case 'L' => Ok(dial - Value(line))
    case 'R' => Ok(dial + Value(line))
    case _ => Err("Unexpected value in line " + line)
  }

  /** A turn moves the dial by the line's signed clicks. */
  lemma TurnDialMoves(line: string, dial: int)
    requires WellFormed(line) && IsTurn(line)
    ensures TurnDial(line, dial) == Ok(Move(dial, JsDirection(line[0]), Clicks(line, JsDirection)))
  {
  }

  /** JavaScript's `a % 100`: the remainder takes the sign of the dividend. */
  function JsRem(a: int): (r: int)
    ensures -Ranges < r < Ranges
    ensures a >= 0 ==> r >= 0
    ensures a <= 0 ==> r <= 0
    ensures Congruent(r, a)
  {
    if a >= 0 then
      CongruentRemainder(a);
      a % Ranges
    else
      var q, m := (-a) / Ranges, (-a) % Ranges;
      assert -m - a == Ranges * q;
      ModShift(0, q);
      -m
  }

  /** `((next % 100) + 100) % 100`. */
  function Wrap(next: int): (r: int)
    ensures 0 <= r < Ranges
    ensures r == next % Ranges
  {
    var once := JsRem(next);
    ModShift(once - next, 1);
    CongruentMod(once + Ranges, next);
    JsRem(once + Ranges)
  }

  /*** part1 ***/

  /** The `reduce` of `part1` over `lines`: the count so far and the wrapped dial, or the
      error the first bad line throws. */
  function Part1Fold(lines: seq<string>): (r: Result<(nat, int)>)
    requires AllWellFormed(lines)
    ensures r.Ok? <==> AllTurns(lines)
  {
    if lines == [] then Ok((0, 50))
    else
      var init, last := lines[..|lines| - 1], lines[|lines| - 1];
      assert AllTurns(lines) <==> AllTurns(init) && IsTurn(last);
      match Part1Fold(init)
      case Err(e) => Err(e)
      case Ok((acc, dial)) =>
        match TurnDial(last, dial)
        case Err(e) => Err(e)
        case Ok(next) =>
          var wrapped := Wrap(next);
          Ok((if wrapped == 0 then acc + 1 else acc, wrapped))
  }

  function Part1(lines: seq<string>): (r: Result<nat>)
    requires AllWellFormed(lines)
    ensures r.Ok? <==> AllTurns(lines)
  {
    match Part1Fold(lines)
    case Err(e) => Err(e)
    case Ok((acc, _)) => Ok(acc)
  }

  /** The lines before the last are well formed. */
  lemma InitWellFormed(lines: seq<string>)
    requires AllWellFormed(lines) && lines != []
    ensures AllWellFormed(lines[..|lines| - 1])
  {
    var init := lines[..|lines| - 1];
    forall i | 0 <= i < |init| ensures WellFormed(init[i]) {
      assert init[i] == lines[i];
    }
  }

  /** The last line of the lists these folds run over, after the lines before it. */
  lemma LastStep(lines: seq<string>, start: int, dirOf: DirectionOf)
    requires AllWellFormed(lines) && lines != []
    ensures AllWellFormed(lines[..|lines| - 1])
    ensures var init, last := lines[..|lines| - 1], lines[|lines| - 1];
      var pos, d, n := start + Net(init, dirOf), dirOf(last[0]), Clicks(last, dirOf);
      && start + Net(lines, dirOf) == Move(pos, d, n)
      && UnitZeros(lines, start, dirOf) - UnitZeros(init, start, dirOf) == StepZeros(pos, d, n)
      && LineZeros(lines, start, dirOf) - LineZeros(init, start, dirOf) == if Move(pos, d, n) % Ranges == 0 then 1 else 0
  {
    InitWellFormed(lines);
  }

  /** Turning the dial from the remainder of an unbounded position and wrapping gives the
      remainder of the moved position. */
  lemma WrapStep(line: string, pos: int)
    requires WellFormed(line) && IsTurn(line)
    ensures TurnDial(line, pos % Ranges).Ok?
    ensures Wrap(TurnDial(line, pos % Ranges).value) == Move(pos, JsDirection(line[0]), Clicks(line, JsDirection)) % Ranges
  {
    var dial := pos % Ranges;
    var d, n := JsDirection(line[0]), Clicks(line, JsDirection);
    CongruentRemainder(pos);
    TurnDialMoves(line, dial);
    assert Congruent(Move(dial, d, n), Move(pos, d, n));
    CongruentMod(Move(dial, d, n), Move(pos, d, n));
  }

  /** One more line of `part1`'s fold. */
  lemma Part1FoldLast(lines: seq<string>, acc: nat, dial: int)
    requires AllWellFormed(lines) && AllTurns(lines) && lines != []
    requires AllWellFormed(lines[..|lines| - 1])
    requires Part1Fold(lines[..|lines| - 1]) == Ok((acc, dial))
    ensures TurnDial(lines[|lines| - 1], dial).Ok?
    ensures var w := Wrap(TurnDial(lines[|lines| - 1], dial).value);
      Part1Fold(lines) == Ok((if w == 0 then acc + 1 else acc, w))
  {
    var w := Wrap(TurnDial(lines[|lines| - 1], dial).value);
    assert Part1Fold(lines).value.0 == if w == 0 then acc + 1 else acc;
    assert Part1Fold(lines).value.1 == w;
  }

  /** The fold keeps the wrapped position of the unbounded one and counts the lines that end
      on a multiple of 100. */
  lemma {:induction false} Part1FoldCounts(lines: seq<string>)
    requires AllWellFormed(lines) && AllTurns(lines)
    ensures Part1Fold(lines) == Ok((LineZeros(lines, 50, JsDirection), (50 + Net(lines, JsDirection)) % Ranges))
  {
    if lines != [] {
      var init, last := lines[..|lines| - 1], lines[|lines| - 1];
      AllTurnsInit(lines);
      Part1FoldCounts(init);
      var pos := 50 + Net(init, JsDirection);
      Part1FoldLast(lines, LineZeros(init, 50, JsDirection), pos % Ranges);
      WrapStep(last, pos);
      LastStep(lines, 50, JsDirection);
      assert Part1Fold(lines).value.0 == LineZeros(lines, 50, JsDirection);
      assert Part1Fold(lines).value.1 == (50 + Net(lines, JsDirection)) % Ranges;
    }
  }

  /** `part1` counts the lines after which the dial shows 0. */
  lemma Part1Counts(lines: seq<string>)
    requires AllWellFormed(lines) && AllTurns(lines)
    ensures Part1(lines) == Ok(LineZeros(lines, 50, JsDirection))
  {
    Part1FoldCounts(lines);
  }

  /*** part2: the closed form per line ***/

  /** `calcWraps` as written: for 'R', the passes over 0 when the turn goes beyond
      `100 - dial`; for 'L', those when it reaches `dial`. */
  function CalcWraps(line: string, dial: int): (r: Result<nat>)
    requires WellFormed(line)
    ensures r.Ok? <==> IsTurn(line)
    ensures line[0] == 'R' ==> (r == Ok(0) <==> Value(line) <= Ranges - dial)
    ensures line[0] == 'L' ==> (r == Ok(0) <==> Value(line) < dial)
  {
    var value := Value(line);
    match line[0]
    case 'R' => if value > Ranges - dial then Ok(1 + (value - (Ranges - dial)) / Ranges) else Ok(0)
    case 'L' => if value >= dial then Ok(1 + (value - dial) / Ranges) else Ok(0)
    case _ => Err("Unexpected value in line " + line)
  }

  /** The clicks of a line from `dial` that land on 0, in closed form: turning right, the
      multiples of 100 in (dial, dial + value]; turning left from 0, one per full turn;
      turning left from elsewhere, the first 0 after `dial` clicks and one per full turn
      after that. */
  function Wraps(line: string, dial: int): (r: Result<nat>)
    requires WellFormed(line) && 0 <= dial < Ranges
    ensures r.Ok? <==> IsTurn(line)
  {
    var value := Value(line);
    match line[0]
    case 'R' => Ok((dial + value) / Ranges)
    case 'L' => if dial == 0 then Ok(value / Ranges) else if value >= dial then Ok(1 + (value - dial) / Ranges) else Ok(0)
    case _ => Err("Unexpected value in line " + line)
  }

  /** Turning right from `dial`, the clicks that land on 0 are the multiples of 100 in
      (dial, dial + value]. */
  lemma RightZeros(dial: int, value: nat)
    requires 0 <= dial < Ranges
    ensures StepZeros(dial, 1, value) == (dial + value) / Ranges
  {
    StepZerosRight(dial, value);
  }

  /** Turning left from `dial`: one per full turn from 0, otherwise the first 0 after `dial`
      clicks and one per full turn after it. */
  lemma LeftZeros(dial: int, value: nat)
    requires 0 <= dial < Ranges
    ensures StepZeros(dial, -1, value) ==
      if dial == 0 then value / Ranges else if value >= dial then 1 + (value - dial) / Ranges else 0
  {
    StepZerosLeft(dial, value);
    if dial == 0 {
      NegDiv(value);
    } else if value >= dial {
      NegDiv(value - dial);
    }
  }

  /** The closed form counts exactly the clicks that land on 0. */
  lemma WrapsCountsClicks(line: string, dial: int)
    requires WellFormed(line) && IsTurn(line) && 0 <= dial < Ranges
    ensures Wraps(line, dial) == Ok(StepZeros(dial, JsDirection(line[0]), Value(line)))
  {
    if line[0] == 'R' {
      RightZeros(dial, Value(line));
    } else {
      LeftZeros(dial, Value(line));
    }
  }

  /** `calcWraps` counts one click too many when it turns left from 0, and one too few when
      a right turn ends exactly on 0; otherwise it counts the clicks that land on 0. */
  lemma CalcWrapsVsClicks(line: string, dial: int)
    requires WellFormed(line) && IsTurn(line) && 0 <= dial < Ranges
    ensures CalcWraps(line, dial).value as int ==
      StepZeros(dial, JsDirection(line[0]), Value(line))
      + (if line[0] == 'L' && dial == 0 then 1 else 0)
      - (if line[0] == 'R' && dial + Value(line) == Ranges then 1 else 0)
  {
    WrapsCountsClicks(line, dial);
  }

  /** The line "R50" turns 50 clicks. */
  lemma ValueR50()
    ensures WellFormed("R50") && Value("R50") == 50
  {
    assert DecimalValue("50") == 50 by {
      assert "50"[..1] == "5";
      assert "5"[..0] == "";
    }
    assert "R50"[1..] == "50";
  }

  /** The line "L5" turns 5 clicks. */
  lemma ValueL5()
    ensures WellFormed("L5") && Value("L5") == 5
  {
    assert DecimalValue("5") == 5 by {
      assert "5"[..0] == "";
    }
    assert "L5"[1..] == "5";
  }

  /** The two boundary cases: "R50" from 50 lands on 0 once, which `calcWraps` does not
      count; "L5" from 0 never lands on 0, yet `calcWraps` counts one. */
  lemma CalcWrapsBoundaryCases()
    ensures WellFormed("R50") && CalcWraps("R50", 50) == Ok(0) && StepZeros(50, 1, 50) == 1
    ensures WellFormed("L5") && CalcWraps("L5", 0) == Ok(1) && StepZeros(0, -1, 5) == 0
  {
    ValueR50();
    ValueL5();
    StepZerosRight(50, 50);
    StepZerosLeft(0, 5);
  }

  /** The `reduce` of `part2` as written: the `calcWraps` counts so far and the wrapped dial. */
  function Part2Fold(lines: seq<string>): (r: Result<(nat, int)>)
    requires AllWellFormed(lines)
    ensures r.Ok? <==> AllTurns(lines)
  {
    if lines == [] then Ok((0, 50))
    else
      var init, last := lines[..|lines| - 1], lines[|lines| - 1];
      assert AllTurns(lines) <==> AllTurns(init) && IsTurn(last);
      match Part2Fold(init)
      case Err(e) => Err(e)
      case Ok((acc, dial)) =>
        match CalcWraps(last, dial)
        case Err(e) => Err(e)
        case Ok(turnOver) =>
          var next := TurnDial(last, dial).value;
          Ok((acc + turnOver, Wrap(next)))
  }

  function Part2(lines: seq<string>): (r: Result<nat>)
    requires AllWellFormed(lines)
    ensures r.Ok? <==> AllTurns(lines)
  {
    match Part2Fold(lines)
    case Err(e) => Err(e)
    case Ok((acc, _)) => Ok(acc)
  }

  /** On the single line "R50", `part2` as written answers 0 although one click lands on 0. */
  lemma Part2MissesBoundary()
    ensures AllWellFormed(["R50"]) && Part2(["R50"]) == Ok(0) && UnitZeros(["R50"], 50, JsDirection) == 1
  {
    CalcWrapsBoundaryCases();
    var lines := ["R50"];
    assert lines[..0] == [];
    assert Part2Fold(lines[..0]) == Ok((0, 50));
  }

  /** The `reduce` of `part2` with the corrected closed form. */
  function Part2FixedFold(lines: seq<string>): (r: Result<(nat, int)>)
    requires AllWellFormed(lines)
    ensures r.Ok? <==> AllTurns(lines)
    ensures r.Ok? ==> 0 <= r.value.1 < Ranges
  {
    if lines == [] then Ok((0, 50))
    else
      var init, last := lines[..|lines| - 1], lines[|lines| - 1];
      assert AllTurns(lines) <==> AllTurns(init) && IsTurn(last);
      match Part2FixedFold(init)
      case Err(e) => Err(e)
      case Ok((acc, dial)) =>
        match Wraps(last, dial)
        case Err(e) => Err(e)
        case Ok(turnOver) =>
          var next := TurnDial(last, dial).value;
          Ok((acc + turnOver, Wrap(next)))
  }

  function Part2Fixed(lines: seq<string>): (r: Result<nat>)
    requires AllWellFormed(lines)
    ensures r.Ok? <==> AllTurns(lines)
  {
    match Part2FixedFold(lines)
    case Err(e) => Err(e)
    case Ok((acc, _)) => Ok(acc)
  }

  lemma AllTurnsInit(lines: seq<string>)
    requires lines != [] && AllWellFormed(lines) && AllTurns(lines)
    ensures AllWellFormed(lines[..|lines| - 1]) && AllTurns(lines[..|lines| - 1])
  {
    var init := lines[..|lines| - 1];
    forall i | 0 <= i < |init| ensures IsTurn(init[i]) && WellFormed(init[i]) {
      assert init[i] == lines[i];
    }
  }

  /** A position and its remainder modulo 100 are congruent. */
  lemma CongruentRemainder(x: int)
    ensures Congruent(x % Ranges, x)
  {
    assert x - x % Ranges == Ranges * (x / Ranges);
  }

  /** One more line of the corrected fold. */
  lemma Part2FixedFoldLast(lines: seq<string>, acc: nat, dial: int)
    requires AllWellFormed(lines) && AllTurns(lines) && lines != []
    requires AllWellFormed(lines[..|lines| - 1])
    requires Part2FixedFold(lines[..|lines| - 1]) == Ok((acc, dial)) && 0 <= dial < Ranges
    ensures Wraps(lines[|lines| - 1], dial).Ok? && TurnDial(lines[|lines| - 1], dial).Ok?
    ensures var last := lines[|lines| - 1];
      Part2FixedFold(lines) == Ok((acc + Wraps(last, dial).value, Wrap(TurnDial(last, dial).value)))
  {
    var last := lines[|lines| - 1];
    assert Part2FixedFold(lines).value.0 == acc + Wraps(last, dial).value;
    assert Part2FixedFold(lines).value.1 == Wrap(TurnDial(last, dial).value);
  }

  /** With the corrected closed form the fold counts every click that lands on 0. */
  lemma {:induction false} Part2FixedFoldCounts(lines: seq<string>)
    requires AllWellFormed(lines) && AllTurns(lines)
    ensures Part2FixedFold(lines) == Ok((UnitZeros(lines, 50, JsDirection), (50 + Net(lines, JsDirection)) % Ranges))
  {
    if lines != [] {
      var init, last := lines[..|lines| - 1], lines[|lines| - 1];
      AllTurnsInit(lines);
      Part2FixedFoldCounts(init);
      var pos := 50 + Net(init, JsDirection);
      Part2FixedFoldLast(lines, UnitZeros(init, 50, JsDirection), pos % Ranges);
      FixedStep(last, pos);
      LastStep(lines, 50, JsDirection);
      assert Part2FixedFold(lines).value.0 == UnitZeros(lines, 50, JsDirection);
      assert Part2FixedFold(lines).value.1 == (50 + Net(lines, JsDirection)) % Ranges;
    }
  }

  /** One line of the corrected fold, from the remainder of an unbounded position. */
  lemma FixedStep(line: string, pos: int)
    requires WellFormed(line) && IsTurn(line)
    ensures var d, n := JsDirection(line[0]), Clicks(line, JsDirection);
      && Wraps(line, pos % Ranges) == Ok(StepZeros(pos, d, n))
      && Wrap(TurnDial(line, pos % Ranges).value) == Move(pos, d, n) % Ranges
  {
    var dial := pos % Ranges;
    var d, n := JsDirection(line[0]), Clicks(line, JsDirection);
    CongruentRemainder(pos);
    WrapsCountsClicks(line, dial);
    StepZerosCongruent(dial, pos, d, n);
    WrapStep(line, pos);
  }

  /** Extending a prefix of the lines by one more line. */
  lemma PrefixStep(lines: seq<string>, i: nat, start: int, dirOf: DirectionOf)
    requires AllWellFormed(lines) && i < |lines|
    ensures AllWellFormed(lines[..i]) && AllWellFormed(lines[..i + 1])
    ensures Net(lines[..i + 1], dirOf) == Move(Net(lines[..i], dirOf), dirOf(lines[i][0]), Clicks(lines[i], dirOf))
    ensures UnitZeros(lines[..i + 1], start, dirOf) ==
      UnitZeros(lines[..i], start, dirOf) + StepZeros(start + Net(lines[..i], dirOf), dirOf(lines[i][0]), Clicks(lines[i], dirOf))
    ensures LineZeros(lines[..i + 1], start, dirOf) ==
      LineZeros(lines[..i], start, dirOf) + if (start + Net(lines[..i + 1], dirOf)) % Ranges == 0 then 1 else 0
  {
    assert lines[..i + 1][..i] == lines[..i];
    assert lines[..i + 1][i] == lines[i];
  }

  lemma Part2FixedCounts(lines: seq<string>)
    requires AllWellFormed(lines) && AllTurns(lines)
    ensures Part2Fixed(lines) == Ok(UnitZeros(lines, 50, JsDirection))
  {
    Part2FixedFoldCounts(lines);
  }

  /*** part2_2: click by click ***/

  /** One click of `part2_2`: the new dial stays congruent to the unbounded position, and
      it is 0 exactly when that click lands on a multiple of 100. */
  lemma ClickStep(dial: int, d: int, pos: int, k: nat)
    requires d == -1 || d == 1
    requires -Ranges < dial < Ranges && Congruent(dial, Move(pos, d, k))
    ensures var next := JsRem(dial + d);
      && -Ranges < next < Ranges && Congruent(next, Move(pos, d, k + 1))
      && StepZeros(pos, d, k + 1) == StepZeros(pos, d, k) + if next == 0 then 1 else 0
  {
    var next := JsRem(dial + d);
    assert dial + d - Move(pos, d, k + 1) == dial - Move(pos, d, k);
    CongruentTrans(next, dial + d, Move(pos, d, k + 1));
    CongruentZero(next, Move(pos, d, k + 1));
  }

  /** The `range(0, value).forEach` of one line: `value` clicks in direction `d`, the dial
      kept by JavaScript's remainder, counting the clicks that leave it at 0. */
  method Turn(dial: int, count: nat, d: int, value: nat, ghost pos: int) returns (dial': int, count': nat)
    requires d == -1 || d == 1
    requires -Ranges < dial < Ranges && Congruent(dial, pos)
    ensures -Ranges < dial' < Ranges && Congruent(dial', Move(pos, d, value))
    ensures count' == count + StepZeros(pos, d, value)
  {
    dial', count' := dial, count;
    for k := 0 to value
      invariant -Ranges < dial' < Ranges && Congruent(dial', Move(pos, d, k))
      invariant count' == count + StepZeros(pos, d, k)
    {
      ClickStep(dial', d, pos, k);
      dial' := JsRem(dial' + d);
      if dial' == 0 {
        count' := count' + 1;
      }
    }
  }

  /** One more line moves the unbounded position by the line, and adds the clicks of the line
      that land on a multiple of 100. */
  lemma LineStep(data: seq<string>, i: nat)
    requires AllWellFormed(data) && i < |data|
    ensures AllWellFormed(data[..i]) && AllWellFormed(data[..i + 1])
    ensures var pos := 50 + Net(data[..i], JsDirection);
      var d, n := JsDirection(data[i][0]), Clicks(data[i], JsDirection);
      && 50 + Net(data[..i + 1], JsDirection) == Move(pos, d, n)
      && UnitZeros(data[..i + 1], 50, JsDirection) == UnitZeros(data[..i], 50, JsDirection) + StepZeros(pos, d, n)
  {
    PrefixStep(data, i, 50, JsDirection);
  }

  /** One line of `part2_2`: an 'L' or 'R' line turns the dial click by click; any other
      line is passed over. */
  method TurnLine(dial: int, count: nat, line: string, ghost pos: int) returns (dial': int, count': nat)
    requires WellFormed(line)
    requires -Ranges < dial < Ranges && Congruent(dial, pos)
    ensures var d, n := JsDirection(line[0]), Clicks(line, JsDirection);
      && -Ranges < dial' < Ranges && Congruent(dial', Move(pos, d, n))
      && count' == count + StepZeros(pos, d, n)
  {
    var dir := line[0];
    var value := Value(line);
    if dir == 'L' {
      dial', count' := Turn(dial, count, -1, value, pos);
    } else if dir == 'R' {
      dial', count' := Turn(dial, count, 1, value, pos);
    } else {
      dial', count' := dial, count;
    }
  }

  /** `part2_2`: every click of every 'L' or 'R' line, counting those that leave the dial at
      0; other lines are passed over. */
  method Part2_2(data: seq<string>) returns (count: nat)
    requires AllWellFormed(data)
    ensures count == UnitZeros(data, 50, JsDirection)
  {
    var dial := 50;
    count := 0;
    ghost var pos := 50;
    for i := 0 to |data|
      invariant pos == 50 + Net(data[..i], JsDirection)
      invariant -Ranges < dial < Ranges && Congruent(dial, pos)
      invariant count == UnitZeros(data[..i], 50, JsDirection)
    {
      LineStep(data, i);
      dial, count := TurnLine(dial, count, data[i], pos);
      pos := Move(pos, JsDirection(data[i][0]), Clicks(data[i], JsDirection));
    }
    assert data[..|data|] == data;
  }
}
