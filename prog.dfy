/** The Python re-implementation of the secret entrance dial: one loop over the lines, an inner
    loop of single clicks kept in [0, 100) by Python's non-negative `%`, counting in `p1` the
    lines that end on 0 and in `p2` the clicks that land on 0. */
module Prog {
  import opened Common
  import opened Text
  import opened SecretEntrance

  /** The direction as the Python loop reads it: 'L' left, anything else right. */
  function PyDirection(c: char): (r: int)
    ensures r == -1 <==> c == 'L'
    ensures r == 1 <==> c != 'L'
  {
    if c == 'L' then -1 else 1
  }

  /** Python's `%` by 100 floors, which is Dafny's `%` for a positive divisor; one click from
      a remainder stays the remainder of the unbounded position. */
  lemma ClickRemainder(x: int, d: int)
    ensures (x % Ranges + d) % Ranges == (x + d) % Ranges
  {
    CongruentRemainder(x);
    assert Congruent(x % Ranges + d, x + d);
    CongruentMod(x % Ranges + d, x + d);
  }

  /** The inner `for _ in range(n)` from the dial `p`: the clicks that land on 0 added to `p2`. */
  method Clicks1(p: int, p2: nat, d: int, n: nat, ghost pos: int) returns (p': int, p2': nat)
    requires d == -1 || d == 1
    requires p == pos % Ranges
    ensures 0 <= p' < Ranges && p' == Move(pos, d, n) % Ranges
    ensures p2' == p2 + StepZeros(pos, d, n)
  {
    p', p2' := p, p2;
    for k := 0 to n
      invariant p' == Move(pos, d, k) % Ranges
      invariant p2' == p2 + StepZeros(pos, d, k)
    {
      if d < 0 {
        p' := (p' - 1) % Ranges;
      } else {
        p' := (p' + 1) % Ranges;
      }
      ClickRemainder(Move(pos, d, k), d);
      if p' == 0 {
        p2' := p2' + 1;
      }
    }
  }

  /** One pass of the outer loop, lines 12-23 of the script, from the dial `p` that is the
      remainder of the unbounded position `pos`. */
  method RunLine(p: int, p1: nat, p2: nat, d: string, ghost pos: int) returns (p': int, p1': nat, p2': nat)
    requires WellFormed(d) && p == pos % Ranges
    ensures var next := Move(pos, PyDirection(d[0]), Value(d));
      && p' == next % Ranges
      && p1' == p1 + (if next % Ranges == 0 then 1 else 0)
      && p2' == p2 + StepZeros(pos, PyDirection(d[0]), Value(d))
  {
    var n := Value(d);
    var r := d[0];
    if r == 'L' {
      p', p2' := Clicks1(p, p2, -1, n, pos);
    } else {
      p', p2' := Clicks1(p, p2, 1, n, pos);
    }
    p1' := p1;
    if p' == 0 {
      p1' := p1' + 1;
    }
  }

  /** One more line of the script, in terms of the reference counts. */
  lemma RunStep(data: seq<string>, i: nat)
    requires AllWellFormed(data) && i < |data|
    ensures AllWellFormed(data[..i]) && AllWellFormed(data[..i + 1])
    ensures var pos := 50 + Net(data[..i], PyDirection);
      var next := Move(pos, PyDirection(data[i][0]), Value(data[i]));
      && 50 + Net(data[..i + 1], PyDirection) == next
      && LineZeros(data[..i + 1], 50, PyDirection) == LineZeros(data[..i], 50, PyDirection) + (if next % Ranges == 0 then 1 else 0)
      && UnitZeros(data[..i + 1], 50, PyDirection) == UnitZeros(data[..i], 50, PyDirection) + StepZeros(pos, PyDirection(data[i][0]), Value(data[i]))
  {
    PrefixStep(data, i, 50, PyDirection);
    assert Clicks(data[i], PyDirection) == Value(data[i]);
  }

  /** Lines 11-23 of the script: the final dial `p`, the lines that end on 0 (`p1`) and the
      clicks that land on 0 (`p2`). */
  method Run(data: seq<string>) returns (p: int, p1: nat, p2: nat)
    requires AllWellFormed(data)
    ensures 0 <= p < Ranges && p == (50 + Net(data, PyDirection)) % Ranges
    ensures p1 == LineZeros(data, 50, PyDirection)
    ensures p2 == UnitZeros(data, 50, PyDirection)
  {
    p, p1, p2 := 50, 0, 0;
    ghost var pos := 50;
    for i := 0 to |data|
      invariant pos == 50 + Net(data[..i], PyDirection)
      invariant p == pos % Ranges
      invariant p1 == LineZeros(data[..i], 50, PyDirection)
      invariant p2 == UnitZeros(data[..i], 50, PyDirection)
    {
      RunStep(data, i);
      p, p1, p2 := RunLine(p, p1, p2, data[i], pos);
      pos := Move(pos, PyDirection(data[i][0]), Value(data[i]));
    }
    assert data[..|data|] == data;
  }

  /** The two readings of the directions agree on every line. */
  predicate Agree(lines: seq<string>, f: DirectionOf, g: DirectionOf)
    requires AllWellFormed(lines)
  {
    forall i :: 0 <= i < |lines| ==> f(lines[i][0]) == g(lines[i][0])
  }

  lemma AgreeInit(lines: seq<string>, f: DirectionOf, g: DirectionOf)
    requires AllWellFormed(lines) && lines != [] && Agree(lines, f, g)
    ensures AllWellFormed(lines[..|lines| - 1]) && Agree(lines[..|lines| - 1], f, g)
    ensures f(lines[|lines| - 1][0]) == g(lines[|lines| - 1][0])
    ensures Clicks(lines[|lines| - 1], f) == Clicks(lines[|lines| - 1], g)
  {
    var init := lines[..|lines| - 1];
    forall i | 0 <= i < |init| ensures WellFormed(init[i]) && f(init[i][0]) == g(init[i][0]) {
      assert init[i] == lines[i];
    }
  }

  lemma {:induction false} SameNet(lines: seq<string>, f: DirectionOf, g: DirectionOf)
    requires AllWellFormed(lines) && Agree(lines, f, g)
    ensures Net(lines, f) == Net(lines, g)
  {
    if lines != [] {
      AgreeInit(lines, f, g);
      SameNet(lines[..|lines| - 1], f, g);
    }
  }

  lemma {:induction false} SameUnitZeros(lines: seq<string>, start: int, f: DirectionOf, g: DirectionOf)
    requires AllWellFormed(lines) && Agree(lines, f, g)
    ensures UnitZeros(lines, start, f) == UnitZeros(lines, start, g)
  {
    if lines != [] {
      var init := lines[..|lines| - 1];
      AgreeInit(lines, f, g);
      SameUnitZeros(init, start, f, g);
      SameNet(init, f, g);
      LastStep(lines, start, f);
      LastStep(lines, start, g);
    }
  }

  lemma {:induction false} SameLineZeros(lines: seq<string>, start: int, f: DirectionOf, g: DirectionOf)
    requires AllWellFormed(lines) && Agree(lines, f, g)
    ensures LineZeros(lines, start, f) == LineZeros(lines, start, g)
  {
    if lines != [] {
      var init := lines[..|lines| - 1];
      AgreeInit(lines, f, g);
      SameLineZeros(init, start, f, g);
      SameNet(lines, f, g);
      LastStep(lines, start, f);
      LastStep(lines, start, g);
    }
  }

  /** Two readings of the directions that agree on every line give the same unbounded
      positions and the same counts. */
  lemma SameDirections(lines: seq<string>, start: int, f: DirectionOf, g: DirectionOf)
    requires AllWellFormed(lines) && Agree(lines, f, g)
    ensures Net(lines, f) == Net(lines, g)
    ensures UnitZeros(lines, start, f) == UnitZeros(lines, start, g)
    ensures LineZeros(lines, start, f) == LineZeros(lines, start, g)
  {
    SameNet(lines, f, g);
    SameUnitZeros(lines, start, f, g);
    SameLineZeros(lines, start, f, g);
  }

  /** On lines that all turn 'L' or 'R', the script and the TypeScript solver read the
      directions alike: its `p2` is the count of `part2_2` and its `p1` the answer of `part1`. */
  lemma PythonMatchesTypeScript(lines: seq<string>)
    requires AllWellFormed(lines) && AllTurns(lines)
    ensures UnitZeros(lines, 50, PyDirection) == UnitZeros(lines, 50, JsDirection)
    ensures Part1(lines) == Ok(LineZeros(lines, 50, PyDirection))
    ensures Net(lines, PyDirection) == Net(lines, JsDirection)
  {
    forall i | 0 <= i < |lines| ensures PyDirection(lines[i][0]) == JsDirection(lines[i][0]) {
      assert IsTurn(lines[i]);
    }
    SameDirections(lines, 50, PyDirection, JsDirection);
    Part1Counts(lines);
  }

  /** On a line that is neither 'L' nor 'R' the two part-2 counts part: "X50" turns the
      script's dial right onto 0, while `part2_2` passes over the line. */
  lemma OtherDirectionTurnsRight()
    ensures AllWellFormed(["X50"])
    ensures UnitZeros(["X50"], 50, PyDirection) == 1
    ensures UnitZeros(["X50"], 50, JsDirection) == 0
  {
    assert DecimalValue("50") == 50 by {
      assert "50"[..1] == "5";
      assert "5"[..0] == "";
    }
    var lines := ["X50"];
    assert lines[0][1..] == "50";
    assert lines[..0] == [];
    assert StepZeros(50, 1, 50) == 1 by {
      StepZerosRight(50, 50);
    }
  }
}
