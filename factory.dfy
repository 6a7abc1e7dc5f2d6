/** The factory machines (day 10). Each line of the manual describes a machine: an indicator
    light diagram `[.##.]`, button wiring schematics `(1,3) (2)` naming the positions a
    button affects, and joltage requirements `{3,5,4,7}`. Pressing a button toggles the
    lights it names (part 1) or adds one to the counters it names (part 2). Both parts search,
    breadth first, for the fewest presses that take the all-off / all-zero vector to the
    target, remembering visited vectors by the key `toKey` builds. */
module Factory {
  import opened Common
  import opened Text
  import opened Search

  datatype Machine = Machine(lights: seq<char>, buttons: seq<seq<nat>>, joltage: seq<nat>)

  /** What a search ends with. `Unreachable` stands for the queue running dry, where the
      program dequeues from an empty queue; `OutOfFuel` only arises in the fuel-bounded
      search over counters. */
  datatype Outcome = Found(depth: nat) | Unreachable | OutOfFuel

  /*** Parsing ***/

  /** The position of the first `c` in `s`, or `|s|` when there is none. */
  function IndexOf(s: string, c: char): (i: nat)
    ensures i <= |s|
    ensures i < |s| ==> s[i] == c
    ensures c !in s[..i]
  {
    if s == [] || s[0] == c then 0
    else
      var j := IndexOf(s[1..], c);
      assert s[..j + 1] == [s[0]] + s[1..][..j];
      1 + j
  }

  /** `s.replace(c, "")` with a one-character pattern: drops the first occurrence of `c`. */
  function RemoveFirst(s: string, c: char): (r: string)
    ensures c !in s ==> r == s
    ensures c in s ==> |r| == |s| - 1 && r == s[..IndexOf(s, c)] + s[IndexOf(s, c) + 1..]
  {
    var i := IndexOf(s, c);
    if i == |s| then
      assert s[..i] == s;
      s
    else s[..i] + s[i + 1..]
  }

  /** The light diagram token without its brackets, one light per character. */
  function ParseLights(token: string): seq<char>
  {
    RemoveFirst(RemoveFirst(token, '['), ']')
  }

  /** A comma-separated list of numbers between the delimiters `open` and `close`;
      a piece that is not a number reads as NaN, reported as an error. */
  function ParseNumbers(token: string, open: char, close: char): (r: Result<seq<nat>>)
    ensures r.Ok? ==> |r.value| == |Split(RemoveFirst(RemoveFirst(token, open), close), ',')|
  {
    var pieces := Split(RemoveFirst(RemoveFirst(token, open), close), ',');
    NumbersOf(pieces)
  }

  function NumbersOf(pieces: seq<string>): (r: Result<seq<nat>>)
    ensures r.Ok? <==> forall i :: 0 <= i < |pieces| ==> AllDigits(pieces[i])
    ensures r.Ok? ==> |r.value| == |pieces| && forall i :: 0 <= i < |pieces| ==> Number(pieces[i]) == Some(r.value[i])
  {
    if forall i :: 0 <= i < |pieces| ==> AllDigits(pieces[i]) then
      Ok(seq(|pieces|, i requires 0 <= i < |pieces| => Number(pieces[i]).value))
    else
      Err("NaN")
  }

  function ParseButtons(tokens: seq<string>): (r: Result<seq<seq<nat>>>)
    ensures r.Ok? <==> forall i :: 0 <= i < |tokens| ==> ParseNumbers(tokens[i], '(', ')').Ok?
    ensures r.Ok? ==> |r.value| == |tokens|
    ensures r.Ok? ==> forall i :: 0 <= i < |tokens| ==> ParseNumbers(tokens[i], '(', ')') == Ok(r.value[i])
  {
    if forall i :: 0 <= i < |tokens| ==> ParseNumbers(tokens[i], '(', ')').Ok? then
      Ok(seq(|tokens|, i requires 0 <= i < |tokens| => ParseNumbers(tokens[i], '(', ')').value))
    else
      Err("NaN")
  }

  /** The tokens of a line: the first is the light diagram, the last the joltage
      requirements, and the ones between them the buttons. A line of one token uses it for
      both the lights and the joltage and has no buttons. */
  function ParseParts(parts: seq<string>): (r: Result<Machine>)
    requires |parts| >= 1
    ensures r.Ok? <==> ParseButtons(Middle(parts)).Ok? && ParseNumbers(parts[|parts| - 1], '{', '}').Ok?
    ensures r.Ok? ==> r.value.lights == ParseLights(parts[0])
    ensures r.Ok? ==> Ok(r.value.joltage) == ParseNumbers(parts[|parts| - 1], '{', '}')
    ensures r.Ok? ==> |r.value.buttons| == |Middle(parts)|
    ensures r.Ok? ==> forall i :: 0 <= i < |r.value.buttons| ==> ParseNumbers(parts[i + 1], '(', ')') == Ok(r.value.buttons[i])
  {
    match ParseButtons(Middle(parts))
    case Err(e) => Err(e)
    case Ok(buttons) =>
      match ParseNumbers(parts[|parts| - 1], '{', '}')
      case Err(e) => Err(e)
      case Ok(joltage) => Ok(Machine(ParseLights(parts[0]), buttons, joltage))
  }

  /** lodash `initial(tail(parts))`: all tokens but the first and the last. */
  function Middle(parts: seq<string>): (r: seq<string>)
    ensures |parts| >= 2 ==> |r| == |parts| - 2 && forall i :: 0 <= i < |r| ==> r[i] == parts[i + 1]
    ensures |parts| < 2 ==> r == []
  {
    if |parts| >= 2 then parts[1..|parts| - 1] else []
  }

  /** One line of the manual, split at its spaces. */
  function ParseLine(line: string): Result<Machine>
  {
    ParseParts(Split(line, ' '))
  }

  /** A line assembled from space-free tokens parses token by token. */
  lemma ParseLineTokens(tokens: seq<string>)
    requires |tokens| >= 1
    requires forall i :: 0 <= i < |tokens| ==> ' ' !in tokens[i]
    ensures ParseLine(Join(tokens, ' ')) == ParseParts(tokens)
  {
    SplitJoin(tokens, ' ');
  }

  function ParseData(data: seq<string>): (r: Result<seq<Machine>>)
    ensures r.Ok? <==> forall i :: 0 <= i < |data| ==> ParseLine(data[i]).Ok?
    ensures r.Ok? ==> |r.value| == |data| && forall i :: 0 <= i < |data| ==> ParseLine(data[i]) == Ok(r.value[i])
  {
    if forall i :: 0 <= i < |data| ==> ParseLine(data[i]).Ok? then
      Ok(seq(|data|, i requires 0 <= i < |data| => ParseLine(data[i]).value))
    else
      Err("NaN")
  }

  /*** Lights ***/

  /** A light that is on ('#') goes off and one that is off ('.') goes on; any other
      character is left as it is. */
  function Flip(c: char): char
  {
    if c == '#' then '.' else if c == '.' then '#' else c
  }

  lemma FlipFlip(c: char)
    ensures Flip(Flip(c)) == c
  {
  }

  /** The light vector after `toggleButton(state, index)`. */
  function Toggled(s: seq<char>, index: nat): (r: seq<char>)
    ensures |r| == |s|
  {
    if index < |s| then s[index := Flip(s[index])] else s
  }

  /** `toggleButton`: flips the light at `index` in place; an index past the end reads
      `undefined` and changes nothing. */
  method ToggleButton(state: array<char>, index: nat)
    modifies state
    ensures state[..] == Toggled(old(state[..]), index)
    ensures forall j :: 0 <= j < state.Length && j != index ==> state[j] == old(state[j])
    ensures index < state.Length ==> state[index] == Flip(old(state[index]))
  {
    if index < state.Length {
      if state[index] == '#' {
        state[index] := '.';
      } else if state[index] == '.' {
        state[index] := '#';
      }
    }
  }

  /** The lights after one press of `button`: its positions are toggled one after another. */
  function Press(s: seq<char>, button: seq<nat>): (r: seq<char>)
    ensures |r| == |s|
  {
    if button == [] then s else Toggled(Press(s, button[..|button| - 1]), button[|button| - 1])
  }

  /** `pressButton`: clones the state and toggles each position of the button. */
  method PressButton(state: seq<char>, button: seq<nat>) returns (next: seq<char>)
    ensures next == Press(state, button)
  {
    var lights := new char[|state|](i requires 0 <= i < |state| => state[i]);
    for k := 0 to |button|
      invariant lights[..] == Press(state, button[..k])
    {
      assert button[..k + 1][..k] == button[..k];
      ToggleButton(lights, button[k]);
    }
    assert button[..|button|] == button;
    next := lights[..];
  }

  /** How often `x` occurs in `xs`. */
  function CountOf(xs: seq<nat>, x: nat): nat
  {
    if xs == [] then 0 else CountOf(xs[..|xs| - 1], x) + (if xs[|xs| - 1] == x then 1 else 0)
  }

  /** `c` flipped `n` times. */
  function FlipTimes(c: char, n: nat): char
  {
    if n % 2 == 0 then c else Flip(c)
  }

  /** A press flips light `j` exactly when the button names `j` an odd number of times. */
  lemma {:induction false} PressAt(s: seq<char>, button: seq<nat>, j: nat)
    requires j < |s|
    ensures Press(s, button)[j] == FlipTimes(s[j], CountOf(button, j))
  {
    if button != [] {
      PressAt(s, button[..|button| - 1], j);
      FlipFlip(s[j]);
    }
  }

  /** Pressing the same button twice restores the lights. */
  lemma PressTwice(s: seq<char>, button: seq<nat>)
    ensures Press(Press(s, button), button) == s
  {
    forall j | 0 <= j < |s| ensures Press(Press(s, button), button)[j] == s[j] {
      PressAt(s, button, j);
      PressAt(Press(s, button), button, j);
      FlipFlip(s[j]);
    }
  }

  /** Presses commute. */
  lemma PressCommutes(s: seq<char>, a: seq<nat>, b: seq<nat>)
    ensures Press(Press(s, a), b) == Press(Press(s, b), a)
  {
    forall j | 0 <= j < |s| ensures Press(Press(s, a), b)[j] == Press(Press(s, b), a)[j] {
      PressAt(s, a, j);
      PressAt(s, b, j);
      PressAt(Press(s, a), b, j);
      PressAt(Press(s, b), a, j);
      FlipFlip(s[j]);
    }
  }

  /** How often light `j` is named by the buttons pressed along `path`. */
  function Hits(buttons: seq<seq<nat>>, path: seq<nat>, j: nat): nat
    requires ValidPath(path, |buttons|)
  {
    if path == [] then 0
    else Hits(buttons, path[..|path| - 1], j) + CountOf(buttons[path[|path| - 1]], j)
  }

  lemma {:induction false} RunPressLength(s: seq<char>, buttons: seq<seq<nat>>, path: seq<nat>)
    requires ValidPath(path, |buttons|)
    ensures |Run(Press, buttons, s, path)| == |s|
  {
    if path != [] {
      RunPressLength(s, buttons, path[..|path| - 1]);
    }
  }

  lemma {:induction false} RunPressAt(s: seq<char>, buttons: seq<seq<nat>>, path: seq<nat>, j: nat)
    requires ValidPath(path, |buttons|) && j < |s|
    ensures |Run(Press, buttons, s, path)| == |s|
    ensures Run(Press, buttons, s, path)[j] == FlipTimes(s[j], Hits(buttons, path, j))
  {
    RunPressLength(s, buttons, path);
    if path != [] {
      var p, c := path[..|path| - 1], path[|path| - 1];
      var before := Run(Press, buttons, s, p);
      var h, k := Hits(buttons, p, j), CountOf(buttons[c], j);
      RunPressLength(s, buttons, p);
      RunPressAt(s, buttons, p, j);
      PressAt(before, buttons[c], j);
      FlipTimesAdd(s[j], h, k);
      calc {
        Run(Press, buttons, s, path)[j];
        Press(before, buttons[c])[j];
        FlipTimes(before[j], k);
        FlipTimes(FlipTimes(s[j], h), k);
        FlipTimes(s[j], h + k);
      }
    }
  }

  lemma FlipTimesAdd(c: char, a: nat, b: nat)
    ensures FlipTimes(FlipTimes(c, a), b) == FlipTimes(c, a + b)
  {
    FlipFlip(c);
    assert (a + b) % 2 == (a % 2 + b % 2) % 2;
  }

  /** The hits on light `j`, grouped by button: press count times multiplicity, over the first `n` buttons. */
  function Weighted(buttons: seq<seq<nat>>, path: seq<nat>, j: nat, n: nat): nat
    requires n <= |buttons|
  {
    if n == 0 then 0 else Weighted(buttons, path, j, n - 1) + CountOf(path, n - 1) * CountOf(buttons[n - 1], j)
  }

  lemma {:induction false} WeightedSnoc(buttons: seq<seq<nat>>, path: seq<nat>, c: nat, j: nat, n: nat)
    requires n <= |buttons|
    ensures Weighted(buttons, path + [c], j, n)
         == Weighted(buttons, path, j, n) + (if c < n then CountOf(buttons[c], j) else 0)
  {
    assert (path + [c])[..|path|] == path;
    if n > 0 {
      WeightedSnoc(buttons, path, c, j, n - 1);
      var w := CountOf(buttons[n - 1], j);
      assert CountOf(path + [c], n - 1) == CountOf(path, n - 1) + (if c == n - 1 then 1 else 0);
      assert (CountOf(path, n - 1) + 1) * w == CountOf(path, n - 1) * w + w;
    }
  }

  lemma {:induction false} HitsAsWeighted(buttons: seq<seq<nat>>, path: seq<nat>, j: nat)
    requires ValidPath(path, |buttons|)
    ensures Hits(buttons, path, j) == Weighted(buttons, path, j, |buttons|)
  {
    if path == [] {
      WeightedEmpty(buttons, j, |buttons|);
    } else {
      var p, c := path[..|path| - 1], path[|path| - 1];
      assert path == p + [c];
      HitsAsWeighted(buttons, p, j);
      WeightedSnoc(buttons, p, c, j, |buttons|);
    }
  }

  lemma {:induction false} WeightedEmpty(buttons: seq<seq<nat>>, j: nat, n: nat)
    requires n <= |buttons|
    ensures Weighted(buttons, [], j, n) == 0
  {
    if n > 0 {
      WeightedEmpty(buttons, j, n - 1);
    }
  }

  lemma ParityOfProducts(x: nat, y: nat, a: nat, b: nat, w: nat)
    requires x % 2 == y % 2 && a % 2 == b % 2
    ensures (x + a * w) % 2 == (y + b * w) % 2
  {
    var qa, qb := a / 2, b / 2;
    assert a == 2 * qa + a % 2 && b == 2 * qb + b % 2;
    assert a * w == 2 * (qa * w) + (a % 2) * w;
    assert b * w == 2 * (qb * w) + (b % 2) * w;
  }

  lemma {:induction false} WeightedParity(buttons: seq<seq<nat>>, p: seq<nat>, q: seq<nat>, j: nat, n: nat)
    requires n <= |buttons|
    requires forall b :: 0 <= b < |buttons| ==> CountOf(p, b) % 2 == CountOf(q, b) % 2
    ensures Weighted(buttons, p, j, n) % 2 == Weighted(buttons, q, j, n) % 2
  {
    if n > 0 {
      WeightedParity(buttons, p, q, j, n - 1);
      ParityOfProducts(Weighted(buttons, p, j, n - 1), Weighted(buttons, q, j, n - 1),
                       CountOf(p, n - 1), CountOf(q, n - 1), CountOf(buttons[n - 1], j));
    }
  }

  /** The lights after a sequence of presses depend only on how often each button was
      pressed, modulo 2. */
  lemma ParityDetermines(s: seq<char>, buttons: seq<seq<nat>>, p: seq<nat>, q: seq<nat>)
    requires ValidPath(p, |buttons|) && ValidPath(q, |buttons|)
    requires forall b :: 0 <= b < |buttons| ==> CountOf(p, b) % 2 == CountOf(q, b) % 2
    ensures Run(Press, buttons, s, p) == Run(Press, buttons, s, q)
  {
    RunPressLength(s, buttons, p);
    RunPressLength(s, buttons, q);
    forall j | 0 <= j < |s| ensures Run(Press, buttons, s, p)[j] == Run(Press, buttons, s, q)[j] {
      RunPressAt(s, buttons, p, j);
      RunPressAt(s, buttons, q, j);
      HitsAsWeighted(buttons, p, j);
      HitsAsWeighted(buttons, q, j);
      WeightedParity(buttons, p, q, j, |buttons|);
    }
  }

  /*** Counters ***/

  /** One counter incremented; an index past the end is not one the search ever presses. */
  function Bump(v: seq<nat>, index: nat): (r: seq<nat>)
    ensures |r| == |v|
  {
    if index < |v| then v[index := v[index] + 1] else v
  }

  /** The counters after one press of `button`: each position it names gains one. */
  function AddJoltage(v: seq<nat>, button: seq<nat>): (r: seq<nat>)
    ensures |r| == |v|
  {
    if button == [] then v else Bump(AddJoltage(v, button[..|button| - 1]), button[|button| - 1])
  }

  /** `appendJoltage`: clones the counters and adds one at each position of the button. */
  method AppendJoltage(joltage: seq<nat>, button: seq<nat>) returns (next: seq<nat>)
    requires forall k :: 0 <= k < |button| ==> button[k] < |joltage|
    ensures next == AddJoltage(joltage, button)
  {
    var counters := new nat[|joltage|](i requires 0 <= i < |joltage| => joltage[i]);
    for k := 0 to |button|
      invariant counters[..] == AddJoltage(joltage, button[..k])
    {
      assert button[..k + 1][..k] == button[..k];
      counters[button[k]] := counters[button[k]] + 1;
    }
    assert button[..|button|] == button;
    next := counters[..];
  }

  /** Counter `j` gains the number of times the button names `j`; the others keep their value. */
  lemma {:induction false} AddJoltageAt(v: seq<nat>, button: seq<nat>, j: nat)
    requires j < |v|
    ensures AddJoltage(v, button)[j] == v[j] + CountOf(button, j)
  {
    if button != [] {
      AddJoltageAt(v, button[..|button| - 1], j);
    }
  }

  /*** Start states ***/

  /** `createInitialState`: `n` lights, all off. */
  function CreateInitialState(n: nat): (r: seq<char>)
    ensures |r| == n && forall i :: 0 <= i < n ==> r[i] == '.'
  {
    seq(n, _ => '.')
  }

  /** `createInitialJoltage`: `n` counters, all zero. */
  function CreateInitialJoltage(n: nat): (r: seq<nat>)
    ensures |r| == n && forall i :: 0 <= i < n ==> r[i] == 0
  {
    seq(n, _ => 0)
  }

  /*** Keys ***/

  /** `toKey`: the pieces of a state joined with commas. */
  function ToKey(state: seq<string>): string
  {
    Join(state, ',')
  }

  /** The key of a light vector, whose pieces are its single characters. */
  function LightsKey(s: seq<char>): (r: string)
    ensures |s| == 0 ==> r == []
    ensures |s| > 0 ==> |r| == 2 * |s| - 1
    ensures forall i :: 0 <= i < |s| ==> r[2 * i] == s[i]
  {
    JoinChars(s);
    ToKey(Chars(s))
  }

  lemma {:induction false} JoinChars(s: seq<char>)
    ensures |s| == 0 ==> Join(Chars(s), ',') == []
    ensures |s| > 0 ==> |Join(Chars(s), ',')| == 2 * |s| - 1
    ensures forall i :: 0 <= i < |s| ==> Join(Chars(s), ',')[2 * i] == s[i]
  {
    if |s| > 1 {
      var rest := Join(Chars(s[1..]), ',');
      JoinChars(s[1..]);
      assert Chars(s)[1..] == Chars(s[1..]);
      var j := Join(Chars(s), ',');
      assert j == [s[0]] + [','] + rest;
      forall i | 0 <= i < |s| ensures j[2 * i] == s[i] {
        if i > 0 {
          assert j[2 * i] == rest[2 * (i - 1)];
        }
      }
    }
  }

  /** Different light vectors have different keys. */
  lemma LightsKeyInjective()
    ensures Injective(LightsKey)
  {
    forall a, b | LightsKey(a) == LightsKey(b) ensures a == b {
      assert |a| == |b|;
      forall i | 0 <= i < |a| ensures a[i] == b[i] {
        assert LightsKey(a)[2 * i] == a[i];
      }
    }
  }

  /** `n.toString()` for each counter. */
  function Decimals(v: seq<nat>): (r: seq<string>)
    ensures |r| == |v|
    ensures forall i :: 0 <= i < |v| ==> r[i] == DecimalString(v[i])
  {
    seq(|v|, i requires 0 <= i < |v| => DecimalString(v[i]))
  }

  /** The key of a counter vector: its decimal numbers joined with commas. */
  function JoltageKey(v: seq<nat>): string
  {
    ToKey(Decimals(v))
  }

  lemma DecimalStringInjective(m: nat, n: nat)
    requires DecimalString(m) == DecimalString(n)
    ensures m == n
  {
  }

  lemma NoCommaInDecimal(n: nat)
    ensures ',' !in DecimalString(n)
  {
  }

  /** Splitting a key at its commas gives back the decimal numbers, so keys of different
      counter vectors differ. */
  lemma JoltageKeyInjective()
    ensures Injective(JoltageKey)
  {
    forall v, w | JoltageKey(v) == JoltageKey(w) ensures v == w {
      if v == [] || w == [] {
        if v != [] {
          JoinNonEmpty(Decimals(v), ',');
        }
        if w != [] {
          JoinNonEmpty(Decimals(w), ',');
        }
      } else {
        forall i | 0 <= i < |v| ensures ',' !in Decimals(v)[i] {
          NoCommaInDecimal(v[i]);
        }
        forall i | 0 <= i < |w| ensures ',' !in Decimals(w)[i] {
          NoCommaInDecimal(w[i]);
        }
        SplitJoin(Decimals(v), ',');
        SplitJoin(Decimals(w), ',');
        assert Decimals(v) == Decimals(w);
        forall i | 0 <= i < |v| ensures v[i] == w[i] {
          assert Decimals(v)[i] == Decimals(w)[i];
          DecimalStringInjective(v[i], w[i]);
        }
      }
    }
  }

  /*** The finite space of light vectors ***/

  /** Every light of `t` is the corresponding light of `start`, flipped or not. */
  ghost predicate Near(start: seq<char>, t: seq<char>)
  {
    |t| == |start| && forall i :: 0 <= i < |t| ==> t[i] == start[i] || t[i] == Flip(start[i])
  }

  /** The (finite) set of vectors near `start`. */
  ghost function Universe(start: seq<char>): set<seq<char>>
  {
    if start == [] then {[]}
    else
      var last := start[|start| - 1];
      set t, c | t in Universe(start[..|start| - 1]) && c in {last, Flip(last)} :: t + [c]
  }

  lemma {:induction false} NearInUniverse(start: seq<char>, t: seq<char>)
    requires Near(start, t)
    ensures t in Universe(start)
  {
    if start != [] {
      var init := t[..|t| - 1];
      NearInUniverse(start[..|start| - 1], init);
      assert t == init + [t[|t| - 1]];
    }
  }

  /** The vectors near `start` form a finite set: the search over light vectors ends. */
  lemma NearIsFinite(start: seq<char>) returns (u: set<seq<char>>)
    ensures forall t :: Near(start, t) ==> t in u
  {
    u := Universe(start);
    forall t | Near(start, t) ensures t in u {
      NearInUniverse(start, t);
    }
  }

  /** A press keeps a vector near `start`. */
  lemma PressNear(start: seq<char>, s: seq<char>, button: seq<nat>)
    requires Near(start, s)
    ensures Near(start, Press(s, button))
  {
    forall j | 0 <= j < |s| ensures Press(s, button)[j] == start[j] || Press(s, button)[j] == Flip(start[j]) {
      PressAt(s, button, j);
      FlipFlip(start[j]);
    }
  }

  /*** The searches ***/

  /** The `for (const button of buttons)` loop of `process`: one entry per button, in order. */
  method PressAll(state: seq<char>, depth: nat, buttons: seq<seq<nat>>) returns (entries: seq<Entry<seq<char>>>)
    ensures entries == Successors(Press, buttons, state, depth, |buttons|)
  {
    entries := [];
    for i := 0 to |buttons|
      invariant entries == Successors(Press, buttons, state, depth, i)
    {
      var next := PressButton(state, buttons[i]);
      entries := entries + [Entry(next, depth)];
    }
  }

  /** Every queued vector is near `start`. */
  ghost predicate AllNear(start: seq<char>, queue: seq<Entry<seq<char>>>)
  {
    forall i :: 0 <= i < |queue| ==> Near(start, queue[i].state)
  }

  lemma ExpandNear(start: seq<char>, queue: seq<Entry<seq<char>>>, depth: nat, buttons: seq<seq<nat>>)
    requires AllNear(start, queue) && queue != []
    ensures AllNear(start, queue[1..] + Successors(Press, buttons, queue[0].state, depth, |buttons|))
  {
    var rest := queue[1..];
    var next := rest + Successors(Press, buttons, queue[0].state, depth, |buttons|);
    forall i | 0 <= i < |next| ensures Near(start, next[i].state) {
      if i < |rest| {
        assert next[i] == queue[i + 1];
      } else {
        PressNear(start, queue[0].state, buttons[i - |rest|]);
      }
    }
  }

  /** `process`: breadth-first search over light vectors from `start` to `target`. The queue
      holds (state, depth) entries; a dequeued state whose key was visited before is skipped,
      otherwise it is marked visited, compared with the target and expanded by every button.
      A drained queue, where the program fails, is reported as `Unreachable`. */
  method Process(start: seq<char>, target: seq<char>, buttons: seq<seq<nat>>) returns (r: Outcome)
    ensures r.Found? <==> Reachable(Press, buttons, start, target)
    ensures r.Found? ==> MinimalDepth(Press, buttons, start, target, r.depth)
    ensures start == target ==> r == Found(0)
    ensures !r.OutOfFuel?
  {
    var queue := [Entry(start, 0)];
    var visited: set<string> := {};
    ghost var seen: set<seq<char>> := {};
    ghost var level: nat := 0;
    ghost var universe := NearIsFinite(start);
    InvInit(Press, buttons, start, target);
    LightsKeyInjective();
    while queue != []
      invariant Inv(Press, buttons, start, target, queue, seen, level)
      invariant visited == Keys(LightsKey, seen)
      invariant AllNear(start, queue)
      invariant seen <= universe
      decreases universe - seen, |queue|
    {
      level := Advance(Press, buttons, start, target, queue, seen, level);
      var state, depth := queue[0].state, queue[0].depth;
      ghost var current := queue;
      queue := queue[1..];
      var key := LightsKey(state);
      KeysMember(LightsKey, seen, state);
      if key in visited {
        InvSkip(Press, buttons, start, target, current, seen, level);
        continue;
      }
      if state == target {
        FoundIsMinimal(Press, buttons, start, target, current, seen, level);
        MinimalDepthReachable(Press, buttons, start, target, depth);
        if start == target {
          StartAtDepthZero(Press, buttons, start);
          MinimalDepthUnique(Press, buttons, start, target, depth, 0);
        }
        return Found(depth);
      }
      InvExpand(Press, buttons, start, target, current, seen, level);
      ExpandNear(start, current, depth + 1, buttons);
      KeysAdd(LightsKey, seen, state);
      visited := visited + {key};
      seen := seen + {state};
      var successors := PressAll(state, depth + 1, buttons);
      queue := queue + successors;
    }
    DrainedMeansUnreachable(Press, buttons, start, target, seen, level);
    StartAtDepthZero(Press, buttons, start);
    MinimalDepthReachable(Press, buttons, start, start, 0);
    return Unreachable;
  }

  /** Every button names only existing counters. The program does not check this: pressing a
      button that names a counter past the end gives a vector that is not a number vector. */
  predicate ButtonsInRange(buttons: seq<seq<nat>>, n: nat)
  {
    forall b, k :: 0 <= b < |buttons| && 0 <= k < |buttons[b]| ==> buttons[b][k] < n
  }

  /** The `for (const button of buttons)` loop of `processPart2`. */
  method AppendAll(joltage: seq<nat>, depth: nat, buttons: seq<seq<nat>>) returns (entries: seq<Entry<seq<nat>>>)
    requires ButtonsInRange(buttons, |joltage|)
    ensures entries == Successors(AddJoltage, buttons, joltage, depth, |buttons|)
  {
    entries := [];
    for i := 0 to |buttons|
      invariant entries == Successors(AddJoltage, buttons, joltage, depth, i)
    {
      var next := AppendJoltage(joltage, buttons[i]);
      entries := entries + [Entry(next, depth)];
    }
  }

  /** Every queued counter vector has `n` counters. */
  ghost predicate AllLength(queue: seq<Entry<seq<nat>>>, n: nat)
  {
    forall i :: 0 <= i < |queue| ==> |queue[i].state| == n
  }

  lemma ExpandLength(queue: seq<Entry<seq<nat>>>, n: nat, depth: nat, buttons: seq<seq<nat>>)
    requires AllLength(queue, n) && queue != []
    ensures AllLength(queue[1..] + Successors(AddJoltage, buttons, queue[0].state, depth, |buttons|), n)
  {
    var rest := queue[1..];
    var next := rest + Successors(AddJoltage, buttons, queue[0].state, depth, |buttons|);
    forall i | 0 <= i < |next| ensures |next[i].state| == n {
      if i < |rest| {
        assert next[i] == queue[i + 1];
      }
    }
  }

  /** `processPart2`: the same breadth-first search over counter vectors. Their space is
      infinite and the program has no bound, so the model runs at most `fuel` iterations and
      reports `OutOfFuel` when they are spent. */
  method ProcessJoltage(buttons: seq<seq<nat>>, start: seq<nat>, target: seq<nat>, fuel: nat) returns (r: Outcome)
    requires ButtonsInRange(buttons, |start|)
    ensures r.Found? ==> MinimalDepth(AddJoltage, buttons, start, target, r.depth)
    ensures r.Unreachable? ==> !Reachable(AddJoltage, buttons, start, target)
  {
    var queue := [Entry(start, 0)];
    var visited: set<string> := {};
    ghost var seen: set<seq<nat>> := {};
    ghost var level: nat := 0;
    var steps := fuel;
    InvInit(AddJoltage, buttons, start, target);
    JoltageKeyInjective();
    while queue != [] && steps > 0
      invariant Inv(AddJoltage, buttons, start, target, queue, seen, level)
      invariant visited == Keys(JoltageKey, seen)
      invariant AllLength(queue, |start|)
      decreases steps
    {
      steps := steps - 1;
      level := Advance(AddJoltage, buttons, start, target, queue, seen, level);
      var joltage, depth := queue[0].state, queue[0].depth;
      ghost var current := queue;
      queue := queue[1..];
      var key := JoltageKey(joltage);
      KeysMember(JoltageKey, seen, joltage);
      if key in visited {
        InvSkip(AddJoltage, buttons, start, target, current, seen, level);
        continue;
      }
      if joltage == target {
        FoundIsMinimal(AddJoltage, buttons, start, target, current, seen, level);
        return Found(depth);
      }
      InvExpand(AddJoltage, buttons, start, target, current, seen, level);
      ExpandLength(current, |start|, depth + 1, buttons);
      KeysAdd(JoltageKey, seen, joltage);
      visited := visited + {key};
      seen := seen + {joltage};
      var successors := AppendAll(joltage, depth + 1, buttons);
      queue := queue + successors;
    }
    if queue == [] {
      DrainedMeansUnreachable(AddJoltage, buttons, start, target, seen, level);
      return Unreachable;
    }
    return OutOfFuel;
  }

  /*** The two parts ***/

  /** `ds[i]` is the fewest presses that light machine `i`'s diagram from all lights off. */
  ghost predicate FewestLightPresses(machines: seq<Machine>, ds: seq<nat>)
  {
    |ds| == |machines| &&
    forall i :: 0 <= i < |machines| ==>
      MinimalDepth(Press, machines[i].buttons, CreateInitialState(|machines[i].lights|), machines[i].lights, ds[i])
  }

  /** The machine's light diagram can be reached at all. */
  ghost predicate LightsSolvable(m: Machine)
  {
    Reachable(Press, m.buttons, CreateInitialState(|m.lights|), m.lights)
  }

  lemma SumSnoc(ds: seq<nat>, d: nat)
    ensures Sum(ds + [d]) == Sum(ds) + d
  {
    assert (ds + [d])[..|ds|] == ds;
  }

  /** The `reduce` of `part1`: adds up the fewest presses of each machine; `None` when some
      machine's diagram cannot be reached. */
  method TotalLightPresses(machines: seq<Machine>) returns (r: Option<nat>)
    ensures r.Some? <==> forall i :: 0 <= i < |machines| ==> LightsSolvable(machines[i])
    ensures r.Some? ==> exists ds: seq<nat> :: FewestLightPresses(machines, ds) && Sum(ds) == r.value
  {
    var total: nat := 0;
    ghost var ds: seq<nat> := [];
    for i := 0 to |machines|
      invariant |ds| == i && total == Sum(ds)
      invariant forall k :: 0 <= k < i ==>
        MinimalDepth(Press, machines[k].buttons, CreateInitialState(|machines[k].lights|), machines[k].lights, ds[k])
    {
      var m := machines[i];
      var outcome := Process(CreateInitialState(|m.lights|), m.lights, m.buttons);
      if !outcome.Found? {
        return None;
      }
      SumSnoc(ds, outcome.depth);
      ds := ds + [outcome.depth];
      total := total + outcome.depth;
    }
    assert FewestLightPresses(machines, ds);
    forall k | 0 <= k < |machines| ensures LightsSolvable(machines[k]) {
      var m := machines[k];
      MinimalDepthReachable(Press, m.buttons, CreateInitialState(|m.lights|), m.lights, ds[k]);
    }
    return Some(total);
  }

  /** `part1`: the fewest presses for every machine of the manual, added up. A line that does
      not parse and a machine whose diagram cannot be reached (where the program fails) are
      errors. */
  method Part1(data: seq<string>) returns (r: Result<nat>)
    ensures ParseData(data).Err? ==> r.Err?
    ensures r.Ok? <==> ParseData(data).Ok? && forall i :: 0 <= i < |data| ==> LightsSolvable(ParseData(data).value[i])
    ensures r.Ok? ==> exists ds: seq<nat> :: FewestLightPresses(ParseData(data).value, ds) && Sum(ds) == r.value
  {
    var parsed := ParseData(data);
    if parsed.Err? {
      return Err(parsed.message);
    }
    var total := TotalLightPresses(parsed.value);
    if total.None? {
      return Err("unreachable");
    }
    return Ok(total.value);
  }

  /** `ds[i]` is the fewest presses that take machine `i`'s counters from zero to its
      joltage requirements. */
  ghost predicate FewestJoltagePresses(machines: seq<Machine>, ds: seq<nat>)
  {
    |ds| == |machines| &&
    forall i :: 0 <= i < |machines| ==>
      MinimalDepth(AddJoltage, machines[i].buttons, CreateInitialJoltage(|machines[i].joltage|), machines[i].joltage, ds[i])
  }

  /** Every machine's joltage requirements can be reached at all. */
  ghost predicate JoltageSolvable(machines: seq<Machine>)
  {
    forall i :: 0 <= i < |machines| ==>
      Reachable(AddJoltage, machines[i].buttons, CreateInitialJoltage(|machines[i].joltage|), machines[i].joltage)
  }

  /** The `reduce` of `part2`, each search bounded by `fuel` iterations. */
  method TotalJoltagePresses(machines: seq<Machine>, fuel: nat) returns (r: Result<nat>)
    ensures r.Ok? ==> exists ds: seq<nat> :: FewestJoltagePresses(machines, ds) && Sum(ds) == r.value
    ensures r == Err("unreachable") ==> !JoltageSolvable(machines)
  {
    var total: nat := 0;
    ghost var ds: seq<nat> := [];
    for i := 0 to |machines|
      invariant |ds| == i && total == Sum(ds)
      invariant forall k :: 0 <= k < i ==>
        MinimalDepth(AddJoltage, machines[k].buttons, CreateInitialJoltage(|machines[k].joltage|), machines[k].joltage, ds[k])
    {
      var m := machines[i];
      if !ButtonsInRange(m.buttons, |m.joltage|) {
        return Err("NaN");
      }
      var outcome := ProcessJoltage(m.buttons, CreateInitialJoltage(|m.joltage|), m.joltage, fuel);
      if outcome.Unreachable? {
        return Err("unreachable");
      }
      if outcome.OutOfFuel? {
        return Err("out of fuel");
      }
      SumSnoc(ds, outcome.depth);
      ds := ds + [outcome.depth];
      total := total + outcome.depth;
    }
    assert FewestJoltagePresses(machines, ds);
    return Ok(total);
  }

  /** `part2`: the fewest presses reaching every machine's joltage requirements, added up. */
  method Part2(data: seq<string>, fuel: nat) returns (r: Result<nat>)
    ensures ParseData(data).Err? ==> r.Err?
    ensures r.Ok? ==> ParseData(data).Ok? && exists ds: seq<nat> :: FewestJoltagePresses(ParseData(data).value, ds) && Sum(ds) == r.value
    ensures r == Err("unreachable") ==> ParseData(data).Ok? && !JoltageSolvable(ParseData(data).value)
  {
    var parsed := ParseData(data);
    if parsed.Err? {
      return Err(parsed.message);
    }
    r := TotalJoltagePresses(parsed.value, fuel);
  }
}
