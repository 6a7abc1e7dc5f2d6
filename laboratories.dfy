/** The laboratories (day 7): a beam enters a tachyon manifold at 'S' and falls straight down
    through empty cells '.', marking them '|'; a splitter '^' stops it and starts two beams in
    the columns to its left and right. Part 1 counts the splits. */
module Laboratories {
  import opened Common

  type Grid = seq<seq<char>>

  /** A cell as `[x, y]`: column, then row. Columns may leave the grid on either side. */
  type Point = (int, int)

  /** The direction the beam falls in. */
  const BeamDirectionDelta: Point := (0, 1)

  /** `beamDirectionNext`: the cell below. */
  function BeamDirectionNext(p: Point): (r: Point)
    ensures r.0 == p.0 && r.1 == p.1 + 1
  {
    (p.0 + BeamDirectionDelta.0, p.1 + BeamDirectionDelta.1)
  }

  /** `row.indexOf(c)`: the first position of `c`, or -1. */
  function IndexOf(row: seq<char>, c: char): (r: int)
    ensures r == -1 <==> c !in row
    ensures r != -1 ==> 0 <= r < |row| && row[r] == c && c !in row[..r]
  {
    if row == [] then -1
    else if row[0] == c then 0
    else
      var k := IndexOf(row[1..], c);
      assert row[1..] == row[..|row|][1..];
      if k == -1 then -1
      else
        assert row[..k + 1] == [row[0]] + row[1..][..k];
        k + 1
  }

  /** The `reduce` of `findStart`: the first row holding `c`, with the first position of `c`
      in it. */
  function FindStartFold(grid: Grid, c: char): (r: Option<Point>)
    ensures r.None? <==> forall y :: 0 <= y < |grid| ==> c !in grid[y]
    ensures r.Some? ==> var (x, y) := r.value;
      && 0 <= y < |grid| && 0 <= x < |grid[y]| && grid[y][x] == c && c !in grid[y][..x]
      && forall y' :: 0 <= y' < y ==> c !in grid[y']
  {
    if grid == [] then None
    else
      var init, row := grid[..|grid| - 1], grid[|grid| - 1];
      assert forall y :: 0 <= y < |init| ==> init[y] == grid[y];
      match FindStartFold(init, c)
      case Some(p) => Some(p)
      case None =>
        var x := IndexOf(row, c);
        if x != -1 then Some((x, |grid| - 1)) else None
  }

  /** `findStart`: the first cell holding `c`, row by row; an error when no row holds it. */
  function FindStart(grid: Grid, c: char): (r: Result<Point>)
    ensures r.Err? <==> forall y :: 0 <= y < |grid| ==> c !in grid[y]
    ensures r.Ok? ==> var (x, y) := r.value;
      && 0 <= y < |grid| && 0 <= x < |grid[y]| && grid[y][x] == c && c !in grid[y][..x]
      && forall y' :: 0 <= y' < y ==> c !in grid[y']
  {
    match FindStartFold(grid, c)
    case None => Err("Hittade inte start")
    case Some(p) => Ok(p)
  }

  /** Two grids with the same number of rows and the same row lengths. */
  predicate SameShape(a: Grid, b: Grid)
  {
    |a| == |b| && forall j :: 0 <= j < |a| ==> |a[j]| == |b[j]|
  }

  /** `replaceInGrid`: a copy of the grid with `value` at `p`, when `p` is in it. */
  function ReplaceInGrid(grid: Grid, p: Point, value: char): (r: Grid)
    ensures SameShape(r, grid)
    ensures forall j, i :: 0 <= j < |grid| && 0 <= i < |grid[j]| ==>
      r[j][i] == if (i, j) == p then value else grid[j][i]
  {
    if 0 <= p.1 < |grid| && 0 <= p.0 < |grid[p.1]| then grid[p.1 := grid[p.1][p.0 := value]] else grid
  }

  /** The row test of `shootBeam` reads the length of the first row, so every row it reaches
      exists only when there are more rows than columns. */
  predicate Tall(grid: Grid)
  {
    |grid| > 0 && |grid[0]| < |grid|
  }

  /** `after` differs from `before` only where a beam was drawn. */
  predicate OnlyBeams(before: Grid, after: Grid)
    requires SameShape(before, after)
  {
    forall j, i :: 0 <= j < |before| && 0 <= i < |before[j]| ==> after[j][i] == before[j][i] || after[j][i] == '|'
  }

  /** The character at `(x, y)`, when that cell exists. */
  function At(grid: Grid, x: int, y: int): Option<char>
  {
    if 0 <= y < |grid| && 0 <= x < |grid[y]| then Some(grid[y][x]) else None
  }

  /** `shootBeam`: the grid with the beam from below the start cell `(sx, sy)` drawn in, and
      the number of splits on its way. Each step looks at the cell `BeamDirectionNext` gives,
      written out here as `(sx, sy + 1)`. */
  function ShootBeam(grid: Grid, sx: int, sy: nat): (r: (Grid, nat))
    requires Tall(grid)
    ensures SameShape(r.0, grid)
    decreases |grid[0]| + 1 - sy
  {
    var x, y := sx, sy + 1;
    if y > |grid[0]| then (grid, 0)
    else if At(grid, x, y) == Some('.') then
      var down := ReplaceInGrid(grid, (x, y), '|');
      ShootBeam(down, x, y)
    else if At(grid, x, y) == Some('^') then
      var left := ReplaceInGrid(grid, (x - 1, y), '|');
      var leftShot := ShootBeam(left, x - 1, y);
      var right := ReplaceInGrid(leftShot.0, (x + 1, y), '|');
      var rightShot := ShootBeam(right, x + 1, y);
      (rightShot.0, leftShot.1 + rightShot.1 + 1)
    else (grid, 0)
  }

  /** Writing '|' into a cell only draws a beam. */
  lemma ReplaceDraws(grid: Grid, p: Point)
    ensures OnlyBeams(grid, ReplaceInGrid(grid, p, '|'))
  {
  }

  /** Drawing beams twice only draws beams. */
  lemma OnlyBeamsTrans(a: Grid, b: Grid, c: Grid)
    requires SameShape(a, b) && SameShape(b, c)
    requires OnlyBeams(a, b) && OnlyBeams(b, c)
    ensures SameShape(a, c) && OnlyBeams(a, c)
  {
  }

  /** The beam only draws: every cell keeps its character or becomes '|'. */
  lemma {:induction false} ShootBeamDraws(grid: Grid, sx: int, sy: nat)
    requires Tall(grid)
    ensures OnlyBeams(grid, ShootBeam(grid, sx, sy).0)
    decreases |grid[0]| + 1 - sy
  {
    var x, y := sx, sy + 1;
    if y <= |grid[0]| && At(grid, x, y) == Some('.') {
      var down := ReplaceInGrid(grid, (x, y), '|');
      ShootBeamDraws(down, x, y);
      var downShot := ShootBeam(down, x, y);
      ShootBeamFalls(grid, sx, sy, downShot);
      DrawThenBeam(grid, (x, y), downShot.0);
    } else if y <= |grid[0]| && At(grid, x, y) == Some('^') {
      var left := ReplaceInGrid(grid, (x - 1, y), '|');
      ShootBeamDraws(left, x - 1, y);
      var leftShot := ShootBeam(left, x - 1, y);
      var right := ReplaceInGrid(leftShot.0, (x + 1, y), '|');
      ShootBeamDraws(right, x + 1, y);
      var rightShot := ShootBeam(right, x + 1, y);
      ShootBeamSplitsAt(grid, sx, sy, leftShot.0, leftShot.1, rightShot.0, rightShot.1);
      DrawThenBeam(grid, (x - 1, y), leftShot.0);
      DrawThenBeam(leftShot.0, (x + 1, y), rightShot.0);
      OnlyBeamsTrans(grid, leftShot.0, rightShot.0);
    } else {
      ShootBeamStops(grid, sx, sy);
    }
  }

  /** Drawing a '|' at `p` and then only beams leaves only beams drawn. */
  lemma DrawThenBeam(grid: Grid, p: Point, after: Grid)
    requires SameShape(after, ReplaceInGrid(grid, p, '|'))
    requires OnlyBeams(ReplaceInGrid(grid, p, '|'), after)
    ensures SameShape(grid, after) && OnlyBeams(grid, after)
  {
    ReplaceDraws(grid, p);
    OnlyBeamsTrans(grid, ReplaceInGrid(grid, p, '|'), after);
  }

  /** The beam leaves the rows down to its start as they were. */
  lemma {:induction false} ShootBeamKeepsAbove(grid: Grid, sx: int, sy: nat)
    requires Tall(grid)
    ensures forall j :: 0 <= j <= sy && j < |grid| ==> ShootBeam(grid, sx, sy).0[j] == grid[j]
    decreases |grid[0]| + 1 - sy
  {
    var x, y := sx, sy + 1;
    if y <= |grid[0]| && At(grid, x, y) == Some('.') {
      var down := ReplaceInGrid(grid, (x, y), '|');
      ShootBeamKeepsAbove(down, x, y);
      ShootBeamFalls(grid, sx, sy, ShootBeam(down, x, y));
    } else if y <= |grid[0]| && At(grid, x, y) == Some('^') {
      var left := ReplaceInGrid(grid, (x - 1, y), '|');
      ShootBeamKeepsAbove(left, x - 1, y);
      var leftShot := ShootBeam(left, x - 1, y);
      var right := ReplaceInGrid(leftShot.0, (x + 1, y), '|');
      ShootBeamKeepsAbove(right, x + 1, y);
      var rightShot := ShootBeam(right, x + 1, y);
      ShootBeamSplitsAt(grid, sx, sy, leftShot.0, leftShot.1, rightShot.0, rightShot.1);
      forall j | 0 <= j <= sy && j < |grid| ensures rightShot.0[j] == grid[j] {
        assert rightShot.0[j] == right[j] == leftShot.0[j] == left[j];
      }
    } else {
      ShootBeamStops(grid, sx, sy);
    }
  }

  /** Falling straight down from below `(x, y)` through empty cells, the beam meets a
      splitter before it stops. */
  predicate ReachesSplitter(grid: Grid, x: int, y: int)
    requires Tall(grid) && y >= 0
    decreases |grid[0]| + 1 - y
  {
    var y' := y + 1;
    if y' > |grid[0]| then false
    else if At(grid, x, y') == Some('.') then ReachesSplitter(grid, x, y')
    else At(grid, x, y') == Some('^')
  }

  /** Only the rows below `y` decide whether the beam meets a splitter. */
  lemma {:induction false} ReachesSplitterBelow(a: Grid, b: Grid, x: int, y: int)
    requires Tall(a) && Tall(b) && y >= 0 && SameShape(a, b)
    requires forall j :: y < j < |a| ==> a[j] == b[j]
    ensures ReachesSplitter(a, x, y) == ReachesSplitter(b, x, y)
    decreases |a[0]| + 1 - y
  {
    if y + 1 <= |a[0]| {
      assert At(a, x, y + 1) == At(b, x, y + 1);
      ReachesSplitterBelow(a, b, x, y + 1);
    }
  }

  /** The beam counts a split exactly when, falling straight down, it meets a splitter. */
  lemma {:induction false} ShootBeamSplits(grid: Grid, sx: int, sy: nat)
    requires Tall(grid)
    ensures ShootBeam(grid, sx, sy).1 > 0 <==> ReachesSplitter(grid, sx, sy)
    decreases |grid[0]| + 1 - sy
  {
    var x, y := sx, sy + 1;
    if y <= |grid[0]| && At(grid, x, y) == Some('.') {
      var down := ReplaceInGrid(grid, (x, y), '|');
      ShootBeamSplits(down, x, y);
      ReachesSplitterBelow(down, grid, x, y);
    }
  }

  /** Once the beam below `(sx, sy)` leaves the grid's rows, or meets anything but '.' and
      '^', nothing is drawn and nothing counted. */
  lemma ShootBeamStops(grid: Grid, sx: int, sy: nat)
    requires Tall(grid)
    requires sy + 1 > |grid[0]| || (At(grid, sx, sy + 1) != Some('.') && At(grid, sx, sy + 1) != Some('^'))
    ensures ShootBeam(grid, sx, sy) == (grid, 0)
  {
  }

  /** A beam over an empty cell marks it and falls on from there. */
  lemma ShootBeamFalls(grid: Grid, x: int, y: nat, r: (Grid, nat))
    requires Tall(grid) && y + 1 <= |grid[0]| && At(grid, x, y + 1) == Some('.')
    requires ShootBeam(ReplaceInGrid(grid, (x, y + 1), '|'), x, y + 1) == r
    ensures ShootBeam(grid, x, y) == r
  {
  }

  /** A beam over a splitter marks the cell on its left and shoots from there, then marks the
      cell on its right in the resulting grid and shoots from there, adding one split. */
  lemma ShootBeamSplitsAt(grid: Grid, x: int, y: nat, leftShot: Grid, leftCount: nat, rightShot: Grid, rightCount: nat)
    requires Tall(grid) && y + 1 <= |grid[0]| && At(grid, x, y + 1) == Some('^')
    requires ShootBeam(ReplaceInGrid(grid, (x - 1, y + 1), '|'), x - 1, y + 1) == (leftShot, leftCount)
    requires ShootBeam(ReplaceInGrid(leftShot, (x + 1, y + 1), '|'), x + 1, y + 1) == (rightShot, rightCount)
    ensures ShootBeam(grid, x, y) == (rightShot, leftCount + rightCount + 1)
  {
  }

  /** When the beam below `(sx, sy)` meets a splitter, both cells beside the splitter end up
      as '|', whatever they held: a splitter there is overwritten, and a later beam stops at it
      instead of splitting. */
  lemma SplitterMarksSides(grid: Grid, sx: int, sy: nat)
    requires Tall(grid) && sy + 1 <= |grid[0]| && At(grid, sx, sy + 1) == Some('^')
    ensures 0 < sx <= |grid[sy + 1]| ==> ShootBeam(grid, sx, sy).0[sy + 1][sx - 1] == '|'
    ensures 0 <= sx + 1 < |grid[sy + 1]| ==> ShootBeam(grid, sx, sy).0[sy + 1][sx + 1] == '|'
  {
    var y := sy + 1;
    var left := ReplaceInGrid(grid, (sx - 1, y), '|');
    ShootBeamKeepsAbove(left, sx - 1, y);
    var leftShot := ShootBeam(left, sx - 1, y);
    var right := ReplaceInGrid(leftShot.0, (sx + 1, y), '|');
    ShootBeamKeepsAbove(right, sx + 1, y);
    var rightShot := ShootBeam(right, sx + 1, y);
    assert leftShot.0[y] == left[y] && rightShot.0[y] == right[y];
    ShootBeamSplitsAt(grid, sx, sy, leftShot.0, leftShot.1, rightShot.0, rightShot.1);
    SidesStayMarked(grid, sx, y, left, leftShot.0, right, rightShot.0);
  }

  /** The cells beside the splitter at `(x, y)`, once marked, are kept by two beams that
      leave row `y` as it was. */
  lemma SidesStayMarked(grid: Grid, x: int, y: nat, left: Grid, leftShot: Grid, right: Grid, rightShot: Grid)
    requires y < |grid|
    requires left == ReplaceInGrid(grid, (x - 1, y), '|') && SameShape(leftShot, left) && leftShot[y] == left[y]
    requires right == ReplaceInGrid(leftShot, (x + 1, y), '|') && SameShape(rightShot, right) && rightShot[y] == right[y]
    ensures 0 < x <= |grid[y]| ==> rightShot[y][x - 1] == '|'
    ensures 0 <= x + 1 < |grid[y]| ==> rightShot[y][x + 1] == '|'
  {
    if 0 < x <= |grid[y]| {
      assert left[y][x - 1] == '|';
      assert right[y][x - 1] == leftShot[y][x - 1];
    }
    if 0 <= x + 1 < |grid[y]| {
      assert right[y][x + 1] == '|';
    }
  }

  /** `part1`: the splits of the beam from 'S'; an error when the manifold has no 'S'. */
  function Part1(data: seq<string>): (r: Result<nat>)
    requires Tall(data)
    ensures r.Err? <==> forall y :: 0 <= y < |data| ==> 'S' !in data[y]
    ensures r.Ok? ==> (r.value > 0 <==> ReachesSplitter(data, FindStart(data, 'S').value.0, FindStart(data, 'S').value.1))
  {
    match FindStart(data, 'S')
    case Err(e) => Err(e)
    case Ok(start) =>
      ShootBeamSplits(data, start.0, start.1);
      Ok(ShootBeam(data, start.0, start.1).1)
  }

  /** A manifold whose splitters at (0, 2) and (2, 2) both send a side beam into (1, 2), so
      the splitter at (1, 3) below it fires twice. */
  const SharedBelow: Grid := [".S.", ".^.", "^.^", ".^."]

  /** In a manifold of three columns and four rows, a beam from (1, 2) over the splitter at
      (1, 3) splits once and marks the two cells beside it. */
  lemma SplitOnLastRow(grid: Grid)
    requires |grid| == 4 && |grid[0]| == 3 && |grid[3]| == 3 && grid[3][1] == '^'
    ensures ShootBeam(grid, 1, 2).1 == 1
    ensures ShootBeam(grid, 1, 2).0[..3] == grid[..3] && ShootBeam(grid, 1, 2).0[3] == "|^|"
  {
    var left := ReplaceInGrid(grid, (0, 3), '|');
    ShootBeamStops(left, 0, 3);
    var right := ReplaceInGrid(left, (2, 3), '|');
    ShootBeamStops(right, 2, 3);
    ShootBeamSplitsAt(grid, 1, 2, left, 0, right, 0);
    assert right[3] == "|^|";
  }

  /** In `SharedBelow`, the left beam of the first splitter: the splitter at (0, 2), then
      through (1, 2) the one at (1, 3). */
  lemma SharedBelowLeft(grid: Grid)
    requires |grid| == 4 && |grid[0]| == 3 && grid[2] == "^.^" && grid[3] == ".^."
    ensures ShootBeam(grid, 0, 1).1 == 2
    ensures ShootBeam(grid, 0, 1).0[2] == "^|^" && ShootBeam(grid, 0, 1).0[3] == "|^|"
  {
    var outside := ReplaceInGrid(grid, (-1, 2), '|');
    ShootBeamStops(outside, -1, 2);
    var right := ReplaceInGrid(outside, (1, 2), '|');
    SplitOnLastRow(right);
    var rightShot := ShootBeam(right, 1, 2);
    ShootBeamSplitsAt(grid, 0, 1, outside, 0, rightShot.0, 1);
    assert right[2] == "^|^";
  }

  /** In `SharedBelow`, the right beam of the first splitter: the splitter at (2, 2), then
      again through (1, 2) the one at (1, 3). */
  lemma SharedBelowRight(grid: Grid)
    requires |grid| == 4 && |grid[0]| == 3 && grid[2] == "^|^" && grid[3] == "|^|"
    ensures ShootBeam(grid, 2, 1).1 == 2
  {
    var left := ReplaceInGrid(grid, (1, 2), '|');
    SplitOnLastRow(left);
    var leftShot := ShootBeam(left, 1, 2);
    var outside := ReplaceInGrid(leftShot.0, (3, 2), '|');
    ShootBeamStops(outside, 3, 2);
    ShootBeamSplitsAt(grid, 2, 1, leftShot.0, 1, outside, 0);
  }

  /** The side beams of a splitter restart from their cell without testing it, so a splitter
      below two converging side beams is counted once per beam: four splitters, five splits. */
  lemma SharedBeamCountedTwice(grid: Grid)
    requires grid == SharedBelow
    ensures forall y, x :: 0 <= y < |grid| && 0 <= x < |grid[y]| ==>
      (grid[y][x] == '^' <==> (x, y) in {(1, 1), (0, 2), (2, 2), (1, 3)})
    ensures ShootBeam(grid, 1, 0).1 == 5
  {
    var left := ReplaceInGrid(grid, (0, 1), '|');
    SharedBelowLeft(left);
    var leftShot := ShootBeam(left, 0, 1);
    var right := ReplaceInGrid(leftShot.0, (2, 1), '|');
    SharedBelowRight(right);
  }

  /** A manifold with a splitter at (2, 1) right beside the one the beam meets at (1, 1). */
  const SplitterBeside: Grid := [".S.", ".^^", "...", "..."]

  /** The side write of a splitter overwrites a splitter beside it with '|', so that one never
      fires: two splitters in the beam's way, one split. */
  lemma SplitterBesideOverwritten(grid: Grid)
    requires grid == SplitterBeside
    ensures grid[1][1] == '^' && grid[1][2] == '^'
    ensures ShootBeam(grid, 1, 0).1 == 1 && ShootBeam(grid, 1, 0).0[1][2] == '|'
  {
    var g1 := ReplaceInGrid(grid, (0, 1), '|');
    var g2 := ReplaceInGrid(g1, (0, 2), '|');
    var g3 := ReplaceInGrid(g2, (0, 3), '|');
    ShootBeamStops(g3, 0, 3);
    ShootBeamFalls(g2, 0, 2, (g3, 0));
    ShootBeamFalls(g1, 0, 1, (g3, 0));
    var g4 := ReplaceInGrid(g3, (2, 1), '|');
    var g5 := ReplaceInGrid(g4, (2, 2), '|');
    var g6 := ReplaceInGrid(g5, (2, 3), '|');
    ShootBeamStops(g6, 2, 3);
    ShootBeamFalls(g5, 2, 2, (g6, 0));
    ShootBeamFalls(g4, 2, 1, (g6, 0));
    ShootBeamSplitsAt(grid, 1, 0, g3, 0, g6, 0);
  }
}
