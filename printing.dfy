/** The printing department (day 4): a grid of paper rolls ('@'). A roll can be removed when
    fewer than four of its eight neighbours hold a roll; a pass scans the grid row by row and
    marks each removable roll 'x' in place. A marked roll still counts as occupied, so every
    decision of a pass is the one it would take against the grid as the pass found it. Part 2
    clears the marks and repeats passes until one removes nothing. */
module PrintingDepartment {

  /** A roll, or a roll already marked for removal. */
  predicate IsRollOrRemoved(c: char)
  {
    c == '@' || c == 'x'
  }

  /** The offsets to the eight neighbours, in the order the scan uses. */
  const Deltas: seq<(int, int)> := [(-1, -1), (0, -1), (1, -1), (-1, 0), (1, 0), (-1, 1), (0, 1), (1, 1)]

  /** `surroundingPoints`: the eight points around `(x, y)`. */
  function SurroundingPoints(x: int, y: int): (r: seq<(int, int)>)
    ensures |r| == 8
    ensures forall i, j :: 0 <= i < j < |r| ==> r[i] != r[j]
  {
    seq(8, i requires 0 <= i < 8 => (x + Deltas[i].0, y + Deltas[i].1))
  }

  /** The surrounding points are exactly the points at distance one in each coordinate,
      without the centre. */
  lemma SurroundingExactly(x: int, y: int, p: (int, int))
    ensures p in SurroundingPoints(x, y) <==>
      p != (x, y) && -1 <= p.0 - x <= 1 && -1 <= p.1 - y <= 1
  {
    var r := SurroundingPoints(x, y);
    if p != (x, y) && -1 <= p.0 - x <= 1 && -1 <= p.1 - y <= 1 {
      var d := (p.0 - x, p.1 - y);
      var k := (d.1 + 1) * 3 + (d.0 + 1);
      var i := if k < 4 then k else k - 1;
      assert Deltas[i] == d;
      assert r[i] == p;
    }
  }

  /** `inBounds` as written: `x` is compared with the width and `y` with the height, although
      `x` indexes the rows. */
  predicate InBoundsAsWritten(x: int, y: int, height: int, width: int)
  {
    x >= 0 && y >= 0 && y < height && x < width
  }

  /** The intended bounds check: row `x` below the height, column `y` below the width. */
  predicate InGrid(x: int, y: int, height: int, width: int)
  {
    0 <= x < height && 0 <= y < width
  }

  /** On a square grid the two checks agree. */
  lemma InBoundsOnSquare(x: int, y: int, size: int)
    ensures InBoundsAsWritten(x, y, size, size) <==> InGrid(x, y, size, size)
  {
  }

  /** On a grid of one row and two columns, the written check lets through row 1, which does
      not exist, and rejects column 1, which does. */
  lemma InBoundsWrongOnWideGrid()
    ensures InBoundsAsWritten(1, 0, 1, 2) && !InGrid(1, 0, 1, 2)
    ensures !InBoundsAsWritten(0, 1, 1, 2) && InGrid(0, 1, 1, 2)
  {
  }

  /** The width, read from the first row as `countRolls` does. */
  function Width(grid: seq<seq<char>>): nat
  {
    if grid == [] then 0 else |grid[0]|
  }

  predicate Rectangular(grid: seq<seq<char>>)
  {
    forall x :: 0 <= x < |grid| ==> |grid[x]| == Width(grid)
  }

  /** A point inside the grid holding a roll or a marked roll. */
  predicate Occupied(grid: seq<seq<char>>, p: (int, int))
    requires Rectangular(grid)
  {
    InGrid(p.0, p.1, |grid|, Width(grid)) && IsRollOrRemoved(grid[p.0][p.1])
  }

  /** `countRolls`: how many of the given points are occupied. In-grid here is the corrected
      bounds check (row below the height, column below the width), which agrees with the
      written `inBounds` on square grids. */
  function CountRolls(grid: seq<seq<char>>, surrounding: seq<(int, int)>): (r: nat)
    requires Rectangular(grid)
    ensures r <= |surrounding|
    ensures r == 0 <==> forall i :: 0 <= i < |surrounding| ==> !Occupied(grid, surrounding[i])
    ensures r == |surrounding| <==> forall i :: 0 <= i < |surrounding| ==> Occupied(grid, surrounding[i])
  {
    if surrounding == [] then 0
    else
      var init := surrounding[..|surrounding| - 1];
      var last := surrounding[|surrounding| - 1];
      assert forall i :: 0 <= i < |init| ==> init[i] == surrounding[i];
      CountRolls(grid, init) + if Occupied(grid, last) then 1 else 0
  }

  /** The indices of the occupied points. */
  ghost function OccupiedAt(grid: seq<seq<char>>, surrounding: seq<(int, int)>): set<nat>
    requires Rectangular(grid)
  {
    set i: nat | i < |surrounding| && Occupied(grid, surrounding[i])
  }

  /** `countRolls` counts exactly the occupied points. */
  lemma {:induction false} CountRollsIsOccupied(grid: seq<seq<char>>, surrounding: seq<(int, int)>)
    requires Rectangular(grid)
    ensures CountRolls(grid, surrounding) == |OccupiedAt(grid, surrounding)|
  {
    if surrounding != [] {
      var n := |surrounding| - 1;
      var init := surrounding[..n];
      CountRollsIsOccupied(grid, init);
      var extra: set<nat> := if Occupied(grid, surrounding[n]) then {n} else {};
      assert OccupiedAt(grid, surrounding) == OccupiedAt(grid, init) + extra;
    }
  }

  /** Grids with the same shape and the same occupied cells give the same counts. */
  lemma {:induction false} CountRollsSameOccupancy(g: seq<seq<char>>, h: seq<seq<char>>, surrounding: seq<(int, int)>)
    requires Rectangular(g) && Rectangular(h) && |g| == |h| && Width(g) == Width(h)
    requires forall x, y :: 0 <= x < |g| && 0 <= y < Width(g) ==> IsRollOrRemoved(g[x][y]) == IsRollOrRemoved(h[x][y])
    ensures CountRolls(g, surrounding) == CountRolls(h, surrounding)
  {
    if surrounding != [] {
      CountRollsSameOccupancy(g, h, surrounding[..|surrounding| - 1]);
    }
  }

  /** A cell the pass marks: a roll with fewer than four occupied neighbours. */
  predicate Removable(grid: seq<seq<char>>, x: nat, y: nat)
    requires Rectangular(grid) && x < |grid| && y < Width(grid)
  {
    IsRollOrRemoved(grid[x][y]) && CountRolls(grid, SurroundingPoints(x, y)) < 4
  }

  /** The grid after one pass of `calculate`, every decision taken against `grid`. */
  function Pass(grid: seq<seq<char>>): (r: seq<seq<char>>)
    requires Rectangular(grid)
    ensures |r| == |grid| && Rectangular(r) && Width(r) == Width(grid)
  {
    seq(|grid|, x requires 0 <= x < |grid| =>
      seq(Width(grid), y requires 0 <= y < Width(grid) => if Removable(grid, x, y) then 'x' else grid[x][y]))
  }

  lemma PassAt(grid: seq<seq<char>>, x: nat, y: nat)
    requires Rectangular(grid) && x < |grid| && y < Width(grid)
    ensures Pass(grid)[x][y] == if Removable(grid, x, y) then 'x' else grid[x][y]
  {
  }

  /** The number of removable cells among the first `k` of row `x`. */
  function RemovableInRow(grid: seq<seq<char>>, x: nat, k: nat): nat
    requires Rectangular(grid) && x < |grid| && k <= Width(grid)
  {
    if k == 0 then 0 else RemovableInRow(grid, x, k - 1) + if Removable(grid, x, k - 1) then 1 else 0
  }

  /** The number of removable cells in the first `m` rows. */
  function RemovableInRows(grid: seq<seq<char>>, m: nat): nat
    requires Rectangular(grid) && m <= |grid|
  {
    if m == 0 then 0 else RemovableInRows(grid, m - 1) + RemovableInRow(grid, m - 1, Width(grid))
  }

  function RemovableCount(grid: seq<seq<char>>): nat
    requires Rectangular(grid)
  {
    RemovableInRows(grid, |grid|)
  }

  /** A pass changes a cell only by marking a roll, so occupancy is what it was. */
  lemma PassKeepsOccupancy(grid: seq<seq<char>>)
    requires Rectangular(grid)
    ensures forall x, y :: 0 <= x < |grid| && 0 <= y < Width(grid) ==>
      IsRollOrRemoved(Pass(grid)[x][y]) == IsRollOrRemoved(grid[x][y])
  {
  }

  /** The cells of a two-dimensional array, row by row. */
  function Cells(grid: array2<char>): (r: seq<seq<char>>)
    reads grid
    ensures |r| == grid.Length0 && Rectangular(r)
    ensures grid.Length0 > 0 ==> Width(r) == grid.Length1
    ensures forall x, y :: 0 <= x < grid.Length0 && 0 <= y < grid.Length1 ==> r[x][y] == grid[x, y]
  {
    seq(grid.Length0, x requires 0 <= x < grid.Length0 reads grid =>
      seq(grid.Length1, y requires 0 <= y < grid.Length1 reads grid => grid[x, y]))
  }

  /** A fresh array holding the given rows (`data.map((line) => line.split(""))`). */
  method NewGrid(rows: seq<seq<char>>) returns (grid: array2<char>)
    requires Rectangular(rows)
    ensures fresh(grid) && Cells(grid) == rows
  {
    var width := Width(rows);
    grid := new char[|rows|, width]((x, y) requires 0 <= x < |rows| && 0 <= y < width => rows[x][y]);
    assert forall x :: 0 <= x < |rows| ==> Cells(grid)[x] == rows[x];
  }

  /** The cells scanned before `(x, y)` in row-major order. */
  predicate Before(i: int, j: int, x: int, y: int)
  {
    i < x || (i == x && j < y)
  }

  /** The cells the scan has passed hold their value after the pass, the others their value
      before it. */
  ghost predicate ScannedTo(grid: array2<char>, start: seq<seq<char>>, target: seq<seq<char>>, x: int, y: int)
    reads grid
    requires |start| == grid.Length0 && |target| == grid.Length0
    requires forall i :: 0 <= i < grid.Length0 ==> |start[i]| == grid.Length1 && |target[i]| == grid.Length1
  {
    forall i, j :: 0 <= i < grid.Length0 && 0 <= j < grid.Length1 ==>
      grid[i, j] == if Before(i, j, x, y) then target[i][j] else start[i][j]
  }

  /** A grid whose every cell is either as it was or as the pass leaves it has the same
      occupied cells, so its counts are those of the grid the pass started from. */
  lemma PartialPassCounts(cur: seq<seq<char>>, start: seq<seq<char>>, surrounding: seq<(int, int)>)
    requires Rectangular(start) && Rectangular(cur) && |cur| == |start| && Width(cur) == Width(start)
    requires forall i, j :: 0 <= i < |start| && 0 <= j < Width(start) ==>
      cur[i][j] == start[i][j] || cur[i][j] == Pass(start)[i][j]
    ensures CountRolls(cur, surrounding) == CountRolls(start, surrounding)
  {
    PassKeepsOccupancy(start);
    CountRollsSameOccupancy(cur, start, surrounding);
  }

  /** The decision for one cell, read off the grid as the scan has left it; it is the
      decision against the grid the pass started from. */
  method Decide(grid: array2<char>, x: nat, y: nat, ghost start: seq<seq<char>>) returns (mark: bool)
    requires Rectangular(start) && |start| == grid.Length0 && Width(start) == grid.Length1
    requires x < grid.Length0 && y < grid.Length1 && ScannedTo(grid, start, Pass(start), x, y)
    ensures mark == Removable(start, x, y)
  {
    mark := false;
    var point := grid[x, y];
    if IsRollOrRemoved(point) {
      var surrounding := SurroundingPoints(x, y);
      var counts := CountRolls(Cells(grid), surrounding);
      PartialPassCounts(Cells(grid), start, surrounding);
      mark := counts < 4;
    }
  }

  /** The scan of one row of `calculate`. */
  method CalculateRow(grid: array2<char>, x: nat, total: nat, ghost start: seq<seq<char>>, ghost target: seq<seq<char>>)
    returns (total': nat)
    requires Rectangular(start) && |start| == grid.Length0 && x < grid.Length0 && Width(start) == grid.Length1
    requires target == Pass(start)
    requires ScannedTo(grid, start, target, x, 0)
    requires total == RemovableInRows(start, x)
    modifies grid
    ensures ScannedTo(grid, start, target, x + 1, 0)
    ensures total' == RemovableInRows(start, x + 1)
  {
    total' := total;
    for y := 0 to grid.Length1
      invariant ScannedTo(grid, start, target, x, y)
      invariant total' == RemovableInRows(start, x) + RemovableInRow(start, x, y)
    {
      var mark := Decide(grid, x, y, start);
      PassAt(start, x, y);
      if mark {
        MarkCell(grid, x, y, start, target);
        total' := total' + 1;
      } else {
        ScanUnchanged(grid, x, y, start, target);
      }
    }
    ScanNextRow(grid, x, start, target);
  }

  /** Marking the cell the scan is at. */
  method MarkCell(grid: array2<char>, x: nat, y: nat, ghost start: seq<seq<char>>, ghost target: seq<seq<char>>)
    requires |start| == grid.Length0 && |target| == grid.Length0
    requires forall i :: 0 <= i < grid.Length0 ==> |start[i]| == grid.Length1 && |target[i]| == grid.Length1
    requires x < grid.Length0 && y < grid.Length1 && target[x][y] == 'x'
    requires ScannedTo(grid, start, target, x, y)
    modifies grid
    ensures ScannedTo(grid, start, target, x, y + 1)
  {
    grid[x, y] := 'x';
  }

  /** Passing over a cell the pass leaves as it is. */
  lemma ScanUnchanged(grid: array2<char>, x: nat, y: nat, start: seq<seq<char>>, target: seq<seq<char>>)
    requires |start| == grid.Length0 && |target| == grid.Length0
    requires forall i :: 0 <= i < grid.Length0 ==> |start[i]| == grid.Length1 && |target[i]| == grid.Length1
    requires x < grid.Length0 && y < grid.Length1 && target[x][y] == start[x][y]
    requires ScannedTo(grid, start, target, x, y)
    ensures ScannedTo(grid, start, target, x, y + 1)
  {
  }

  /** The end of a row is the start of the next. */
  lemma ScanNextRow(grid: array2<char>, x: nat, start: seq<seq<char>>, target: seq<seq<char>>)
    requires |start| == grid.Length0 && |target| == grid.Length0
    requires forall i :: 0 <= i < grid.Length0 ==> |start[i]| == grid.Length1 && |target[i]| == grid.Length1
    requires ScannedTo(grid, start, target, x, grid.Length1)
    ensures ScannedTo(grid, start, target, x + 1, 0)
  {
  }

  /** `calculate`: one pass over the grid in place. Every roll with fewer than four occupied
      neighbours in the grid as the pass found it becomes 'x', nothing else changes, and the
      result counts the marked cells. */
  method Calculate(grid: array2<char>) returns (total: nat)
    modifies grid
    ensures Cells(grid) == Pass(old(Cells(grid)))
    ensures total == RemovableCount(old(Cells(grid)))
  {
    ghost var start := Cells(grid);
    ghost var target := Pass(start);
    total := 0;
    for x := 0 to grid.Length0
      invariant ScannedTo(grid, start, target, x, 0)
      invariant total == RemovableInRows(start, x)
    {
      total := CalculateRow(grid, x, total, start, target);
    }
    assert forall x :: 0 <= x < grid.Length0 ==> Cells(grid)[x] == target[x];
  }

  /** `replaceInGrid`: every cell equal to `search` becomes `replace`. */
  function ReplaceInGrid(grid: seq<seq<char>>, search: char, replace: char): (r: seq<seq<char>>)
    ensures |r| == |grid|
    ensures forall x :: 0 <= x < |r| ==> |r[x]| == |grid[x]|
    ensures forall x, y :: 0 <= x < |r| && 0 <= y < |r[x]| ==> r[x][y] == if grid[x][y] == search then replace else grid[x][y]
  {
    seq(|grid|, x requires 0 <= x < |grid| =>
      seq(|grid[x]|, y requires 0 <= y < |grid[x]| => if grid[x][y] == search then replace else grid[x][y]))
  }

  /** After a replacement no cell holds `search` any more, and the cells that did not hold it
      are as they were. */
  lemma ReplaceInGridClears(grid: seq<seq<char>>, search: char, replace: char)
    requires search != replace
    ensures var r := ReplaceInGrid(grid, search, replace);
      && (forall x, y :: 0 <= x < |r| && 0 <= y < |r[x]| ==> r[x][y] != search)
      && (forall x, y :: 0 <= x < |r| && 0 <= y < |r[x]| && grid[x][y] != search ==> r[x][y] == grid[x][y])
  {
  }

  /** `part1`: the number of rolls one pass removes. */
  method Part1(data: seq<seq<char>>) returns (r: nat)
    requires Rectangular(data)
    ensures r == RemovableCount(data)
  {
    var grid := NewGrid(data);
    r := Calculate(grid);
  }

  /*** part2 ***/

  /** No cell is marked. */
  predicate NoMarks(grid: seq<seq<char>>)
  {
    forall x, y :: 0 <= x < |grid| && 0 <= y < |grid[x]| ==> grid[x][y] != 'x'
  }

  /** The occupied cells of a row. */
  function OccupiedInRow(row: seq<char>): nat
  {
    if row == [] then 0 else OccupiedInRow(row[..|row| - 1]) + if IsRollOrRemoved(row[|row| - 1]) then 1 else 0
  }

  /** The occupied cells of the grid; with no marks, the number of rolls. */
  function OccupiedCells(grid: seq<seq<char>>): nat
  {
    if grid == [] then 0 else OccupiedCells(grid[..|grid| - 1]) + OccupiedInRow(grid[|grid| - 1])
  }

  /** One round of `part2`: a pass, then every mark cleared to '.'. */
  function Round(grid: seq<seq<char>>): (r: seq<seq<char>>)
    requires Rectangular(grid)
    ensures |r| == |grid| && Rectangular(r) && Width(r) == Width(grid) && NoMarks(r)
  {
    ReplaceInGridClears(Pass(grid), 'x', '.');
    ReplaceInGrid(Pass(grid), 'x', '.')
  }

  /** The removable count is zero exactly when no cell of the row prefix is removable. */
  lemma {:induction false} NoneRemovableInRow(grid: seq<seq<char>>, x: nat, k: nat)
    requires Rectangular(grid) && x < |grid| && k <= Width(grid)
    ensures RemovableInRow(grid, x, k) == 0 <==> forall y :: 0 <= y < k ==> !Removable(grid, x, y)
  {
    if k > 0 {
      NoneRemovableInRow(grid, x, k - 1);
    }
  }

  lemma {:induction false} NoneRemovableInRows(grid: seq<seq<char>>, m: nat)
    requires Rectangular(grid) && m <= |grid|
    ensures RemovableInRows(grid, m) == 0 <==>
      forall x, y :: 0 <= x < m && 0 <= y < Width(grid) ==> !Removable(grid, x, y)
  {
    if m > 0 {
      NoneRemovableInRows(grid, m - 1);
      NoneRemovableInRow(grid, m - 1, Width(grid));
    }
  }

  /** A pass removes nothing exactly when no cell is removable. */
  lemma NoneRemovable(grid: seq<seq<char>>)
    requires Rectangular(grid)
    ensures RemovableCount(grid) == 0 <==>
      forall x, y :: 0 <= x < |grid| && 0 <= y < Width(grid) ==> !Removable(grid, x, y)
  {
    NoneRemovableInRows(grid, |grid|);
  }

  /** Within a row, a round loses at least the removed cells, and exactly those when nothing
      was marked. */
  lemma {:induction false} RoundRow(grid: seq<seq<char>>, x: nat, k: nat)
    requires Rectangular(grid) && x < |grid| && k <= Width(grid)
    ensures OccupiedInRow(Round(grid)[x][..k]) + RemovableInRow(grid, x, k) <= OccupiedInRow(grid[x][..k])
    ensures NoMarks(grid) ==>
      OccupiedInRow(Round(grid)[x][..k]) + RemovableInRow(grid, x, k) == OccupiedInRow(grid[x][..k])
  {
    if k > 0 {
      RoundRow(grid, x, k - 1);
      PassAt(grid, x, k - 1);
      assert Round(grid)[x][..k][..k - 1] == Round(grid)[x][..k - 1];
      assert grid[x][..k][..k - 1] == grid[x][..k - 1];
    }
  }

  /** Over the first `m` rows, likewise. */
  lemma {:induction false} RoundRows(grid: seq<seq<char>>, m: nat)
    requires Rectangular(grid) && m <= |grid|
    ensures OccupiedCells(Round(grid)[..m]) + RemovableInRows(grid, m) <= OccupiedCells(grid[..m])
    ensures NoMarks(grid) ==> OccupiedCells(Round(grid)[..m]) + RemovableInRows(grid, m) == OccupiedCells(grid[..m])
  {
    if m > 0 {
      RoundRows(grid, m - 1);
      RoundRow(grid, m - 1, Width(grid));
      assert Round(grid)[..m][..m - 1] == Round(grid)[..m - 1];
      assert grid[..m][..m - 1] == grid[..m - 1];
      assert Round(grid)[m - 1][..Width(grid)] == Round(grid)[m - 1];
      assert grid[m - 1][..Width(grid)] == grid[m - 1];
    }
  }

  /** A round loses at least as many occupied cells as the pass removed, and exactly that
      many when nothing was marked. */
  lemma RoundCount(grid: seq<seq<char>>)
    requires Rectangular(grid)
    ensures OccupiedCells(Round(grid)) + RemovableCount(grid) <= OccupiedCells(grid)
    ensures NoMarks(grid) ==> OccupiedCells(Round(grid)) + RemovableCount(grid) == OccupiedCells(grid)
  {
    RoundRows(grid, |grid|);
    assert Round(grid)[..|grid|] == Round(grid);
    assert grid[..|grid|] == grid;
  }

  /** A round of an unmarked grid from which nothing can be removed changes nothing. */
  lemma RoundStable(grid: seq<seq<char>>)
    requires Rectangular(grid) && NoMarks(grid) && RemovableCount(grid) == 0
    ensures Round(grid) == grid
  {
    NoneRemovable(grid);
    forall x | 0 <= x < |grid| ensures Round(grid)[x] == grid[x] {
      forall y | 0 <= y < Width(grid) ensures Round(grid)[x][y] == grid[x][y] {
        PassAt(grid, x, y);
      }
    }
  }

  /** The rolls removed by the rounds of `part2`, up to and including the first that removes
      nothing. */
  function RemovalRounds(grid: seq<seq<char>>): nat
    requires Rectangular(grid)
    decreases OccupiedCells(grid)
  {
    var n := RemovableCount(grid);
    if n == 0 then 0
    else
      RoundCount(grid);
      n + RemovalRounds(Round(grid))
  }

  /** The grid `part2` ends with. */
  function Settled(grid: seq<seq<char>>): (r: seq<seq<char>>)
    requires Rectangular(grid)
    ensures Rectangular(r) && NoMarks(r)
    decreases OccupiedCells(grid)
  {
    if RemovableCount(grid) == 0 then Round(grid)
    else
      RoundCount(grid);
      Settled(Round(grid))
  }

  /** Starting from a grid of rolls and empty cells, `part2` ends at a grid from which nothing
      can be removed, and its result is the number of rolls that went. */
  lemma {:induction false} RemovalRoundsCount(grid: seq<seq<char>>)
    requires Rectangular(grid) && NoMarks(grid)
    ensures RemovableCount(Settled(grid)) == 0
    ensures OccupiedCells(Settled(grid)) <= OccupiedCells(grid)
    ensures RemovalRounds(grid) == OccupiedCells(grid) - OccupiedCells(Settled(grid))
    decreases OccupiedCells(grid)
  {
    RoundCount(grid);
    if RemovableCount(grid) == 0 {
      RoundStable(grid);
    } else {
      RemovalRoundsCount(Round(grid));
    }
  }

  /** `part2`: passes in place, each followed by clearing the marks into a new grid, until a
      pass removes nothing; the result adds up what every pass removed. The loop ends because
      each pass that removes something lowers the number of occupied cells. */
  method Part2(data: seq<seq<char>>) returns (r: nat)
    requires Rectangular(data)
    ensures r == RemovalRounds(data)
  {
    var grid := NewGrid(data);
    var totalt := 0;
    var done := false;
    while !done
      invariant fresh(grid)
      invariant totalt + (if done then 0 else RemovalRounds(Cells(grid))) == RemovalRounds(data)
      decreases OccupiedCells(Cells(grid)), !done
    {
      ghost var g := Cells(grid);
      var current := Calculate(grid);
      totalt := totalt + current;
      RoundCount(g);
      grid := NewGrid(ReplaceInGrid(Cells(grid), 'x', '.'));
      assert Cells(grid) == Round(g);
      done := current == 0;
    }
    r := totalt;
  }
}
