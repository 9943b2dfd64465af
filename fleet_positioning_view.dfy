/**
 * The fleet-positioning view with its widgets stripped away: a `height` x `width` grid of cell
 * states indexed [y, x], and the boat currently being placed. Each method is proved to leave the
 * grid equal to the corresponding function of module Selection applied to the grid it started from.
 */
module Positioning {

  import opened Wrappers
  import opened Grid
  import Boats
  import opened Selection
  import opened RefreshSteps

  function Abs(n: int): nat
  {
    if n < 0 then -n else n
  }

  class FleetPositioningView {

    const width: nat
    const height: nat

    /** The state of every selection cell, indexed [y, x]. */
    const cells: array2<State>

    /** The boat being placed, if any; only its size matters here. */
    var selectedBoat: Option<Boats.Boat>

    ghost predicate Valid()
    {
      cells.Length0 == height && cells.Length1 == width
    }

    /** The grid as a value, row by row. */
    ghost function Snap(): (g: Snapshot)
      reads cells
      requires Valid()
      ensures |g| == height && Rectangular(g)
      ensures forall j :: 0 <= j < height ==> |g[j]| == width
      ensures forall j, i :: 0 <= j < height && 0 <= i < width ==> g[j][i] == cells[j, i]
    {
      seq(cells.Length0, j requires 0 <= j < cells.Length0 reads cells =>
        seq(cells.Length1, i requires 0 <= i < cells.Length1 reads cells => cells[j, i]))
    }

    /** A view over a fresh grid in which every cell may be picked and no boat is selected. */
    constructor (width: nat, height: nat)
      ensures Valid() && this.width == width && this.height == height && fresh(cells)
      ensures selectedBoat == None
      ensures forall j, i :: 0 <= j < height && 0 <= i < width ==> cells[j, i] == Selectable
    {
      this.width := width;
      this.height := height;
      cells := new State[height, width]((j, i) => Selectable);
      selectedBoat := None;
    }

    /** Picking a boat in the boat list makes it the one being placed. */
    method SelectBoat(boat: Boats.Boat)
      modifies this
      ensures selectedBoat == Some(boat)
    {
      selectedBoat := Some(boat);
    }

    /**
     * A click on the cell `clickCase`. Without a selected boat nothing happens. Otherwise the cell is
     * toggled and the grid refreshed; when the number of chosen cells then equals the boat's size, the
     * chosen cells become boat cells, unselectable cells are reopened and the boat is deselected.
     */
    method ActionPerformed(clickCase: Coordinates)
      requires Valid() && 0 <= clickCase.y < height && 0 <= clickCase.x < width
      modifies cells, this
      ensures old(selectedBoat).None? ==> selectedBoat == None && Snap() == old(Snap())
      ensures old(selectedBoat).Some? ==>
        var size := Boats.Size(old(selectedBoat).value);
        && Snap() == Clicked(old(Snap()), size, clickCase)
        && selectedBoat == if Commits(old(Snap()), size, clickCase) then None else old(selectedBoat)
    {
      if selectedBoat.None? {
        return;
      }
      ghost var g := Snap();
      cells[clickCase.y, clickCase.x] := if cells[clickCase.y, clickCase.x] == Choosed then Selectable else Choosed;
      SnapshotsEqual(Snap(), Toggled(g, clickCase));

      Refresh();
      ghost var r := Snap();

      // Commit once the boat has all its cells
      var choosedCases := GetSelectedCases(Choosed);
      if |choosedCases| == Boats.Size(selectedBoat.value) {
        SetStates(choosedCases, Boat);
        ghost var m := Snap();
        var unselectableCases := GetSelectedCases(Unselectable);
        SetStates(unselectableCases, Selectable);
        selectedBoat := None;
        CommitSteps(r, choosedCases, m, unselectableCases, Snap());
      }
    }

    /**
     * Walks from `coordinates` in direction `dir` while the cell is inside the grid, holds no boat and
     * lies fewer than `size` steps from the start, then reports the y coordinate (Top, Bottom) or the
     * x coordinate (Left, Right) where the walk stopped.
     */
    method GetLastAvailable(coordinates: Coordinates, dir: Direction, size: int) returns (r: int)
      requires Valid()
      ensures r == LastAvailable(Snap(), coordinates, dir, size)
    {
      ghost var g := Snap();
      var x := coordinates.x;
      var y := coordinates.y;
      ghost var k: nat := 0;
      while 0 <= x < width && 0 <= y < height && cells[y, x] != Boat
            && Abs(x - coordinates.x) + Abs(y - coordinates.y) < size
        invariant Coordinates(x, y) == Pos(coordinates, dir, k)
        invariant Abs(x - coordinates.x) + Abs(y - coordinates.y) == k
        invariant Reach(g, coordinates, dir, size, k) == Reach(g, coordinates, dir, size, 0)
        decreases size - k
      {
        x := x + dir.SensX();
        y := y + dir.SensY();
        k := k + 1;
      }
      r := if dir.IsHorizontal() then y else x;
    }

    /** The cells whose state is `state`, in row-major order. */
    method GetSelectedCases(state: State) returns (selectedCases: seq<Coordinates>)
      requires Valid()
      ensures selectedCases == Select(Snap(), state)
      ensures forall c :: c in selectedCases <==> 0 <= c.y < height && 0 <= c.x < width && cells[c.y, c.x] == state
      ensures RowMajorSorted(selectedCases)
    {
      ghost var g := Snap();
      selectedCases := [];
      var j := 0;
      while j < height
        invariant 0 <= j <= height
        invariant selectedCases == SelectRows(g, state, j)
      {
        var i := 0;
        while i < width
          invariant 0 <= i <= width
          invariant selectedCases == SelectRows(g, state, j) + RowSelect(g[j], j, state, i)
        {
          if cells[j, i] == state {
            selectedCases := selectedCases + [Coordinates(i, j)];
          }
          i := i + 1;
        }
        j := j + 1;
      }
      SelectMembers(g, state);
      SelectSorted(g, state);
    }

    /** Recomputes which cells may still be picked, from the chosen cells and the selected boat's size. */
    method Refresh()
      requires Valid() && selectedBoat.Some?
      modifies cells
      ensures Snap() == Refreshed(old(Snap()), Boats.Size(selectedBoat.value))
    {
      ghost var g := Snap();
      // Reopen every cell that is neither a boat nor chosen
      MapGrid(ResetRule);
      ghost var s0 := Snap();
      // The cells chosen so far, in row-major order
      var selectedCases := GetSelectedCases(Choosed);
      ResetKeepsBoatsAndChoices(g);
      if |selectedCases| == 0 {
        MapGrid(ClearRule);
        NoneSteps(g, Boats.Size(selectedBoat.value), Snap());
      } else if |selectedCases| == 1 {
        assert selectedCases == [selectedCases[0]];
        RefreshCross(g, selectedCases[0]);
      } else {
        RefreshLine(g, selectedCases[0], selectedCases[|selectedCases| - 1]);
      }
    }

    /** The refresh with one chosen cell `selected`, on a grid `g` whose reset is the current grid. */
    method RefreshCross(ghost g: Snapshot, selected: Coordinates)
      requires Valid() && selectedBoat.Some?
      requires |g| == height && forall j :: 0 <= j < height ==> |g[j]| == width
      requires Select(g, Choosed) == [selected]
      requires Snap() == MapCells(g, ResetRule)
      modifies cells
      ensures Snap() == Refreshed(g, Boats.Size(selectedBoat.value))
    {
      ChosenEnds(g);
      var size := Boats.Size(selectedBoat.value);
      var x := selected.x;
      var y := selected.y;
      // Close every cell off the row and the column of the chosen cell
      MapGrid(OffCrossRule(selected));
      ghost var s1 := Snap();
      // Along the row: close what the walks left and right cannot reach
      var left := GetLastAvailable(selected, Left, size - 1);
      var right := GetLastAvailable(selected, Right, size - 1);
      LastAvailableAround(s1, selected, size - 1);
      UnselectRowOutside(y, left, right);
      ghost var s3 := Snap();
      // Along the column: close what the walks up and down cannot reach
      var top := GetLastAvailable(selected, Top, size - 1);
      var bottom := GetLastAvailable(selected, Bottom, size - 1);
      LastAvailableAround(s3, selected, size - 1);
      UnselectColumnOutside(x, top, bottom);
      CrossKeepsBoats(g, selected, width, s1, left, right, s3);
      LastAvailableSameBoats(s1, g, selected, Left, size - 1);
      LastAvailableSameBoats(s1, g, selected, Right, size - 1);
      LastAvailableSameBoats(s3, g, selected, Top, size - 1);
      LastAvailableSameBoats(s3, g, selected, Bottom, size - 1);
      CrossSteps(g, size, selected, width, s1, left, right, s3, top, bottom, Snap());
    }

    /**
     * The refresh with several chosen cells, `first` and `last` in row-major order, on a grid `g`
     * whose reset is the current grid: the chosen run lies along the row of both when they share one,
     * along the column of `first` otherwise.
     */
    method RefreshLine(ghost g: Snapshot, first: Coordinates, last: Coordinates)
      requires Valid() && selectedBoat.Some?
      requires |g| == height && forall j :: 0 <= j < height ==> |g[j]| == width
      requires |Select(g, Choosed)| >= 2
      requires first == Select(g, Choosed)[0] && last == Select(g, Choosed)[|Select(g, Choosed)| - 1]
      requires Snap() == MapCells(g, ResetRule)
      modifies cells
      ensures Snap() == Refreshed(g, Boats.Size(selectedBoat.value))
    {
      ChosenEnds(g);
      if first.y == last.y {
        RefreshRow(g, first, last);
      } else {
        RefreshColumn(g, first, last);
      }
    }

    /** The horizontal branch of `RefreshLine`. */
    method RefreshRow(ghost g: Snapshot, first: Coordinates, last: Coordinates)
      requires Valid() && selectedBoat.Some?
      requires |g| == height && forall j :: 0 <= j < height ==> |g[j]| == width
      requires |Select(g, Choosed)| >= 2
      requires first == Select(g, Choosed)[0] && last == Select(g, Choosed)[|Select(g, Choosed)| - 1]
      requires InGrid(g, first) && At(g, first) == Choosed && InGrid(g, last) && At(g, last) == Choosed
      requires first.y == last.y
      requires Snap() == MapCells(g, ResetRule)
      modifies cells
      ensures Snap() == Refreshed(g, Boats.Size(selectedBoat.value))
    {
      var boatSize := Boats.Size(selectedBoat.value);
      var y := first.y;
      JoinRow(g, first, last);
      ghost var s2 := Snap();
      // How far the boat can still stretch beyond the run
      var size := boatSize - ((last.x - first.x) + 1);
      var left := GetLastAvailable(first, Left, size);
      var right := GetLastAvailable(last, Right, size);
      RowWalks(g, first, last, s2, size, left, right);
      UnselectRowOutside(y, left, right);
      ghost var s4 := Snap();
      assert s4 == MapRowRange(MapRowRange(s2, first.y, 0, left, UnselectRule), first.y, right + 1, width, UnselectRule);
      RowSteps(g, boatSize, first, last, width, s2, size, left, right, s4);
    }

    /** The vertical branch of `RefreshLine`. */
    method RefreshColumn(ghost g: Snapshot, first: Coordinates, last: Coordinates)
      requires Valid() && selectedBoat.Some?
      requires |g| == height && forall j :: 0 <= j < height ==> |g[j]| == width
      requires |Select(g, Choosed)| >= 2
      requires first == Select(g, Choosed)[0] && last == Select(g, Choosed)[|Select(g, Choosed)| - 1]
      requires InGrid(g, first) && At(g, first) == Choosed && InGrid(g, last) && At(g, last) == Choosed
      requires first.y != last.y
      requires Snap() == MapCells(g, ResetRule)
      modifies cells
      ensures Snap() == Refreshed(g, Boats.Size(selectedBoat.value))
    {
      var boatSize := Boats.Size(selectedBoat.value);
      var x := first.x;
      JoinColumn(g, first, last);
      ghost var s2 := Snap();
      // How far the boat can still stretch beyond the run
      var size := boatSize - ((last.y - first.y) + 1);
      var top := GetLastAvailable(first, Top, size);
      var bottom := GetLastAvailable(last, Bottom, size);
      ColumnWalks(g, first, last, s2, size, top, bottom);
      UnselectColumnOutside(x, top, bottom);
      ghost var s4 := Snap();
      assert s4 == MapColumnRange(MapColumnRange(s2, first.x, 0, top, UnselectRule), first.x, bottom + 1, height, UnselectRule);
      ColumnSteps(g, boatSize, first, last, s2, size, top, bottom, s4);
    }

    /** Makes every cell off row `first.y` unselectable, boats excepted, then chooses the row from `first` to `last`. */
    method JoinRow(ghost g: Snapshot, first: Coordinates, last: Coordinates)
      requires Valid()
      requires 0 <= first.y < height && 0 <= first.x && last.x < width
      requires Snap() == MapCells(g, ResetRule)
      modifies cells
      ensures Snap() == MapRowRange(MapCells(MapCells(g, ResetRule), OffRowRule(first.y)), first.y, first.x, last.x + 1, ChooseRule)
    {
      // Close every non-boat cell off the run's row
      MapGrid(OffRowRule(first.y));
      // Choose every cell from the first to the last
      MapRow(first.y, first.x, last.x + 1, ChooseRule);
    }

    /** Makes every cell off column `first.x` unselectable, boats excepted, then chooses the column from `first` to `last`. */
    method JoinColumn(ghost g: Snapshot, first: Coordinates, last: Coordinates)
      requires Valid()
      requires 0 <= first.x < width && 0 <= first.y && last.y < height
      requires Snap() == MapCells(g, ResetRule)
      modifies cells
      ensures Snap() == MapColumnRange(MapCells(MapCells(g, ResetRule), OffColumnRule(first.x)), first.x, first.y, last.y + 1, ChooseRule)
    {
      // Close every non-boat cell off the run's column
      MapGrid(OffColumnRule(first.x));
      // Choose every cell from the first to the last
      MapColumn(first.x, first.y, last.y + 1, ChooseRule);
    }

    /** One pass over every cell, row by row, applying `rule` to each. */
    method MapGrid(rule: CellRule)
      requires Valid()
      modifies cells
      ensures Snap() == MapCells(old(Snap()), rule)
    {
      ghost var g := Snap();
      var j := 0;
      while j < height
        invariant 0 <= j <= height
        invariant forall jj, ii :: 0 <= jj < height && 0 <= ii < width ==>
          cells[jj, ii] == if jj < j then ApplyCellRule(rule, Coordinates(ii, jj), g[jj][ii]) else g[jj][ii]
      {
        var i := 0;
        while i < width
          invariant 0 <= i <= width
          invariant forall jj, ii :: 0 <= jj < height && 0 <= ii < width ==>
            cells[jj, ii] ==
              if jj < j || (jj == j && ii < i) then ApplyCellRule(rule, Coordinates(ii, jj), g[jj][ii]) else g[jj][ii]
        {
          cells[j, i] := ApplyCellRule(rule, Coordinates(i, j), cells[j, i]);
          i := i + 1;
        }
        j := j + 1;
      }
      SnapshotsEqual(Snap(), MapCells(g, rule));
    }

    /** Makes every cell of row `y` left of `left` or right of `right` unselectable, boats excepted. */
    method UnselectRowOutside(y: int, left: int, right: int)
      requires Valid() && 0 <= y < height && left <= width && -1 <= right
      modifies cells
      ensures Snap() == MapRowRange(MapRowRange(old(Snap()), y, 0, left, UnselectRule), y, right + 1, width, UnselectRule)
    {
      MapRow(y, 0, left, UnselectRule);
      MapRow(y, right + 1, width, UnselectRule);
    }

    /** Makes every cell of column `x` above `top` or below `bottom` unselectable, boats excepted. */
    method UnselectColumnOutside(x: int, top: int, bottom: int)
      requires Valid() && 0 <= x < width && top <= height && -1 <= bottom
      modifies cells
      ensures Snap() == MapColumnRange(MapColumnRange(old(Snap()), x, 0, top, UnselectRule), x, bottom + 1, height, UnselectRule)
    {
      MapColumn(x, 0, top, UnselectRule);
      MapColumn(x, bottom + 1, height, UnselectRule);
    }

    /** Applies `rule` to each cell of row `y` with `lo <= x < hi`, left to right. */
    method MapRow(y: int, lo: int, hi: int, rule: LineRule)
      requires Valid() && 0 <= y < height && 0 <= lo && hi <= width
      modifies cells
      ensures Snap() == MapRowRange(old(Snap()), y, lo, hi, rule)
    {
      ghost var g := Snap();
      var i := lo;
      while i < hi
        invariant lo <= i && (i <= hi || i == lo)
        invariant forall j, ii :: 0 <= j < height && 0 <= ii < width ==>
          cells[j, ii] == if j == y && lo <= ii < i then ApplyLineRule(rule, g[j][ii]) else g[j][ii]
      {
        cells[y, i] := ApplyLineRule(rule, cells[y, i]);
        i := i + 1;
      }
      SnapshotsEqual(Snap(), MapRowRange(g, y, lo, hi, rule));
    }

    /** Applies `rule` to each cell of column `x` with `lo <= y < hi`, top to bottom. */
    method MapColumn(x: int, lo: int, hi: int, rule: LineRule)
      requires Valid() && 0 <= x < width && 0 <= lo && hi <= height
      modifies cells
      ensures Snap() == MapColumnRange(old(Snap()), x, lo, hi, rule)
    {
      ghost var g := Snap();
      var j := lo;
      while j < hi
        invariant lo <= j && (j <= hi || j == lo)
        invariant forall jj, i :: 0 <= jj < height && 0 <= i < width ==>
          cells[jj, i] == if i == x && lo <= jj < j then ApplyLineRule(rule, g[jj][i]) else g[jj][i]
      {
        cells[j, x] := ApplyLineRule(rule, cells[j, x]);
        j := j + 1;
      }
      SnapshotsEqual(Snap(), MapColumnRange(g, x, lo, hi, rule));
    }

    /** Gives every listed cell the state `state`. */
    method SetStates(cases: seq<Coordinates>, state: State)
      requires Valid()
      requires forall c :: c in cases ==> 0 <= c.y < height && 0 <= c.x < width
      modifies cells
      ensures Snap() == WithStates(old(Snap()), cases, state)
    {
      ghost var g := Snap();
      var k := 0;
      while k < |cases|
        invariant 0 <= k <= |cases|
        invariant forall j, i :: 0 <= j < height && 0 <= i < width ==>
          cells[j, i] == if Coordinates(i, j) in cases[..k] then state else g[j][i]
      {
        var c := cases[k];
        cells[c.y, c.x] := state;
        k := k + 1;
      }
      assert cases[..k] == cases;
      SnapshotsEqual(Snap(), WithStates(g, cases, state));
    }
  }
}
