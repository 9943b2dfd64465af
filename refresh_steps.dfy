/**
 * How the loop blocks of a refresh and of a commit, run one after another, add up to the grid
 * that module Selection describes. The view's methods apply the blocks; these lemmas close the gap.
 */
module RefreshSteps {

  import opened Grid
  import opened Selection

  /** The opening reset keeps boat cells and chosen cells where they are. */
  lemma ResetKeepsBoatsAndChoices(g: Snapshot)
    ensures Select(MapCells(g, ResetRule), Choosed) == Select(g, Choosed)
    ensures forall j, i :: 0 <= j < |g| && 0 <= i < |g[j]| ==>
      (MapCells(g, ResetRule)[j][i] == Boat) == (g[j][i] == Boat)
  {
    SelectCongruent(MapCells(g, ResetRule), g, Choosed);
  }

  /** With no chosen cell, reset then clear gives the refreshed grid. */
  lemma NoneSteps(g: Snapshot, size: int, s1: Snapshot)
    requires |Select(g, Choosed)| == 0
    requires s1 == MapCells(MapCells(g, ResetRule), ClearRule)
    ensures s1 == Refreshed(g, size)
  {
    SnapshotsEqual(s1, Refreshed(g, size));
  }

  /** What the refreshed grid holds, cell by cell, when exactly one cell `p` is chosen. */
  lemma RefreshedCross(g: Snapshot, size: int, p: Coordinates, left: int, right: int, top: int, bottom: int)
    requires Select(g, Choosed) == [p]
    requires left == LastAvailable(g, p, Left, size - 1) && right == LastAvailable(g, p, Right, size - 1)
    requires top == LastAvailable(g, p, Top, size - 1) && bottom == LastAvailable(g, p, Bottom, size - 1)
    ensures forall j, i :: 0 <= j < |g| && 0 <= i < |g[j]| ==>
      Refreshed(g, size)[j][i] == CrossCell(p, Coordinates(i, j), ResetAt(g[j][i]), left, right, top, bottom)
  {
  }

  /** What the refreshed grid holds, cell by cell, when at least two cells are chosen and the first and last share a row. */
  lemma RefreshedRow(g: Snapshot, size: int, first: Coordinates, last: Coordinates, room: int, left: int, right: int)
    requires |Select(g, Choosed)| >= 2
    requires first == Select(g, Choosed)[0] && last == Select(g, Choosed)[|Select(g, Choosed)| - 1]
    requires first.y == last.y
    requires room == size - (last.x - first.x + 1)
    requires left == LastAvailable(g, first, Left, room) && right == LastAvailable(g, last, Right, room)
    ensures forall j, i :: 0 <= j < |g| && 0 <= i < |g[j]| ==>
      Refreshed(g, size)[j][i] == RowCell(first, last, Coordinates(i, j), ResetAt(g[j][i]), left, right)
  {
  }

  /** What the refreshed grid holds, cell by cell, when at least two cells are chosen in different rows. */
  lemma RefreshedColumn(g: Snapshot, size: int, first: Coordinates, last: Coordinates, room: int, top: int, bottom: int)
    requires |Select(g, Choosed)| >= 2
    requires first == Select(g, Choosed)[0] && last == Select(g, Choosed)[|Select(g, Choosed)| - 1]
    requires first.y != last.y
    requires room == size - (last.y - first.y + 1)
    requires top == LastAvailable(g, first, Top, room) && bottom == LastAvailable(g, last, Bottom, room)
    ensures forall j, i :: 0 <= j < |g| && 0 <= i < |g[j]| ==>
      Refreshed(g, size)[j][i] == ColumnCell(first, last, Coordinates(i, j), ResetAt(g[j][i]), top, bottom)
  {
  }

  /** The first and the last chosen cell lie in the grid and are chosen. */
  lemma ChosenEnds(g: Snapshot)
    requires |Select(g, Choosed)| >= 1
    ensures var chosen := Select(g, Choosed);
      && InGrid(g, chosen[0]) && At(g, chosen[0]) == Choosed
      && InGrid(g, chosen[|chosen| - 1]) && At(g, chosen[|chosen| - 1]) == Choosed
  {
    SelectMembers(g, Choosed);
    var chosen := Select(g, Choosed);
    assert chosen[0] in chosen && chosen[|chosen| - 1] in chosen;
  }

  /** Joining a row run leaves every cell on the rays outward from its two chosen ends as free as it was. */
  lemma RowRays(g: Snapshot, first: Coordinates, last: Coordinates, s2: Snapshot)
    requires InGrid(g, first) && At(g, first) == Choosed && InGrid(g, last) && At(g, last) == Choosed
    requires first.y == last.y
    requires s2 == MapRowRange(MapCells(MapCells(g, ResetRule), OffRowRule(first.y)), first.y, first.x, last.x + 1, ChooseRule)
    ensures SameRay(s2, g, first, Left) && SameRay(s2, g, last, Right)
  {
    var s1 := MapCells(MapCells(g, ResetRule), OffRowRule(first.y));
    forall m: nat
      ensures Free(s2, Pos(first, Left, m)) == Free(g, Pos(first, Left, m))
    {
      var q := Pos(first, Left, m);
      if InGrid(g, q) {
        assert s2[q.y][q.x] == if q.x >= first.x then Choosed else s1[q.y][q.x];
      }
    }
    forall m: nat
      ensures Free(s2, Pos(last, Right, m)) == Free(g, Pos(last, Right, m))
    {
      var q := Pos(last, Right, m);
      if InGrid(g, q) {
        assert s2[q.y][q.x] == if q.x <= last.x && q.x >= first.x then Choosed else s1[q.y][q.x];
      }
    }
  }

  /** Joining a column run leaves every cell on the rays outward from its two chosen ends as free as it was. */
  lemma ColumnRays(g: Snapshot, first: Coordinates, last: Coordinates, s2: Snapshot)
    requires InGrid(g, first) && At(g, first) == Choosed && InGrid(g, last) && At(g, last) == Choosed
    requires s2 == MapColumnRange(MapCells(MapCells(g, ResetRule), OffColumnRule(first.x)), first.x, first.y, last.y + 1, ChooseRule)
    ensures SameRay(s2, g, first, Top) && SameRay(s2, g, last, Bottom)
  {
    ColumnRayUp(g, first, last, s2);
    ColumnRayDown(g, first, last, s2);
  }

  lemma ColumnRayUp(g: Snapshot, first: Coordinates, last: Coordinates, s2: Snapshot)
    requires InGrid(g, first) && At(g, first) == Choosed
    requires s2 == MapColumnRange(MapCells(MapCells(g, ResetRule), OffColumnRule(first.x)), first.x, first.y, last.y + 1, ChooseRule)
    ensures SameRay(s2, g, first, Top)
  {
    var s1 := MapCells(MapCells(g, ResetRule), OffColumnRule(first.x));
    forall m: nat
      ensures Free(s2, Pos(first, Top, m)) == Free(g, Pos(first, Top, m))
    {
      var q := Pos(first, Top, m);
      if m == 0 {
        assert s2[q.y][q.x] == Choosed;
      } else if InGrid(g, q) {
        assert s2[q.y][q.x] == s1[q.y][q.x];
      }
    }
  }

  lemma ColumnRayDown(g: Snapshot, first: Coordinates, last: Coordinates, s2: Snapshot)
    requires InGrid(g, last) && At(g, last) == Choosed
    requires s2 == MapColumnRange(MapCells(MapCells(g, ResetRule), OffColumnRule(first.x)), first.x, first.y, last.y + 1, ChooseRule)
    ensures SameRay(s2, g, last, Bottom)
  {
    var s1 := MapCells(MapCells(g, ResetRule), OffColumnRule(first.x));
    forall m: nat
      ensures Free(s2, Pos(last, Bottom, m)) == Free(g, Pos(last, Bottom, m))
    {
      var q := Pos(last, Bottom, m);
      if InGrid(g, q) {
        assert (s1[q.y][q.x] == Boat) == (g[q.y][q.x] == Boat);
        assert s2[q.y][q.x] == if m == 0 && q.x == first.x then Choosed else s1[q.y][q.x];
      }
    }
  }

  /** The walks outward from the ends of a joined row run, taken on the grid after the join, are those on `g`. */
  lemma RowWalks(g: Snapshot, first: Coordinates, last: Coordinates, s2: Snapshot, room: int, left: int, right: int)
    requires InGrid(g, first) && At(g, first) == Choosed && InGrid(g, last) && At(g, last) == Choosed
    requires first.y == last.y
    requires s2 == MapRowRange(MapCells(MapCells(g, ResetRule), OffRowRule(first.y)), first.y, first.x, last.x + 1, ChooseRule)
    requires left == LastAvailable(s2, first, Left, room) && right == LastAvailable(s2, last, Right, room)
    ensures left == LastAvailable(g, first, Left, room) && right == LastAvailable(g, last, Right, room)
    ensures left <= first.x && last.x <= right
  {
    RowRays(g, first, last, s2);
    LastAvailableCongruent(s2, g, first, Left, room);
    LastAvailableCongruent(s2, g, last, Right, room);
    LastAvailableAround(g, first, room);
    LastAvailableAround(g, last, room);
  }

  /** The walks outward from the ends of a joined column run, taken on the grid after the join, are those on `g`. */
  lemma ColumnWalks(g: Snapshot, first: Coordinates, last: Coordinates, s2: Snapshot, room: int, top: int, bottom: int)
    requires InGrid(g, first) && At(g, first) == Choosed && InGrid(g, last) && At(g, last) == Choosed
    requires s2 == MapColumnRange(MapCells(MapCells(g, ResetRule), OffColumnRule(first.x)), first.x, first.y, last.y + 1, ChooseRule)
    requires top == LastAvailable(s2, first, Top, room) && bottom == LastAvailable(s2, last, Bottom, room)
    ensures top == LastAvailable(g, first, Top, room) && bottom == LastAvailable(g, last, Bottom, room)
    ensures top <= first.y && last.y <= bottom
  {
    ColumnRays(g, first, last, s2);
    LastAvailableCongruent(s2, g, first, Top, room);
    LastAvailableCongruent(s2, g, last, Bottom, room);
    LastAvailableAround(g, first, room);
    LastAvailableAround(g, last, room);
  }

  /** The cross case's first blocks keep every boat where it was, and so do its row blocks. */
  lemma CrossKeepsBoats(g: Snapshot, p: Coordinates, w: int, s1: Snapshot, left: int, right: int, s3: Snapshot)
    requires s1 == MapCells(MapCells(g, ResetRule), OffCrossRule(p))
    requires s3 == MapRowRange(MapRowRange(s1, p.y, 0, left, UnselectRule), p.y, right + 1, w, UnselectRule)
    ensures SameBoats(s1, g) && SameBoats(s3, g)
  {
  }

  /** The blocks of the cross case, cell by cell, for given walk bounds around `p`. */
  lemma CrossBlocks(g: Snapshot, p: Coordinates, w: int, s1: Snapshot, left: int, right: int,
                    s3: Snapshot, top: int, bottom: int, s5: Snapshot)
    requires forall j :: 0 <= j < |g| ==> |g[j]| == w
    requires left <= p.x <= right && top <= p.y <= bottom
    requires s1 == MapCells(MapCells(g, ResetRule), OffCrossRule(p))
    requires s3 == MapRowRange(MapRowRange(s1, p.y, 0, left, UnselectRule), p.y, right + 1, w, UnselectRule)
    requires s5 == MapColumnRange(MapColumnRange(s3, p.x, 0, top, UnselectRule), p.x, bottom + 1, |g|, UnselectRule)
    ensures |s5| == |g| && forall j :: 0 <= j < |g| ==> |s5[j]| == |g[j]|
    ensures forall j, i :: 0 <= j < |g| && 0 <= i < |g[j]| ==>
      s5[j][i] == CrossCell(p, Coordinates(i, j), ResetAt(g[j][i]), left, right, top, bottom)
  {
  }

  /** With exactly one chosen cell `p`, the blocks of the cross case, bounded by the walks from `p`, give the refreshed grid. */
  lemma CrossSteps(g: Snapshot, size: int, p: Coordinates, w: int, s1: Snapshot, left: int, right: int,
                   s3: Snapshot, top: int, bottom: int, s5: Snapshot)
    requires forall j :: 0 <= j < |g| ==> |g[j]| == w
    requires Select(g, Choosed) == [p]
    requires left == LastAvailable(g, p, Left, size - 1) && right == LastAvailable(g, p, Right, size - 1)
    requires top == LastAvailable(g, p, Top, size - 1) && bottom == LastAvailable(g, p, Bottom, size - 1)
    requires s1 == MapCells(MapCells(g, ResetRule), OffCrossRule(p))
    requires s3 == MapRowRange(MapRowRange(s1, p.y, 0, left, UnselectRule), p.y, right + 1, w, UnselectRule)
    requires s5 == MapColumnRange(MapColumnRange(s3, p.x, 0, top, UnselectRule), p.x, bottom + 1, |g|, UnselectRule)
    ensures s5 == Refreshed(g, size)
  {
    LastAvailableAround(g, p, size - 1);
    CrossBlocks(g, p, w, s1, left, right, s3, top, bottom, s5);
    RefreshedCross(g, size, p, left, right, top, bottom);
    SnapshotsEqual(s5, Refreshed(g, size));
  }

  /** The blocks of the row case, cell by cell, for given walk bounds around the run. */
  lemma RowBlocks(g: Snapshot, first: Coordinates, last: Coordinates, w: int,
                  s2: Snapshot, left: int, right: int, s4: Snapshot)
    requires forall j :: 0 <= j < |g| ==> |g[j]| == w
    requires left <= first.x && last.x <= right
    requires s2 == MapRowRange(MapCells(MapCells(g, ResetRule), OffRowRule(first.y)), first.y, first.x, last.x + 1, ChooseRule)
    requires s4 == MapRowRange(MapRowRange(s2, first.y, 0, left, UnselectRule), first.y, right + 1, w, UnselectRule)
    ensures |s4| == |g| && forall j :: 0 <= j < |g| ==> |s4[j]| == |g[j]|
    ensures forall j, i :: 0 <= j < |g| && 0 <= i < |g[j]| ==>
      s4[j][i] == RowCell(first, last, Coordinates(i, j), ResetAt(g[j][i]), left, right)
  {
  }

  /** With several chosen cells whose first and last share a row, the blocks of the row case, bounded by the walks from the run's ends, give the refreshed grid. */
  lemma RowSteps(g: Snapshot, size: int, first: Coordinates, last: Coordinates, w: int,
                 s2: Snapshot, room: int, left: int, right: int, s4: Snapshot)
    requires forall j :: 0 <= j < |g| ==> |g[j]| == w
    requires |Select(g, Choosed)| >= 2
    requires first == Select(g, Choosed)[0] && last == Select(g, Choosed)[|Select(g, Choosed)| - 1]
    requires first.y == last.y
    requires room == size - (last.x - first.x + 1)
    requires left == LastAvailable(g, first, Left, room) && right == LastAvailable(g, last, Right, room)
    requires s2 == MapRowRange(MapCells(MapCells(g, ResetRule), OffRowRule(first.y)), first.y, first.x, last.x + 1, ChooseRule)
    requires s4 == MapRowRange(MapRowRange(s2, first.y, 0, left, UnselectRule), first.y, right + 1, w, UnselectRule)
    ensures s4 == Refreshed(g, size)
  {
    LastAvailableAround(g, first, room);
    LastAvailableAround(g, last, room);
    RowBlocks(g, first, last, w, s2, left, right, s4);
    RefreshedRow(g, size, first, last, room, left, right);
    SnapshotsEqual(s4, Refreshed(g, size));
  }

  /** The blocks of the column case, cell by cell, for given walk bounds around the run. */
  lemma ColumnBlocks(g: Snapshot, first: Coordinates, last: Coordinates,
                     s2: Snapshot, top: int, bottom: int, s4: Snapshot)
    requires top <= first.y && last.y <= bottom
    requires s2 == MapColumnRange(MapCells(MapCells(g, ResetRule), OffColumnRule(first.x)), first.x, first.y, last.y + 1, ChooseRule)
    requires s4 == MapColumnRange(MapColumnRange(s2, first.x, 0, top, UnselectRule), first.x, bottom + 1, |g|, UnselectRule)
    ensures |s4| == |g| && forall j :: 0 <= j < |g| ==> |s4[j]| == |g[j]|
    ensures forall j, i :: 0 <= j < |g| && 0 <= i < |g[j]| ==>
      s4[j][i] == ColumnCell(first, last, Coordinates(i, j), ResetAt(g[j][i]), top, bottom)
  {
  }

  /** With several chosen cells whose first and last lie in different rows, the blocks of the column case, bounded by the walks from the run's ends, give the refreshed grid. */
  lemma ColumnSteps(g: Snapshot, size: int, first: Coordinates, last: Coordinates,
                    s2: Snapshot, room: int, top: int, bottom: int, s4: Snapshot)
    requires |Select(g, Choosed)| >= 2
    requires first == Select(g, Choosed)[0] && last == Select(g, Choosed)[|Select(g, Choosed)| - 1]
    requires first.y != last.y
    requires room == size - (last.y - first.y + 1)
    requires top == LastAvailable(g, first, Top, room) && bottom == LastAvailable(g, last, Bottom, room)
    requires s2 == MapColumnRange(MapCells(MapCells(g, ResetRule), OffColumnRule(first.x)), first.x, first.y, last.y + 1, ChooseRule)
    requires s4 == MapColumnRange(MapColumnRange(s2, first.x, 0, top, UnselectRule), first.x, bottom + 1, |g|, UnselectRule)
    ensures s4 == Refreshed(g, size)
  {
    LastAvailableAround(g, first, room);
    LastAvailableAround(g, last, room);
    ColumnBlocks(g, first, last, s2, top, bottom, s4);
    RefreshedColumn(g, size, first, last, room, top, bottom);
    SnapshotsEqual(s4, Refreshed(g, size));
  }

  /** Marking the chosen cells as boat, then reopening the unselectable ones, is the commit. */
  lemma CommitSteps(r: Snapshot, chosen: seq<Coordinates>, m: Snapshot, unselectable: seq<Coordinates>, f: Snapshot)
    requires chosen == Select(r, Choosed)
    requires m == WithStates(r, chosen, Boat)
    requires unselectable == Select(m, Unselectable)
    requires f == WithStates(m, unselectable, Selectable)
    ensures f == Committed(r)
  {
    SelectMembers(r, Choosed);
    SelectMembers(m, Unselectable);
    forall j, i | 0 <= j < |r| && 0 <= i < |r[j]|
      ensures f[j][i] == Committed(r)[j][i]
    {
      assert InGrid(r, Coordinates(i, j)) && InGrid(m, Coordinates(i, j));
    }
    SnapshotsEqual(f, Committed(r));
  }
}
