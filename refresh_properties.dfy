/**
 * What a refresh, a walk and a commit guarantee, stated over module Selection's functions: how far a
 * walk goes, which cells end up chosen, which boats survive, which cells stay selectable, and how many
 * boat cells a commit adds.
 */
module RefreshProperties {

  import opened Grid
  import opened Selection
  import opened RefreshSteps

  // ---------------------------------------------------------------------------------------------
  // Walks

  lemma DistanceOfReported(p: Coordinates, d: Direction, n: int)
    ensures Distance(p, d, Reported(Pos(p, d, n), d)) == n
  {
  }

  /**
   * A walk allowed `size` steps stops `n` steps from its start, where `n` is the distance of the
   * reported coordinate: never more than `size` (none at all when `size` is not positive), every cell
   * before it is free, and when it stopped early the cell it stopped on is outside the grid or a boat.
   */
  lemma LastAvailableStops(g: Snapshot, p: Coordinates, d: Direction, size: int)
    ensures var r := LastAvailable(g, p, d, size);
      var n := Distance(p, d, r);
      && r == Reported(Pos(p, d, n), d)
      && 0 <= n
      && (size <= 0 ==> n == 0)
      && (size > 0 ==> n <= size)
      && (forall m :: 0 <= m < n ==> Free(g, Pos(p, d, m)))
      && (n < size ==> !Free(g, Pos(p, d, n)))
  {
    DistanceOfReported(p, d, Reach(g, p, d, size, 0));
  }

  /** A walk over `m` free cells, allowed at least `m` steps, goes at least `m` steps. */
  lemma LastAvailableReaches(g: Snapshot, p: Coordinates, d: Direction, size: int, m: int)
    requires 0 <= m <= size
    requires forall k :: 0 <= k < m ==> Free(g, Pos(p, d, k))
    ensures Distance(p, d, LastAvailable(g, p, d, size)) >= m
  {
    LastAvailableStops(g, p, d, size);
  }

  /** Every cell from `p` up to `m` steps in direction `d` is inside the grid and holds no boat. */
  ghost predicate FreeRun(g: Snapshot, p: Coordinates, d: Direction, m: int)
  {
    forall k :: 0 <= k <= m ==> Free(g, Pos(p, d, k))
  }

  /**
   * A free cell `m >= 1` steps out lies within the walk's reach exactly when a boat of `size + 1`
   * cells starting at `p` could end on it: `m <= size` and the whole way there is free.
   */
  lemma WithinWalk(g: Snapshot, p: Coordinates, d: Direction, size: int, m: int)
    requires 1 <= m
    ensures (m <= Distance(p, d, LastAvailable(g, p, d, size)) && Free(g, Pos(p, d, m)))
        <==> (m <= size && FreeRun(g, p, d, m))
  {
    LastAvailableStops(g, p, d, size);
    if m <= size && FreeRun(g, p, d, m) {
      LastAvailableReaches(g, p, d, size, m);
    }
  }

  // ---------------------------------------------------------------------------------------------
  // Order of the chosen cells

  /** Every chosen cell lies, in row-major order, between the first and the last chosen cell. */
  lemma ChosenBetween(g: Snapshot, c: Coordinates)
    requires InGrid(g, c) && At(g, c) == Choosed
    ensures var chosen := Select(g, Choosed);
      && |chosen| >= 1
      && (c == chosen[0] || Before(chosen[0], c))
      && (c == chosen[|chosen| - 1] || Before(c, chosen[|chosen| - 1]))
  {
    SelectMembers(g, Choosed);
    SelectSorted(g, Choosed);
    var chosen := Select(g, Choosed);
    assert c in chosen;
    var i :| 0 <= i < |chosen| && chosen[i] == c;
  }

  /** In the row case every chosen cell lies on the row of the first and the last, between them. */
  lemma ChosenInRow(g: Snapshot, c: Coordinates)
    requires InGrid(g, c) && At(g, c) == Choosed
    requires |Select(g, Choosed)| >= 1
    requires Select(g, Choosed)[0].y == Select(g, Choosed)[|Select(g, Choosed)| - 1].y
    ensures var chosen := Select(g, Choosed);
      c.y == chosen[0].y && chosen[0].x <= c.x <= chosen[|chosen| - 1].x
  {
    ChosenBetween(g, c);
  }

  /** In the column case every chosen cell lies in a row from the first's to the last's. */
  lemma ChosenInRows(g: Snapshot, c: Coordinates)
    requires InGrid(g, c) && At(g, c) == Choosed
    requires |Select(g, Choosed)| >= 1
    ensures var chosen := Select(g, Choosed);
      chosen[0].y <= c.y <= chosen[|chosen| - 1].y
      && (c.y == chosen[0].y ==> chosen[0].x <= c.x)
  {
    ChosenBetween(g, c);
  }

  // ---------------------------------------------------------------------------------------------
  // Chosen cells and boats after a refresh

  /**
   * The cells a refresh leaves chosen, given the cells `chosen` before it in row-major order: none;
   * the only one; or the straight run joining the first and the last, along their row when they
   * share one and down the column of the first otherwise.
   */
  predicate OnRun(chosen: seq<Coordinates>, c: Coordinates)
  {
    if |chosen| == 0 then false
    else if |chosen| == 1 then c == chosen[0]
    else
      var first, last := chosen[0], chosen[|chosen| - 1];
      if first.y == last.y then c.y == first.y && first.x <= c.x <= last.x
      else c.x == first.x && first.y <= c.y <= last.y
  }

  /** After a refresh a cell is chosen exactly when it lies on the run of the cells chosen before. */
  lemma RefreshedChosen(g: Snapshot, size: int, c: Coordinates)
    requires InGrid(g, c)
    ensures At(Refreshed(g, size), c) == Choosed <==> OnRun(Select(g, Choosed), c)
  {
    var chosen := Select(g, Choosed);
    SelectMembers(g, Choosed);
    if |chosen| == 1 {
      var p := chosen[0];
      assert chosen == [p];
      assert p in chosen;
      CrossAtCell(g, size, p, c);
    } else if |chosen| >= 2 {
      var first, last := chosen[0], chosen[|chosen| - 1];
      if g[c.y][c.x] == Choosed {
        if first.y == last.y {
          ChosenInRow(g, c);
        } else {
          ChosenInRows(g, c);
        }
      }
      if first.y == last.y {
        RowAtCell(g, size, first, last, c);
      } else {
        ColumnAtCell(g, size, first, last, c);
      }
    }
  }

  /**
   * A refresh never makes a boat cell, and keeps every boat cell that the run of chosen cells does
   * not cover.
   */
  lemma RefreshedBoats(g: Snapshot, size: int, c: Coordinates)
    requires InGrid(g, c)
    ensures At(Refreshed(g, size), c) == Boat ==> At(g, c) == Boat
    ensures At(g, c) == Boat && !OnRun(Select(g, Choosed), c) ==> At(Refreshed(g, size), c) == Boat
  {
    var chosen := Select(g, Choosed);
    if |chosen| == 1 {
      CrossAtCell(g, size, chosen[0], c);
      CrossCellBoats(chosen[0], c, At(g, c), At(Refreshed(g, size), c),
        LastAvailable(g, chosen[0], Left, size - 1), LastAvailable(g, chosen[0], Right, size - 1),
        LastAvailable(g, chosen[0], Top, size - 1), LastAvailable(g, chosen[0], Bottom, size - 1));
    } else if |chosen| >= 2 {
      var first, last := chosen[0], chosen[|chosen| - 1];
      if first.y == last.y {
        var room := size - (last.x - first.x + 1);
        RowAtBounds(g, size, c, first, last, room, LastAvailable(g, first, Left, room), LastAvailable(g, last, Right, room));
      } else {
        var room := size - (last.y - first.y + 1);
        ColumnAtBounds(g, size, c, first, last, room, LastAvailable(g, first, Top, room), LastAvailable(g, last, Bottom, room));
      }
    }
  }

  /** In the cross case a cell ends a boat exactly when it was one. */
  lemma CrossCellBoats(p: Coordinates, c: Coordinates, s: State, t: State, left: int, right: int, top: int, bottom: int)
    requires t == CrossCell(p, c, ResetAt(s), left, right, top, bottom)
    ensures t == Boat <==> s == Boat
  {
  }

  /** The state of one cell after a refresh with a single chosen cell `p`, with the walks' bounds named. */
  lemma CrossAtCell(g: Snapshot, size: int, p: Coordinates, c: Coordinates)
    requires Select(g, Choosed) == [p]
    requires InGrid(g, c)
    ensures InGrid(g, p) && At(g, p) == Choosed
    ensures LastAvailable(g, p, Left, size - 1) <= p.x <= LastAvailable(g, p, Right, size - 1)
    ensures LastAvailable(g, p, Top, size - 1) <= p.y <= LastAvailable(g, p, Bottom, size - 1)
    ensures At(Refreshed(g, size), c) == CrossCell(p, c, ResetAt(At(g, c)),
      LastAvailable(g, p, Left, size - 1), LastAvailable(g, p, Right, size - 1),
      LastAvailable(g, p, Top, size - 1), LastAvailable(g, p, Bottom, size - 1))
  {
    ChosenEnds(g);
    LastAvailableAround(g, p, size - 1);
    RefreshedCross(g, size, p, LastAvailable(g, p, Left, size - 1), LastAvailable(g, p, Right, size - 1),
      LastAvailable(g, p, Top, size - 1), LastAvailable(g, p, Bottom, size - 1));
  }

  /** The line case of a refresh, unfolded for a row run. */
  lemma LineAtRow(g: Snapshot, size: int, first: Coordinates, last: Coordinates, c: Coordinates, s: State)
    requires first.y == last.y
    ensures LineAt(g, size, first, last, c, s) == RowCell(first, last, c, s,
      LastAvailable(g, first, Left, size - (last.x - first.x + 1)), LastAvailable(g, last, Right, size - (last.x - first.x + 1)))
  {
  }

  /** The line case of a refresh, unfolded for a column run. */
  lemma LineAtColumn(g: Snapshot, size: int, first: Coordinates, last: Coordinates, c: Coordinates, s: State)
    requires first.y != last.y
    ensures LineAt(g, size, first, last, c, s) == ColumnCell(first, last, c, s,
      LastAvailable(g, first, Top, size - (last.y - first.y + 1)), LastAvailable(g, last, Bottom, size - (last.y - first.y + 1)))
  {
  }

  /** The state of one cell after a refresh whose first and last chosen cells share a row. */
  lemma RowAtCell(g: Snapshot, size: int, first: Coordinates, last: Coordinates, c: Coordinates)
    requires |Select(g, Choosed)| >= 2
    requires first == Select(g, Choosed)[0] && last == Select(g, Choosed)[|Select(g, Choosed)| - 1]
    requires first.y == last.y
    requires InGrid(g, c)
    ensures InGrid(g, first) && At(g, first) == Choosed && InGrid(g, last) && At(g, last) == Choosed
    ensures LastAvailable(g, first, Left, size - (last.x - first.x + 1)) <= first.x
    ensures last.x <= LastAvailable(g, last, Right, size - (last.x - first.x + 1))
    ensures At(Refreshed(g, size), c) == RowCell(first, last, c, ResetAt(At(g, c)),
      LastAvailable(g, first, Left, size - (last.x - first.x + 1)), LastAvailable(g, last, Right, size - (last.x - first.x + 1)))
  {
    ChosenEnds(g);
    var room := size - (last.x - first.x + 1);
    var left, right := LastAvailable(g, first, Left, room), LastAvailable(g, last, Right, room);
    LastAvailableAround(g, first, room);
    LastAvailableAround(g, last, room);
    assert Refreshed(g, size)[c.y][c.x] == RefreshedAt(g, size, c) == LineAt(g, size, first, last, c, ResetAt(At(g, c)));
    LineAtRow(g, size, first, last, c, ResetAt(At(g, c)));
  }

  /** The state of one cell after a refresh whose first and last chosen cells lie in different rows. */
  lemma ColumnAtCell(g: Snapshot, size: int, first: Coordinates, last: Coordinates, c: Coordinates)
    requires |Select(g, Choosed)| >= 2
    requires first == Select(g, Choosed)[0] && last == Select(g, Choosed)[|Select(g, Choosed)| - 1]
    requires first.y != last.y
    requires InGrid(g, c)
    ensures InGrid(g, first) && At(g, first) == Choosed && InGrid(g, last) && At(g, last) == Choosed
    ensures var room := size - (last.y - first.y + 1);
      && LastAvailable(g, first, Top, room) <= first.y && last.y <= LastAvailable(g, last, Bottom, room)
      && At(Refreshed(g, size), c) == ColumnCell(first, last, c, ResetAt(At(g, c)),
           LastAvailable(g, first, Top, room), LastAvailable(g, last, Bottom, room))
  {
    ChosenEnds(g);
    var room := size - (last.y - first.y + 1);
    var top, bottom := LastAvailable(g, first, Top, room), LastAvailable(g, last, Bottom, room);
    LastAvailableAround(g, first, room);
    LastAvailableAround(g, last, room);
    assert Refreshed(g, size)[c.y][c.x] == RefreshedAt(g, size, c) == LineAt(g, size, first, last, c, ResetAt(At(g, c)));
    LineAtColumn(g, size, first, last, c, ResetAt(At(g, c)));
  }

  // ---------------------------------------------------------------------------------------------
  // Selectable cells after a refresh

  /**
   * Cell `c` is `m` steps from `p` in direction `d`, with `1 <= m <= budget`, and every cell from `p`
   * to `c` is free: a boat could be laid from `p` to `c` within the budget.
   */
  ghost predicate ReachableAlong(g: Snapshot, p: Coordinates, d: Direction, budget: int, c: Coordinates)
  {
    exists m: int :: 1 <= m <= budget && c == Pos(p, d, m) && FreeRun(g, p, d, m)
  }

  /** `c` is reachable from `p` in one of the four directions. */
  ghost predicate Reachable(g: Snapshot, p: Coordinates, budget: int, c: Coordinates)
  {
    exists d: Direction :: ReachableAlong(g, p, d, budget, c)
  }

  /**
   * With a single chosen cell `p`, a refresh leaves a cell selectable exactly when a boat of the
   * selected size laid from `p` in a straight line over free cells could cover it.
   */
  lemma CrossSelectable(g: Snapshot, size: int, p: Coordinates, c: Coordinates)
    requires Select(g, Choosed) == [p]
    requires InGrid(g, c)
    ensures At(Refreshed(g, size), c) == Selectable <==> Reachable(g, p, size - 1, c)
  {
    CrossAtCell(g, size, p, c);
    SelectMembers(g, Choosed);
    assert c in Select(g, Choosed) <==> c == p;
    CrossCellSelectable(g, size, p, c);
  }

  lemma CrossCellSelectable(g: Snapshot, size: int, p: Coordinates, c: Coordinates)
    requires InGrid(g, p) && At(g, p) == Choosed && InGrid(g, c)
    requires At(g, c) == Choosed ==> c == p
    requires LastAvailable(g, p, Left, size - 1) <= p.x <= LastAvailable(g, p, Right, size - 1)
    requires LastAvailable(g, p, Top, size - 1) <= p.y <= LastAvailable(g, p, Bottom, size - 1)
    ensures CrossCell(p, c, ResetAt(At(g, c)),
      LastAvailable(g, p, Left, size - 1), LastAvailable(g, p, Right, size - 1),
      LastAvailable(g, p, Top, size - 1), LastAvailable(g, p, Bottom, size - 1)) == Selectable
      <==> Reachable(g, p, size - 1, c)
  {
    var left, right := LastAvailable(g, p, Left, size - 1), LastAvailable(g, p, Right, size - 1);
    var top, bottom := LastAvailable(g, p, Top, size - 1), LastAvailable(g, p, Bottom, size - 1);
    var d: Direction;
    var m: int;
    if c.y == p.y && c.x < p.x {
      d, m := Left, p.x - c.x;
      CrossArm(g, size, p, c, d, m, left, right, top, bottom);
    } else if c.y == p.y && c.x > p.x {
      d, m := Right, c.x - p.x;
      CrossArm(g, size, p, c, d, m, left, right, top, bottom);
    } else if c.x == p.x && c.y < p.y {
      d, m := Top, p.y - c.y;
      CrossArm(g, size, p, c, d, m, left, right, top, bottom);
    } else if c.x == p.x && c.y > p.y {
      d, m := Bottom, c.y - p.y;
      CrossArm(g, size, p, c, d, m, left, right, top, bottom);
    } else {
      forall d': Direction, m': int | 1 <= m'
        ensures c != Pos(p, d', m')
      {
      }
      return;
    }
    if Reachable(g, p, size - 1, c) {
      var d' :| ReachableAlong(g, p, d', size - 1, c);
      var m' :| 1 <= m' <= size - 1 && c == Pos(p, d', m') && FreeRun(g, p, d', m');
      assert d' == d && m' == m;
    } else {
      assert !ReachableAlong(g, p, d, size - 1, c);
    }
  }

  /** One arm of the cross: the cell `m` steps from `p` in direction `d`. */
  lemma CrossArm(g: Snapshot, size: int, p: Coordinates, c: Coordinates, d: Direction, m: int,
                 left: int, right: int, top: int, bottom: int)
    requires 1 <= m && c == Pos(p, d, m)
    requires InGrid(g, c) && At(g, c) != Choosed
    requires left <= p.x <= right && top <= p.y <= bottom
    requires d == Left ==> left == LastAvailable(g, p, Left, size - 1)
    requires d == Right ==> right == LastAvailable(g, p, Right, size - 1)
    requires d == Top ==> top == LastAvailable(g, p, Top, size - 1)
    requires d == Bottom ==> bottom == LastAvailable(g, p, Bottom, size - 1)
    ensures CrossCell(p, c, ResetAt(At(g, c)), left, right, top, bottom) == Selectable
      <==> m <= size - 1 && FreeRun(g, p, d, m)
  {
    WithinWalk(g, p, d, size - 1, m);
  }

  /**
   * With several chosen cells whose first and last share a row, a refresh leaves a cell selectable
   * exactly when a boat extending the run of chosen cells past its left or right end over free cells,
   * still no longer than the selected size, could cover it.
   */
  lemma RowSelectable(g: Snapshot, size: int, c: Coordinates)
    requires |Select(g, Choosed)| >= 2
    requires Select(g, Choosed)[0].y == Select(g, Choosed)[|Select(g, Choosed)| - 1].y
    requires InGrid(g, c)
    ensures var chosen := Select(g, Choosed);
      var first, last := chosen[0], chosen[|chosen| - 1];
      var room := size - (last.x - first.x + 1);
      (At(Refreshed(g, size), c) == Selectable <==>
         ReachableAlong(g, first, Left, room, c) || ReachableAlong(g, last, Right, room, c))
  {
    var chosen := Select(g, Choosed);
    var first, last := chosen[0], chosen[|chosen| - 1];
    var room := size - (last.x - first.x + 1);
    RowAtCell(g, size, first, last, c);
    ChosenSpread(g);
    if At(g, c) == Choosed {
      ChosenInRow(g, c);
    }
    RowCellSelectable(g, room, first, last, c, LastAvailable(g, first, Left, room), LastAvailable(g, last, Right, room));
  }

  /** `RowSelectable` for one cell, with the run's ends and the walks' bounds named. */
  lemma RowCellSelectable(g: Snapshot, room: int, first: Coordinates, last: Coordinates, c: Coordinates, left: int, right: int)
    requires first.y == last.y && first.x <= last.x
    requires InGrid(g, c)
    requires At(g, c) == Choosed ==> c.y == first.y && first.x <= c.x <= last.x
    requires left <= first.x && last.x <= right
    requires left == LastAvailable(g, first, Left, room) && right == LastAvailable(g, last, Right, room)
    ensures RowCell(first, last, c, ResetAt(At(g, c)), left, right) == Selectable <==>
      ReachableAlong(g, first, Left, room, c) || ReachableAlong(g, last, Right, room, c)
  {
    if c.y == first.y && c.x < first.x {
      var m := first.x - c.x;
      if At(g, c) != Choosed {
        RowArm(g, room, first, last, c, Left, first, m, left, right);
      }
      if ReachableAlong(g, first, Left, room, c) {
        var m' :| 1 <= m' <= room && c == Pos(first, Left, m') && FreeRun(g, first, Left, m');
        assert m' == m;
      }
    } else if c.y == first.y && c.x > last.x {
      var m := c.x - last.x;
      if At(g, c) != Choosed {
        RowArm(g, room, first, last, c, Right, last, m, left, right);
      }
      if ReachableAlong(g, last, Right, room, c) {
        var m' :| 1 <= m' <= room && c == Pos(last, Right, m') && FreeRun(g, last, Right, m');
        assert m' == m;
      }
    }
    else {
      forall m: int | 1 <= m
        ensures c != Pos(first, Left, m) && c != Pos(last, Right, m)
      {
      }
    }
  }

  /** The cell `m` steps beyond one end `p` of a row run, along the row. */
  lemma RowArm(g: Snapshot, room: int, first: Coordinates, last: Coordinates, c: Coordinates,
                d: Direction, p: Coordinates, m: int, left: int, right: int)
    requires first.y == last.y && first.x <= last.x
    requires (d == Left && p == first) || (d == Right && p == last)
    requires 1 <= m && c == Pos(p, d, m)
    requires InGrid(g, c) && At(g, c) != Choosed
    requires left <= first.x && last.x <= right
    requires d == Left ==> left == LastAvailable(g, first, Left, room)
    requires d == Right ==> right == LastAvailable(g, last, Right, room)
    ensures RowCell(first, last, c, ResetAt(At(g, c)), left, right) == Selectable
      <==> m <= room && FreeRun(g, p, d, m)
  {
    WithinWalk(g, p, d, room, m);
  }

  /**
   * With several chosen cells in different rows, the first and the last in one column, a refresh
   * leaves a cell selectable exactly when a boat extending the run of chosen cells past its top or
   * bottom end over free cells, still no longer than the selected size, could cover it.
   */
  lemma ColumnSelectable(g: Snapshot, size: int, c: Coordinates)
    requires |Select(g, Choosed)| >= 2
    requires Select(g, Choosed)[0].y != Select(g, Choosed)[|Select(g, Choosed)| - 1].y
    requires Select(g, Choosed)[0].x == Select(g, Choosed)[|Select(g, Choosed)| - 1].x
    requires InGrid(g, c)
    ensures var chosen := Select(g, Choosed);
      var first, last := chosen[0], chosen[|chosen| - 1];
      var room := size - (last.y - first.y + 1);
      (At(Refreshed(g, size), c) == Selectable <==>
         ReachableAlong(g, first, Top, room, c) || ReachableAlong(g, last, Bottom, room, c))
  {
    var chosen := Select(g, Choosed);
    var first, last := chosen[0], chosen[|chosen| - 1];
    var room := size - (last.y - first.y + 1);
    ColumnAtCell(g, size, first, last, c);
    ChosenBetween(g, first);
    var top, bottom := LastAvailable(g, first, Top, room), LastAvailable(g, last, Bottom, room);
    if At(g, c) == Choosed {
      ChosenInRows(g, c);
    }
    if c.x == first.x && c.y < first.y {
      var m := first.y - c.y;
      if At(g, c) != Choosed {
        ColumnArm(g, room, first, last, c, Top, first, m, top, bottom);
      }
      if ReachableAlong(g, first, Top, room, c) {
        var m' :| 1 <= m' <= room && c == Pos(first, Top, m') && FreeRun(g, first, Top, m');
        assert m' == m;
      }
    } else if c.x == first.x && c.y > last.y {
      var m := c.y - last.y;
      if At(g, c) != Choosed {
        ColumnArm(g, room, first, last, c, Bottom, last, m, top, bottom);
      }
      if ReachableAlong(g, last, Bottom, room, c) {
        var m' :| 1 <= m' <= room && c == Pos(last, Bottom, m') && FreeRun(g, last, Bottom, m');
        assert m' == m;
      }
    } else {
      forall m: int | 1 <= m
        ensures c != Pos(first, Top, m) && c != Pos(last, Bottom, m)
      {
      }
    }
  }

  /** The cell `m` steps beyond one end `p` of a column run, along the column. */
  lemma ColumnArm(g: Snapshot, room: int, first: Coordinates, last: Coordinates, c: Coordinates,
                  d: Direction, p: Coordinates, m: int, top: int, bottom: int)
    requires first.x == last.x && first.y <= last.y
    requires (d == Top && p == first) || (d == Bottom && p == last)
    requires 1 <= m && c == Pos(p, d, m)
    requires InGrid(g, c) && At(g, c) != Choosed
    requires top <= first.y && last.y <= bottom
    requires d == Top ==> top == LastAvailable(g, first, Top, room)
    requires d == Bottom ==> bottom == LastAvailable(g, last, Bottom, room)
    ensures ColumnCell(first, last, c, ResetAt(At(g, c)), top, bottom) == Selectable
      <==> m <= room && FreeRun(g, p, d, m)
  {
    WithinWalk(g, p, d, room, m);
  }

  /** With a single chosen cell `p`, a refresh makes every cell off the row and the column of `p` unselectable, boats excepted. */
  lemma RefreshedOffCross(g: Snapshot, size: int, p: Coordinates, c: Coordinates)
    requires Select(g, Choosed) == [p]
    requires InGrid(g, c) && At(g, c) != Boat
    requires c.x != p.x && c.y != p.y
    ensures At(Refreshed(g, size), c) == Unselectable
  {
    CrossAtCell(g, size, p, c);
    SelectMembers(g, Choosed);
  }

  /**
   * With two or more chosen cells, a refresh makes every cell off the run's row (when the first and
   * the last share a row) or off the column of the first (otherwise) unselectable, boats excepted;
   * in the column case that includes chosen cells in other columns.
   */
  lemma RefreshedOffLine(g: Snapshot, size: int, c: Coordinates)
    requires |Select(g, Choosed)| >= 2
    requires InGrid(g, c) && At(g, c) != Boat
    requires var chosen := Select(g, Choosed);
      if chosen[0].y == chosen[|chosen| - 1].y then c.y != chosen[0].y else c.x != chosen[0].x
    ensures At(Refreshed(g, size), c) == Unselectable
  {
    var chosen := Select(g, Choosed);
    if chosen[0].y == chosen[|chosen| - 1].y {
      RowAtCell(g, size, chosen[0], chosen[|chosen| - 1], c);
    } else {
      ColumnAtCell(g, size, chosen[0], chosen[|chosen| - 1], c);
    }
  }

  /** With no chosen cell, a refresh leaves every cell selectable except the boats. */
  lemma NoChoiceSelectable(g: Snapshot, size: int, c: Coordinates)
    requires |Select(g, Choosed)| == 0
    requires InGrid(g, c)
    ensures At(Refreshed(g, size), c) == Selectable <==> At(g, c) != Boat
  {
  }

  // ---------------------------------------------------------------------------------------------
  // A second refresh changes nothing

  /**
   * The chosen cells of `chosen` form a straight line a refresh keeps: at most one, or a first and
   * a last that share a row or a column.
   */
  predicate Aligned(chosen: seq<Coordinates>)
  {
    |chosen| < 2 || chosen[0].y == chosen[|chosen| - 1].y || chosen[0].x == chosen[|chosen| - 1].x
  }

  /** Off the run, a refresh leaves no cell chosen, keeps the boats, and so keeps each cell's reset state. */
  lemma RefreshedOffRun(g: Snapshot, size: int, c: Coordinates)
    requires InGrid(g, c) && !OnRun(Select(g, Choosed), c)
    requires At(g, c) != Choosed
    ensures At(Refreshed(g, size), c) != Choosed
    ensures At(Refreshed(g, size), c) == Boat <==> At(g, c) == Boat
    ensures ResetAt(At(Refreshed(g, size), c)) == ResetAt(At(g, c))
  {
    RefreshedChosen(g, size, c);
    RefreshedBoats(g, size, c);
  }

  /** A walk from a chosen cell of the run that leaves the run at once sees the same free cells after the refresh. */
  lemma RefreshedRay(g: Snapshot, size: int, p: Coordinates, d: Direction)
    requires InGrid(g, p) && At(g, p) == Choosed && OnRun(Select(g, Choosed), p)
    requires forall m :: 1 <= m ==> !OnRun(Select(g, Choosed), Pos(p, d, m))
    ensures SameRay(Refreshed(g, size), g, p, d)
  {
    forall m: nat
      ensures Free(Refreshed(g, size), Pos(p, d, m)) == Free(g, Pos(p, d, m))
    {
      if m == 0 {
        assert Pos(p, d, m) == p;
      }
      RefreshedFree(g, size, Pos(p, d, m));
    }
  }

  /** A cell of the run that was chosen, or a cell off the run, is free after a refresh exactly when it was before. */
  lemma RefreshedFree(g: Snapshot, size: int, q: Coordinates)
    requires OnRun(Select(g, Choosed), q) ==> InGrid(g, q) && At(g, q) == Choosed
    ensures Free(Refreshed(g, size), q) == Free(g, q)
  {
    if InGrid(g, q) {
      RefreshedChosen(g, size, q);
      RefreshedBoats(g, size, q);
    }
  }

  /** A run along a row or a column covers its two ends and nothing before the first or after the last. */
  lemma OnRunBetween(chosen: seq<Coordinates>, c: Coordinates)
    requires |chosen| >= 2 && Aligned(chosen) && Before(chosen[0], chosen[|chosen| - 1])
    ensures OnRun(chosen, chosen[0]) && OnRun(chosen, chosen[|chosen| - 1])
    ensures OnRun(chosen, c) ==> !Before(c, chosen[0]) && !Before(chosen[|chosen| - 1], c)
  {
  }

  /** The first and the last chosen cells, in row-major order, differ when two or more cells are chosen. */
  lemma ChosenSpread(g: Snapshot)
    requires |Select(g, Choosed)| >= 2
    ensures Before(Select(g, Choosed)[0], Select(g, Choosed)[|Select(g, Choosed)| - 1])
  {
    SelectSorted(g, Choosed);
  }

  lemma KeptFirst(g: Snapshot, size: int)
    requires |Select(g, Choosed)| >= 2 && Aligned(Select(g, Choosed))
    ensures |Select(Refreshed(g, size), Choosed)| >= 1
    ensures Select(Refreshed(g, size), Choosed)[0] == Select(g, Choosed)[0]
  {
    var chosen := Select(g, Choosed);
    ChosenEnds(g);
    ChosenSpread(g);
    OnRunBetween(chosen, chosen[0]);
    RefreshedChosen(g, size, chosen[0]);
    KeptOnRuns(g, size);
    EndsKept(chosen, Refreshed(g, size));
  }

  lemma KeptLast(g: Snapshot, size: int)
    requires |Select(g, Choosed)| >= 2 && Aligned(Select(g, Choosed))
    ensures |Select(Refreshed(g, size), Choosed)| >= 1
    ensures Select(Refreshed(g, size), Choosed)[|Select(Refreshed(g, size), Choosed)| - 1] ==
      Select(g, Choosed)[|Select(g, Choosed)| - 1]
  {
    var chosen := Select(g, Choosed);
    var last := chosen[|chosen| - 1];
    ChosenEnds(g);
    ChosenSpread(g);
    OnRunBetween(chosen, last);
    RefreshedChosen(g, size, last);
    KeptOnRuns(g, size);
    EndsKept(chosen, Refreshed(g, size));
  }

  /**
   * When both ends of an aligned run are chosen in `r` and every cell chosen in `r` lies on the run,
   * the first and the last cells chosen in `r` are the run's ends.
   */
  lemma EndsKept(chosen: seq<Coordinates>, r: Snapshot)
    requires |chosen| >= 2 && Aligned(chosen) && Before(chosen[0], chosen[|chosen| - 1])
    requires forall c :: InGrid(r, c) && At(r, c) == Choosed ==> OnRun(chosen, c)
    ensures InGrid(r, chosen[0]) && At(r, chosen[0]) == Choosed ==>
      |Select(r, Choosed)| >= 1 && Select(r, Choosed)[0] == chosen[0]
    ensures InGrid(r, chosen[|chosen| - 1]) && At(r, chosen[|chosen| - 1]) == Choosed ==>
      |Select(r, Choosed)| >= 1 && Select(r, Choosed)[|Select(r, Choosed)| - 1] == chosen[|chosen| - 1]
  {
    var first, last := chosen[0], chosen[|chosen| - 1];
    if InGrid(r, first) && At(r, first) == Choosed {
      ChosenBetween(r, first);
      ChosenEnds(r);
      OnRunBetween(chosen, Select(r, Choosed)[0]);
    }
    if InGrid(r, last) && At(r, last) == Choosed {
      ChosenBetween(r, last);
      ChosenEnds(r);
      LastOnRun(chosen, Select(r, Choosed)[|Select(r, Choosed)| - 1]);
    }
  }

  /** Every cell chosen after a refresh lies on the run of the cells chosen before it. */
  lemma KeptOnRuns(g: Snapshot, size: int)
    ensures forall c :: InGrid(Refreshed(g, size), c) && At(Refreshed(g, size), c) == Choosed ==> OnRun(Select(g, Choosed), c)
  {
    forall c | InGrid(Refreshed(g, size), c) && At(Refreshed(g, size), c) == Choosed
      ensures OnRun(Select(g, Choosed), c)
    {
      KeptOnRun(g, size, c);
    }
  }

  /** A cell chosen after a refresh lies on the run of the cells chosen before it. */
  lemma KeptOnRun(g: Snapshot, size: int, c: Coordinates)
    requires InGrid(Refreshed(g, size), c) && At(Refreshed(g, size), c) == Choosed
    ensures OnRun(Select(g, Choosed), c)
  {
    RefreshedInGrid(g, size, c);
    RefreshedChosen(g, size, c);
  }

  /** A refresh keeps the grid's shape. */
  lemma RefreshedInGrid(g: Snapshot, size: int, c: Coordinates)
    ensures InGrid(Refreshed(g, size), c) == InGrid(g, c)
  {
  }

  /** A cell on a run along a row or a column never comes after the run's last cell. */
  lemma LastOnRun(chosen: seq<Coordinates>, c: Coordinates)
    requires |chosen| >= 2 && Aligned(chosen) && Before(chosen[0], chosen[|chosen| - 1])
    requires OnRun(chosen, c)
    ensures !Before(chosen[|chosen| - 1], c)
  {
    OnRunBetween(chosen, c);
  }

  /** With two or more chosen cells along a row or a column, the refreshed grid has the same first and last chosen cells. */
  lemma RefreshedLineEnds(g: Snapshot, size: int)
    requires |Select(g, Choosed)| >= 2 && Aligned(Select(g, Choosed))
    ensures var chosen, kept := Select(g, Choosed), Select(Refreshed(g, size), Choosed);
      && |kept| >= 2
      && kept[0] == chosen[0]
      && kept[|kept| - 1] == chosen[|chosen| - 1]
  {
    KeptFirst(g, size);
    KeptLast(g, size);
    ChosenSpread(g);
  }

  /** Refreshing a grid refreshed with no chosen cell changes nothing. */
  lemma NoneStable(g: Snapshot, size: int)
    requires |Select(g, Choosed)| == 0
    ensures Refreshed(Refreshed(g, size), size) == Refreshed(g, size)
  {
    var r := Refreshed(g, size);
    SelectMembers(g, Choosed);
    forall j, i | 0 <= j < |g| && 0 <= i < |g[j]|
      ensures (r[j][i] == Choosed) == (g[j][i] == Choosed)
    {
      RefreshedChosen(g, size, Coordinates(i, j));
    }
    SelectCongruent(r, g, Choosed);
    SnapshotsEqual(Refreshed(r, size), r);
  }

  /** With one chosen cell, the refreshed grid has that same single chosen cell. */
  lemma CrossKept(g: Snapshot, size: int)
    requires |Select(g, Choosed)| == 1
    ensures Select(Refreshed(g, size), Choosed) == Select(g, Choosed)
  {
    var r := Refreshed(g, size);
    SelectMembers(g, Choosed);
    assert Select(g, Choosed)[0] in Select(g, Choosed);
    forall j, i | 0 <= j < |g| && 0 <= i < |g[j]|
      ensures (r[j][i] == Choosed) == (g[j][i] == Choosed)
    {
      RefreshedChosen(g, size, Coordinates(i, j));
    }
    SelectCongruent(r, g, Choosed);
  }

  /** With one chosen cell `p`, the four walks from `p` stop at the same cells after the refresh. */
  lemma CrossRaysKept(g: Snapshot, size: int, p: Coordinates, d: Direction)
    requires Select(g, Choosed) == [p]
    ensures LastAvailable(Refreshed(g, size), p, d, size - 1) == LastAvailable(g, p, d, size - 1)
  {
    ChosenEnds(g);
    forall m | 1 <= m
      ensures !OnRun(Select(g, Choosed), Pos(p, d, m))
    {
    }
    RefreshedRay(g, size, p, d);
    LastAvailableCongruent(Refreshed(g, size), g, p, d, size - 1);
  }

  lemma CrossStableCell(g: Snapshot, size: int, c: Coordinates)
    requires |Select(g, Choosed)| == 1
    requires InGrid(g, c)
    ensures At(Refreshed(Refreshed(g, size), size), c) == At(Refreshed(g, size), c)
  {
    var r := Refreshed(g, size);
    var p := Select(g, Choosed)[0];
    assert Select(g, Choosed) == [p];
    CrossKept(g, size);
    CrossRaysKept(g, size, p, Left);
    CrossRaysKept(g, size, p, Right);
    CrossRaysKept(g, size, p, Top);
    CrossRaysKept(g, size, p, Bottom);
    CrossAtCell(r, size, p, c);
    CrossAtCell(g, size, p, c);
    if c == p {
      RefreshedChosen(g, size, c);
    } else {
      SelectMembers(g, Choosed);
      RefreshedOffRun(g, size, c);
    }
  }

  /** Refreshing a grid refreshed with a single chosen cell changes nothing. */
  lemma CrossStable(g: Snapshot, size: int)
    requires |Select(g, Choosed)| == 1
    ensures Refreshed(Refreshed(g, size), size) == Refreshed(g, size)
  {
    var r := Refreshed(g, size);
    forall j, i | 0 <= j < |g| && 0 <= i < |g[j]|
      ensures Refreshed(r, size)[j][i] == r[j][i]
    {
      CrossStableCell(g, size, Coordinates(i, j));
    }
    SnapshotsEqual(Refreshed(r, size), r);
  }

  /** With a run along a row, the walks outward from its two ends stop at the same cells after the refresh. */
  lemma RowRaysKept(g: Snapshot, size: int, first: Coordinates, last: Coordinates, room: int)
    requires |Select(g, Choosed)| >= 2
    requires Select(g, Choosed)[0].y == Select(g, Choosed)[|Select(g, Choosed)| - 1].y
    requires first == Select(g, Choosed)[0] && last == Select(g, Choosed)[|Select(g, Choosed)| - 1]
    requires room == size - (last.x - first.x + 1)
    ensures LastAvailable(Refreshed(g, size), first, Left, room) == LastAvailable(g, first, Left, room)
    ensures LastAvailable(Refreshed(g, size), last, Right, room) == LastAvailable(g, last, Right, room)
  {
    ChosenEnds(g);
    ChosenInRow(g, last);
    RefreshedRay(g, size, first, Left);
    RefreshedRay(g, size, last, Right);
    LastAvailableCongruent(Refreshed(g, size), g, first, Left, room);
    LastAvailableCongruent(Refreshed(g, size), g, last, Right, room);
  }

  lemma RowStableCell(g: Snapshot, size: int, c: Coordinates)
    requires |Select(g, Choosed)| >= 2
    requires Select(g, Choosed)[0].y == Select(g, Choosed)[|Select(g, Choosed)| - 1].y
    requires InGrid(g, c)
    ensures At(Refreshed(Refreshed(g, size), size), c) == At(Refreshed(g, size), c)
  {
    var chosen := Select(g, Choosed);
    var first, last := chosen[0], chosen[|chosen| - 1];
    var room := size - (last.x - first.x + 1);
    RowSecondAt(g, size, c, first, last, room, LastAvailable(g, first, Left, room), LastAvailable(g, last, Right, room));
    RowAtCell(g, size, first, last, c);
    RowOffRun(g, size, c);
  }

  /** A second refresh of a row run sees the same run and the same walk bounds as the first. */
  lemma RowSecondAt(g: Snapshot, size: int, c: Coordinates, first: Coordinates, last: Coordinates, room: int, left: int, right: int)
    requires |Select(g, Choosed)| >= 2
    requires first == Select(g, Choosed)[0] && last == Select(g, Choosed)[|Select(g, Choosed)| - 1]
    requires first.y == last.y
    requires InGrid(g, c)
    requires room == size - (last.x - first.x + 1)
    requires left == LastAvailable(g, first, Left, room) && right == LastAvailable(g, last, Right, room)
    ensures At(Refreshed(Refreshed(g, size), size), c) == RowCell(first, last, c, ResetAt(At(Refreshed(g, size), c)), left, right)
  {
    var r := Refreshed(g, size);
    RefreshedLineEnds(g, size);
    RowRaysKept(g, size, first, last, room);
    RefreshedInGrid(g, size, c);
    RowAtBounds(r, size, c, first, last, room, left, right);
  }

  /** `RowAtCell` with its walk bounds given by name. */
  lemma RowAtBounds(g: Snapshot, size: int, c: Coordinates, first: Coordinates, last: Coordinates, room: int, left: int, right: int)
    requires |Select(g, Choosed)| >= 2
    requires first == Select(g, Choosed)[0] && last == Select(g, Choosed)[|Select(g, Choosed)| - 1]
    requires first.y == last.y
    requires InGrid(g, c)
    requires room == size - (last.x - first.x + 1)
    requires left == LastAvailable(g, first, Left, room) && right == LastAvailable(g, last, Right, room)
    ensures At(Refreshed(g, size), c) == RowCell(first, last, c, ResetAt(At(g, c)), left, right)
  {
    RowAtCell(g, size, first, last, c);
  }

  /** Off a run along a row, a refresh keeps each cell's reset state. */
  lemma RowOffRun(g: Snapshot, size: int, c: Coordinates)
    requires |Select(g, Choosed)| >= 2
    requires Select(g, Choosed)[0].y == Select(g, Choosed)[|Select(g, Choosed)| - 1].y
    requires InGrid(g, c)
    ensures var first, last := Select(g, Choosed)[0], Select(g, Choosed)[|Select(g, Choosed)| - 1];
      (c.y == first.y && first.x <= c.x <= last.x) || ResetAt(At(Refreshed(g, size), c)) == ResetAt(At(g, c))
  {
    if !OnRun(Select(g, Choosed), c) {
      if At(g, c) == Choosed {
        ChosenInRow(g, c);
      }
      RefreshedOffRun(g, size, c);
    }
  }

  /** Refreshing a grid refreshed with a run along a row changes nothing. */
  lemma RowStable(g: Snapshot, size: int)
    requires |Select(g, Choosed)| >= 2
    requires Select(g, Choosed)[0].y == Select(g, Choosed)[|Select(g, Choosed)| - 1].y
    ensures Refreshed(Refreshed(g, size), size) == Refreshed(g, size)
  {
    var r := Refreshed(g, size);
    forall j, i | 0 <= j < |g| && 0 <= i < |g[j]|
      ensures Refreshed(r, size)[j][i] == r[j][i]
    {
      RowStableCell(g, size, Coordinates(i, j));
    }
    SnapshotsEqual(Refreshed(r, size), r);
  }

  /** With a run down a column shared by its two ends, the walks outward from them stop at the same cells after the refresh. */
  lemma ColumnRaysKept(g: Snapshot, size: int, first: Coordinates, last: Coordinates, room: int)
    requires |Select(g, Choosed)| >= 2
    requires Select(g, Choosed)[0].y != Select(g, Choosed)[|Select(g, Choosed)| - 1].y
    requires Select(g, Choosed)[0].x == Select(g, Choosed)[|Select(g, Choosed)| - 1].x
    requires first == Select(g, Choosed)[0] && last == Select(g, Choosed)[|Select(g, Choosed)| - 1]
    requires room == size - (last.y - first.y + 1)
    ensures LastAvailable(Refreshed(g, size), first, Top, room) == LastAvailable(g, first, Top, room)
    ensures LastAvailable(Refreshed(g, size), last, Bottom, room) == LastAvailable(g, last, Bottom, room)
  {
    ChosenEnds(g);
    ChosenInRows(g, last);
    RefreshedRay(g, size, first, Top);
    RefreshedRay(g, size, last, Bottom);
    LastAvailableCongruent(Refreshed(g, size), g, first, Top, room);
    LastAvailableCongruent(Refreshed(g, size), g, last, Bottom, room);
  }

  lemma ColumnStableCell(g: Snapshot, size: int, c: Coordinates)
    requires |Select(g, Choosed)| >= 2
    requires Select(g, Choosed)[0].y != Select(g, Choosed)[|Select(g, Choosed)| - 1].y
    requires Select(g, Choosed)[0].x == Select(g, Choosed)[|Select(g, Choosed)| - 1].x
    requires InGrid(g, c)
    ensures At(Refreshed(Refreshed(g, size), size), c) == At(Refreshed(g, size), c)
  {
    var chosen := Select(g, Choosed);
    var first, last := chosen[0], chosen[|chosen| - 1];
    var room := size - (last.y - first.y + 1);
    ColumnSecondAt(g, size, c, first, last, room, LastAvailable(g, first, Top, room), LastAvailable(g, last, Bottom, room));
    ColumnAtCell(g, size, first, last, c);
    ColumnOffRun(g, size, c);
  }

  /** A second refresh of a column run whose ends share the column sees the same run and the same walk bounds. */
  lemma ColumnSecondAt(g: Snapshot, size: int, c: Coordinates, first: Coordinates, last: Coordinates, room: int, top: int, bottom: int)
    requires |Select(g, Choosed)| >= 2
    requires first == Select(g, Choosed)[0] && last == Select(g, Choosed)[|Select(g, Choosed)| - 1]
    requires first.y != last.y && first.x == last.x
    requires InGrid(g, c)
    requires room == size - (last.y - first.y + 1)
    requires top == LastAvailable(g, first, Top, room) && bottom == LastAvailable(g, last, Bottom, room)
    ensures At(Refreshed(Refreshed(g, size), size), c) == ColumnCell(first, last, c, ResetAt(At(Refreshed(g, size), c)), top, bottom)
  {
    var r := Refreshed(g, size);
    RefreshedLineEnds(g, size);
    ColumnRaysKept(g, size, first, last, room);
    RefreshedInGrid(g, size, c);
    ColumnAtBounds(r, size, c, first, last, room, top, bottom);
  }

  /** `ColumnAtCell` with its walk bounds given by name. */
  lemma ColumnAtBounds(g: Snapshot, size: int, c: Coordinates, first: Coordinates, last: Coordinates, room: int, top: int, bottom: int)
    requires |Select(g, Choosed)| >= 2
    requires first == Select(g, Choosed)[0] && last == Select(g, Choosed)[|Select(g, Choosed)| - 1]
    requires first.y != last.y
    requires InGrid(g, c)
    requires room == size - (last.y - first.y + 1)
    requires top == LastAvailable(g, first, Top, room) && bottom == LastAvailable(g, last, Bottom, room)
    ensures At(Refreshed(g, size), c) == ColumnCell(first, last, c, ResetAt(At(g, c)), top, bottom)
  {
    ColumnAtCell(g, size, first, last, c);
  }

  /**
   * Off a run down a column, a refresh keeps the boats, and on that column it keeps each cell's
   * reset state.
   */
  lemma ColumnOffRun(g: Snapshot, size: int, c: Coordinates)
    requires |Select(g, Choosed)| >= 2
    requires Select(g, Choosed)[0].y != Select(g, Choosed)[|Select(g, Choosed)| - 1].y
    requires InGrid(g, c)
    ensures var first, last := Select(g, Choosed)[0], Select(g, Choosed)[|Select(g, Choosed)| - 1];
      || (c.x == first.x && first.y <= c.y <= last.y)
      || (&& (At(Refreshed(g, size), c) == Boat <==> At(g, c) == Boat)
          && (c.x == first.x ==> ResetAt(At(Refreshed(g, size), c)) == ResetAt(At(g, c))))
  {
    if !OnRun(Select(g, Choosed), c) {
      if At(g, c) == Choosed {
        ChosenInRows(g, c);
      }
      RefreshedBoats(g, size, c);
      RefreshedChosen(g, size, c);
    }
  }

  /** Refreshing a grid refreshed with a run down a column shared by its two ends changes nothing. */
  lemma ColumnStable(g: Snapshot, size: int)
    requires |Select(g, Choosed)| >= 2
    requires Select(g, Choosed)[0].y != Select(g, Choosed)[|Select(g, Choosed)| - 1].y
    requires Select(g, Choosed)[0].x == Select(g, Choosed)[|Select(g, Choosed)| - 1].x
    ensures Refreshed(Refreshed(g, size), size) == Refreshed(g, size)
  {
    var r := Refreshed(g, size);
    forall j, i | 0 <= j < |g| && 0 <= i < |g[j]|
      ensures Refreshed(r, size)[j][i] == r[j][i]
    {
      ColumnStableCell(g, size, Coordinates(i, j));
    }
    SnapshotsEqual(Refreshed(r, size), r);
  }

  /**
   * Refresh is idempotent whenever the chosen cells lie along a row or a column (always so for
   * none or one): refreshing the refreshed grid again changes nothing.
   */
  lemma RefreshStable(g: Snapshot, size: int)
    requires Aligned(Select(g, Choosed))
    ensures Refreshed(Refreshed(g, size), size) == Refreshed(g, size)
  {
    var chosen := Select(g, Choosed);
    if |chosen| == 0 {
      NoneStable(g, size);
    } else if |chosen| == 1 {
      CrossStable(g, size);
    } else if chosen[0].y == chosen[|chosen| - 1].y {
      RowStable(g, size);
    } else {
      ColumnStable(g, size);
    }
  }

  // ---------------------------------------------------------------------------------------------
  // Click

  lemma {:induction false} RowSelectToggled(row: seq<State>, y: int, x: int, n: nat)
    requires n <= |row| && 0 <= x < |row|
    ensures |RowSelect(row[x := ToggleAt(row[x])], y, Choosed, n)| ==
      |RowSelect(row, y, Choosed, n)| + (if x < n then (if row[x] == Choosed then -1 else 1) else 0)
  {
    if n > 0 {
      RowSelectToggled(row, y, x, n - 1);
    }
  }

  lemma {:induction false} SelectRowsToggled(g: Snapshot, c: Coordinates, m: nat)
    requires InGrid(g, c) && m <= |g|
    ensures |SelectRows(Toggled(g, c), Choosed, m)| ==
      |SelectRows(g, Choosed, m)| + (if c.y < m then (if At(g, c) == Choosed then -1 else 1) else 0)
  {
    if m > 0 {
      SelectRowsToggled(g, c, m - 1);
      var t := Toggled(g, c);
      if m - 1 == c.y {
        RowSelectToggled(g[c.y], c.y, c.x, |g[c.y]|);
        assert t[m - 1] == g[c.y][c.x := ToggleAt(g[c.y][c.x])];
      } else {
        assert t[m - 1] == g[m - 1];
      }
    }
  }

  /**
   * A click flips the clicked cell between chosen and not chosen, leaves every other cell as it
   * was, and so adds or removes exactly one chosen cell.
   */
  lemma ToggledCounts(g: Snapshot, c: Coordinates)
    requires InGrid(g, c)
    ensures At(Toggled(g, c), c) == Choosed <==> At(g, c) != Choosed
    ensures forall e :: InGrid(g, e) && e != c ==> InGrid(Toggled(g, c), e) && At(Toggled(g, c), e) == At(g, e)
    ensures |Select(Toggled(g, c), Choosed)| == |Select(g, Choosed)| + (if At(g, c) == Choosed then -1 else 1)
  {
    SelectRowsToggled(g, c, |g|);
  }

  // ---------------------------------------------------------------------------------------------
  // Commit

  lemma {:induction false} RowSelectCommitted(row: seq<State>, other: seq<State>, y: int, n: nat)
    requires n <= |row| == |other|
    requires forall i :: 0 <= i < |row| ==> other[i] == CommitAt(row[i])
    ensures |RowSelect(other, y, Boat, n)| == |RowSelect(row, y, Boat, n)| + |RowSelect(row, y, Choosed, n)|
    ensures RowSelect(other, y, Choosed, n) == [] && RowSelect(other, y, Unselectable, n) == []
  {
    if n > 0 {
      RowSelectCommitted(row, other, y, n - 1);
    }
  }

  lemma {:induction false} SelectRowsCommitted(g: Snapshot, m: nat)
    requires m <= |g|
    ensures |SelectRows(Committed(g), Boat, m)| == |SelectRows(g, Boat, m)| + |SelectRows(g, Choosed, m)|
    ensures SelectRows(Committed(g), Choosed, m) == [] && SelectRows(Committed(g), Unselectable, m) == []
  {
    if m > 0 {
      SelectRowsCommitted(g, m - 1);
      RowSelectCommitted(g[m - 1], Committed(g)[m - 1], m - 1, |g[m - 1]|);
    }
  }

  /**
   * A commit adds exactly one boat cell per chosen cell, and leaves no cell chosen or unselectable:
   * every cell is then a boat or selectable.
   */
  lemma CommittedCounts(g: Snapshot)
    ensures |Select(Committed(g), Boat)| == |Select(g, Boat)| + |Select(g, Choosed)|
    ensures Select(Committed(g), Choosed) == [] && Select(Committed(g), Unselectable) == []
    ensures forall c :: InGrid(Committed(g), c) ==> At(Committed(g), c) in {Selectable, Boat}
  {
    SelectRowsCommitted(g, |g|);
    var f := Committed(g);
    SelectMembers(f, Choosed);
    SelectMembers(f, Unselectable);
  }

  /**
   * A click that completes the boat turns the `size` chosen cells of the refreshed grid into boat
   * cells and leaves nothing chosen or unselectable.
   */
  lemma ClickedCommits(g: Snapshot, size: int, c: Coordinates)
    requires InGrid(g, c) && Commits(g, size, c)
    ensures var r := Refreshed(Toggled(g, c), size);
      && |Select(Clicked(g, size, c), Boat)| == |Select(r, Boat)| + size
      && Select(Clicked(g, size, c), Choosed) == []
      && Select(Clicked(g, size, c), Unselectable) == []
  {
    CommittedCounts(Refreshed(Toggled(g, c), size));
  }

  /** A click that does not complete the boat leaves the refreshed grid, with at most `size - 1` or more than `size` cells chosen. */
  lemma ClickedRefreshes(g: Snapshot, size: int, c: Coordinates)
    requires InGrid(g, c) && !Commits(g, size, c)
    ensures Clicked(g, size, c) == Refreshed(Toggled(g, c), size)
    ensures |Select(Clicked(g, size, c), Choosed)| != size
  {
  }
}
