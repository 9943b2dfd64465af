/**
 * The selection engine of the fleet-positioning view, as pure functions over a snapshot of the
 * grid of cell states. The imperative view in module Positioning is proved to compute exactly these.
 */
module Selection {

  import opened Grid

  /** The state of one cell of the positioning grid. */
  datatype State = Selectable | Unselectable | Choosed | Boat

  /** A snapshot of the grid, indexed [y][x]: one sequence per row. */
  type Snapshot = seq<seq<State>>

  /** All rows have the same width. */
  predicate Rectangular(g: Snapshot)
  {
    forall j :: 0 <= j < |g| ==> |g[j]| == |g[0]|
  }

  predicate InGrid(g: Snapshot, c: Coordinates)
  {
    0 <= c.y < |g| && 0 <= c.x < |g[c.y]|
  }

  function At(g: Snapshot, c: Coordinates): State
    requires InGrid(g, c)
  {
    g[c.y][c.x]
  }

  /** A cell a walk may pass: inside the grid and not holding a boat. */
  predicate Free(g: Snapshot, c: Coordinates)
  {
    InGrid(g, c) && At(g, c) != Boat
  }

  // ---------------------------------------------------------------------------------------------
  // Directions and walks

  /** The four walking directions, each a unit step along one axis. */
  datatype Direction = Bottom | Left | Right | Top
  {
    function SensX(): int
    {
      match this
      case Bottom => 0
      case Left => -1
      case Right => 1
      case Top => 0
    }

    function SensY(): int
    {
      match this
      case Bottom => 1
      case Left => 0
      case Right => 0
      case Top => -1
    }

    /** True when the step leaves x alone and moves y: despite the name, the vertical directions. */
    predicate IsHorizontal(): (r: bool)
      ensures r <==> this == Top || this == Bottom
    {
      SensX() == 0 && SensY() != 0
    }
  }

  /** The cell `m` steps from `p` in direction `d`. */
  function Pos(p: Coordinates, d: Direction, m: int): (q: Coordinates)
  {
    match d
    case Bottom => Coordinates(p.x, p.y + m)
    case Left => Coordinates(p.x - m, p.y)
    case Right => Coordinates(p.x + m, p.y)
    case Top => Coordinates(p.x, p.y - m)
  }

  /**
   * Each direction moves one unit along exactly one axis, LEFT undoes RIGHT and TOP undoes BOTTOM,
   * and adding the direction's unit step to the cell `m` steps out gives the cell `m + 1` steps out.
   */
  lemma SensSteps(p: Coordinates, d: Direction, m: int)
    ensures (d.SensX() == 0) != (d.SensY() == 0)
    ensures -1 <= d.SensX() <= 1 && -1 <= d.SensY() <= 1
    ensures Left.SensX() == -Right.SensX() && Top.SensY() == -Bottom.SensY()
    ensures Pos(p, d, m + 1) == Coordinates(Pos(p, d, m).x + d.SensX(), Pos(p, d, m).y + d.SensY())
  {
  }

  /** The coordinate a walk in direction `d` reports: y for Top and Bottom, x for Left and Right. */
  function Reported(q: Coordinates, d: Direction): (r: int)
    ensures d == Top || d == Bottom ==> r == q.y
    ensures d == Left || d == Right ==> r == q.x
  {
    if d.IsHorizontal() then q.y else q.x
  }

  /**
   * The number of steps a walk from `p` in direction `d` takes when it is allowed `size` steps,
   * continuing from step `k`: it stops at the first cell that is outside the grid or holds a boat,
   * or once `size` steps have been taken.
   */
  function Reach(g: Snapshot, p: Coordinates, d: Direction, size: int, k: nat): (n: nat)
    ensures k <= n
    ensures n == k || n <= size
    ensures forall m :: k <= m < n ==> Free(g, Pos(p, d, m))
    ensures n < size ==> !Free(g, Pos(p, d, n))
    decreases if k < size then size - k else 0
  {
    if k < size && Free(g, Pos(p, d, k)) then Reach(g, p, d, size, k + 1) else k
  }

  /** What the walk reports: the coordinate, along its axis, of the cell where it stopped. */
  function LastAvailable(g: Snapshot, p: Coordinates, d: Direction, size: int): int
  {
    Reported(Pos(p, d, Reach(g, p, d, size, 0)), d)
  }

  /** The distance from `p`, counted in direction `d`, of the position reported as `r`. */
  function Distance(p: Coordinates, d: Direction, r: int): int
  {
    match d
    case Bottom => r - p.y
    case Left => p.x - r
    case Right => r - p.x
    case Top => p.y - r
  }

  /** Every cell of the ray from `p` in direction `d` is equally free on `g` and on `h`. */
  ghost predicate SameRay(g: Snapshot, h: Snapshot, p: Coordinates, d: Direction)
  {
    forall m: nat :: Free(g, Pos(p, d, m)) == Free(h, Pos(p, d, m))
  }

  /** `g` and `h` have the same shape and boats in the same cells. */
  predicate SameBoats(g: Snapshot, h: Snapshot)
  {
    && |g| == |h|
    && (forall j :: 0 <= j < |g| ==> |g[j]| == |h[j]|)
    && (forall j, i :: 0 <= j < |g| && 0 <= i < |g[j]| ==> (g[j][i] == Boat) == (h[j][i] == Boat))
  }

  /** Two grids on which every cell of the ray from `p` in direction `d` is equally free give the same walk. */
  lemma {:induction false} ReachCongruent(g: Snapshot, h: Snapshot, p: Coordinates, d: Direction, size: int, k: nat)
    requires SameRay(g, h, p, d)
    ensures Reach(g, p, d, size, k) == Reach(h, p, d, size, k)
    decreases if k < size then size - k else 0
  {
    if k < size && Free(g, Pos(p, d, k)) {
      ReachCongruent(g, h, p, d, size, k + 1);
    }
  }

  lemma LastAvailableCongruent(g: Snapshot, h: Snapshot, p: Coordinates, d: Direction, size: int)
    requires SameRay(g, h, p, d)
    ensures LastAvailable(g, p, d, size) == LastAvailable(h, p, d, size)
  {
    ReachCongruent(g, h, p, d, size, 0);
  }

  /** Grids that have boats in the same cells give the same walks. */
  lemma LastAvailableSameBoats(g: Snapshot, h: Snapshot, p: Coordinates, d: Direction, size: int)
    requires SameBoats(g, h)
    ensures LastAvailable(g, p, d, size) == LastAvailable(h, p, d, size)
  {
    forall m: nat
      ensures Free(g, Pos(p, d, m)) == Free(h, Pos(p, d, m))
    {
    }
    LastAvailableCongruent(g, h, p, d, size);
  }

  /** Left and Top walks report at most the start coordinate, Right and Bottom walks at least. */
  lemma LastAvailableAround(g: Snapshot, p: Coordinates, size: int)
    ensures LastAvailable(g, p, Left, size) <= p.x <= LastAvailable(g, p, Right, size)
    ensures LastAvailable(g, p, Top, size) <= p.y <= LastAvailable(g, p, Bottom, size)
  {
  }

  // ---------------------------------------------------------------------------------------------
  // Row-major filtering

  /** The cells of row `y` among its first `n` columns whose state is `s`, left to right. */
  function RowSelect(row: seq<State>, y: int, s: State, n: nat): seq<Coordinates>
    requires n <= |row|
  {
    if n == 0 then []
    else RowSelect(row, y, s, n - 1) + (if row[n - 1] == s then [Coordinates(n - 1, y)] else [])
  }

  /** The cells of the first `m` rows whose state is `s`, in row-major order. */
  function SelectRows(g: Snapshot, s: State, m: nat): seq<Coordinates>
    requires m <= |g|
  {
    if m == 0 then [] else SelectRows(g, s, m - 1) + RowSelect(g[m - 1], m - 1, s, |g[m - 1]|)
  }

  /** The cells of the grid whose state is `s`, in row-major order. */
  function Select(g: Snapshot, s: State): seq<Coordinates>
  {
    SelectRows(g, s, |g|)
  }

  lemma {:induction false} RowSelectMembers(row: seq<State>, y: int, s: State, n: nat)
    requires n <= |row|
    ensures forall c :: c in RowSelect(row, y, s, n) <==> c.y == y && 0 <= c.x < n && row[c.x] == s
    ensures forall c :: c in RowSelect(row, y, s, n) ==> c.y == y && 0 <= c.x < n
  {
    if n > 0 {
      RowSelectMembers(row, y, s, n - 1);
    }
  }

  lemma {:induction false} SelectRowsMembers(g: Snapshot, s: State, m: nat)
    requires m <= |g|
    ensures forall c :: c in SelectRows(g, s, m) <==> 0 <= c.y < m && InGrid(g, c) && At(g, c) == s
  {
    if m > 0 {
      SelectRowsMembers(g, s, m - 1);
      RowSelectMembers(g[m - 1], m - 1, s, |g[m - 1]|);
    }
  }

  /** A cell is listed exactly when it is in the grid and has state `s`. */
  lemma SelectMembers(g: Snapshot, s: State)
    ensures forall c :: c in Select(g, s) <==> InGrid(g, c) && At(g, c) == s
  {
    SelectRowsMembers(g, s, |g|);
  }

  lemma {:induction false} RowSelectSorted(row: seq<State>, y: int, s: State, n: nat)
    requires n <= |row|
    ensures RowMajorSorted(RowSelect(row, y, s, n))
  {
    if n > 0 {
      RowSelectSorted(row, y, s, n - 1);
      RowSelectMembers(row, y, s, n - 1);
      var r := RowSelect(row, y, s, n - 1);
      var t: seq<Coordinates> := if row[n - 1] == s then [Coordinates(n - 1, y)] else [];
      assert forall a :: 0 <= a < |r| ==> r[a] in r;
      assert RowSelect(row, y, s, n) == r + t;
    }
  }

  lemma {:induction false} SelectRowsSorted(g: Snapshot, s: State, m: nat)
    requires m <= |g|
    ensures RowMajorSorted(SelectRows(g, s, m))
  {
    if m > 0 {
      SelectRowsSorted(g, s, m - 1);
      SelectRowsMembers(g, s, m - 1);
      RowSelectSorted(g[m - 1], m - 1, s, |g[m - 1]|);
      RowSelectMembers(g[m - 1], m - 1, s, |g[m - 1]|);
      var r := SelectRows(g, s, m - 1);
      var t := RowSelect(g[m - 1], m - 1, s, |g[m - 1]|);
      assert forall a :: 0 <= a < |r| ==> r[a] in r;
      assert forall b :: 0 <= b < |t| ==> t[b] in t;
    }
  }

  /** The listing is in strict row-major order: y outer, x inner, no cell twice. */
  lemma SelectSorted(g: Snapshot, s: State)
    ensures RowMajorSorted(Select(g, s))
  {
    SelectRowsSorted(g, s, |g|);
  }

  lemma {:induction false} SelectRowsCongruent(g: Snapshot, h: Snapshot, s: State, m: nat)
    requires m <= |g| == |h|
    requires forall j :: 0 <= j < |g| ==> |g[j]| == |h[j]|
    requires forall j, i :: 0 <= j < |g| && 0 <= i < |g[j]| ==> (g[j][i] == s) == (h[j][i] == s)
    ensures SelectRows(g, s, m) == SelectRows(h, s, m)
  {
    if m > 0 {
      SelectRowsCongruent(g, h, s, m - 1);
      RowSelectCongruent(g[m - 1], h[m - 1], m - 1, s, |g[m - 1]|);
    }
  }

  lemma {:induction false} RowSelectCongruent(row: seq<State>, other: seq<State>, y: int, s: State, n: nat)
    requires n <= |row| == |other|
    requires forall i :: 0 <= i < |row| ==> (row[i] == s) == (other[i] == s)
    ensures RowSelect(row, y, s, n) == RowSelect(other, y, s, n)
  {
    if n > 0 {
      RowSelectCongruent(row, other, y, s, n - 1);
    }
  }

  /** Two grids of the same shape that agree on which cells have state `s` list the same cells. */
  lemma SelectCongruent(g: Snapshot, h: Snapshot, s: State)
    requires |g| == |h|
    requires forall j :: 0 <= j < |g| ==> |g[j]| == |h[j]|
    requires forall j, i :: 0 <= j < |g| && 0 <= i < |g[j]| ==> (g[j][i] == s) == (h[j][i] == s)
    ensures Select(g, s) == Select(h, s)
  {
    SelectRowsCongruent(g, h, s, |g|);
  }

  /** Grids of the same shape that agree cell by cell are equal. */
  lemma SnapshotsEqual(g: Snapshot, h: Snapshot)
    requires |g| == |h|
    requires forall j :: 0 <= j < |g| ==> |g[j]| == |h[j]|
    requires forall j, i :: 0 <= j < |g| && 0 <= i < |g[j]| ==> g[j][i] == h[j][i]
    ensures g == h
  {
    forall j | 0 <= j < |g|
      ensures g[j] == h[j]
    {
    }
  }

  // ---------------------------------------------------------------------------------------------
  // Refresh

  /** The opening reset of a refresh: every cell that is neither a boat nor chosen becomes selectable. */
  function ResetAt(s: State): State
  {
    if s == Boat || s == Choosed then s else Selectable
  }

  /**
   * The state of cell `c`, whose reset state is `s`, after a refresh with exactly one chosen cell `p`:
   * boats stay; off the row and the column of `p` selectable cells become unselectable; on the row,
   * cells left of `left` or right of `right` become unselectable, and on the column cells above `top`
   * or below `bottom`.
   */
  function CrossCell(p: Coordinates, c: Coordinates, s: State, left: int, right: int, top: int, bottom: int): State
  {
    if s == Boat then Boat
    else if c.x != p.x && c.y != p.y then (if s == Selectable then Unselectable else s)
    else if c.y == p.y then (if c.x < left || c.x > right then Unselectable else s)
    else (if c.y < top || c.y > bottom then Unselectable else s)
  }

  /** The cross case, with the bounds the four walks from `p` report, each allowed `size - 1` steps. */
  function CrossAt(g: Snapshot, size: int, p: Coordinates, c: Coordinates, s: State): State
  {
    CrossCell(p, c, s,
      LastAvailable(g, p, Left, size - 1), LastAvailable(g, p, Right, size - 1),
      LastAvailable(g, p, Top, size - 1), LastAvailable(g, p, Bottom, size - 1))
  }

  /**
   * The state of cell `c`, whose reset state is `s`, after a refresh whose chosen run is row `first.y`
   * from `first.x` to `last.x`: the run is chosen; other boats stay; everything else off the row is
   * unselectable, and on the row so is every cell left of `left` or right of `right`.
   */
  function RowCell(first: Coordinates, last: Coordinates, c: Coordinates, s: State, left: int, right: int): State
  {
    if c.y == first.y && first.x <= c.x <= last.x then Choosed
    else if s == Boat then Boat
    else if c.y != first.y then Unselectable
    else if c.x < left || c.x > right then Unselectable
    else s
  }

  /**
   * The state of cell `c`, whose reset state is `s`, after a refresh whose chosen run is column `first.x`
   * from `first.y` to `last.y`: the run is chosen; other boats stay; everything else off the column is
   * unselectable, and on the column so is every cell above `top` or below `bottom`.
   */
  function ColumnCell(first: Coordinates, last: Coordinates, c: Coordinates, s: State, top: int, bottom: int): State
  {
    if c.x == first.x && first.y <= c.y <= last.y then Choosed
    else if s == Boat then Boat
    else if c.x != first.x then Unselectable
    else if c.y < top || c.y > bottom then Unselectable
    else s
  }

  /**
   * The case of at least two chosen cells, `first` and `last` in row-major order. When they share a
   * row the run is that row, otherwise the column of `first`; the walks from the two ends are allowed
   * as many steps as the boat has cells beyond the run.
   */
  function LineAt(g: Snapshot, size: int, first: Coordinates, last: Coordinates, c: Coordinates, s: State): State
  {
    if first.y == last.y then
      var room := size - (last.x - first.x + 1);
      RowCell(first, last, c, s, LastAvailable(g, first, Left, room), LastAvailable(g, last, Right, room))
    else
      var room := size - (last.y - first.y + 1);
      ColumnCell(first, last, c, s, LastAvailable(g, first, Top, room), LastAvailable(g, last, Bottom, room))
  }

  /** The state of cell `c` once the grid `g` has been refreshed for a boat of `size` cells. */
  function RefreshedAt(g: Snapshot, size: int, c: Coordinates): State
    requires InGrid(g, c)
  {
    var chosen := Select(g, Choosed);
    if |chosen| == 0 then (if At(g, c) == Boat then Boat else Selectable)
    else if |chosen| == 1 then CrossAt(g, size, chosen[0], c, ResetAt(At(g, c)))
    else LineAt(g, size, chosen[0], chosen[|chosen| - 1], c, ResetAt(At(g, c)))
  }

  /** The whole grid after a refresh. */
  function Refreshed(g: Snapshot, size: int): (r: Snapshot)
    ensures |r| == |g|
    ensures forall j :: 0 <= j < |g| ==> |r[j]| == |g[j]|
    ensures forall j, i :: 0 <= j < |g| && 0 <= i < |g[j]| ==> r[j][i] == RefreshedAt(g, size, Coordinates(i, j))
  {
    seq(|g|, j requires 0 <= j < |g| =>
      seq(|g[j]|, i requires 0 <= i < |g[j]| => RefreshedAt(g, size, Coordinates(i, j))))
  }

  // ---------------------------------------------------------------------------------------------
  // The loop blocks of a refresh and a commit, each as a transformation of the whole grid

  /** What the body of a loop over every cell does to cell `c` in state `s`. */
  datatype CellRule =
    | ResetRule                      // neither boat nor chosen: selectable
    | ClearRule                      // not a boat: selectable
    | OffCrossRule(p: Coordinates)   // off the row and the column of `p`, selectable: unselectable
    | OffRowRule(y: int)             // off row `y`, not a boat: unselectable
    | OffColumnRule(x: int)          // off column `x`, not a boat: unselectable

  function ApplyCellRule(rule: CellRule, c: Coordinates, s: State): State
  {
    match rule
    case ResetRule => if s != Boat && s != Choosed then Selectable else s
    case ClearRule => if s != Boat then Selectable else s
    case OffCrossRule(p) => if c.x != p.x && c.y != p.y && s == Selectable then Unselectable else s
    case OffRowRule(y) => if c.y != y && s != Boat then Unselectable else s
    case OffColumnRule(x) => if c.x != x && s != Boat then Unselectable else s
  }

  function MapCells(g: Snapshot, rule: CellRule): (r: Snapshot)
    ensures |r| == |g|
    ensures forall j :: 0 <= j < |g| ==> |r[j]| == |g[j]|
    ensures forall j, i :: 0 <= j < |g| && 0 <= i < |g[j]| ==> r[j][i] == ApplyCellRule(rule, Coordinates(i, j), g[j][i])
  {
    seq(|g|, j requires 0 <= j < |g| =>
      seq(|g[j]|, i requires 0 <= i < |g[j]| => ApplyCellRule(rule, Coordinates(i, j), g[j][i])))
  }

  /** What the body of a loop along part of one row or column does to a cell in state `s`. */
  datatype LineRule =
    | UnselectRule   // not a boat: unselectable
    | ChooseRule     // chosen, whatever it was

  function ApplyLineRule(rule: LineRule, s: State): State
  {
    match rule
    case UnselectRule => if s != Boat then Unselectable else s
    case ChooseRule => Choosed
  }

  /** Applies `rule` to the cells of row `y` with `lo <= x < hi`. */
  function MapRowRange(g: Snapshot, y: int, lo: int, hi: int, rule: LineRule): (r: Snapshot)
    ensures |r| == |g|
    ensures forall j :: 0 <= j < |g| ==> |r[j]| == |g[j]|
    ensures forall j, i :: 0 <= j < |g| && 0 <= i < |g[j]| ==>
      r[j][i] == if j == y && lo <= i < hi then ApplyLineRule(rule, g[j][i]) else g[j][i]
  {
    seq(|g|, j requires 0 <= j < |g| =>
      seq(|g[j]|, i requires 0 <= i < |g[j]| =>
        if j == y && lo <= i < hi then ApplyLineRule(rule, g[j][i]) else g[j][i]))
  }

  /** Applies `rule` to the cells of column `x` with `lo <= y < hi`. */
  function MapColumnRange(g: Snapshot, x: int, lo: int, hi: int, rule: LineRule): (r: Snapshot)
    ensures |r| == |g|
    ensures forall j :: 0 <= j < |g| ==> |r[j]| == |g[j]|
    ensures forall j, i :: 0 <= j < |g| && 0 <= i < |g[j]| ==>
      r[j][i] == if i == x && lo <= j < hi then ApplyLineRule(rule, g[j][i]) else g[j][i]
  {
    seq(|g|, j requires 0 <= j < |g| =>
      seq(|g[j]|, i requires 0 <= i < |g[j]| =>
        if i == x && lo <= j < hi then ApplyLineRule(rule, g[j][i]) else g[j][i]))
  }

  /** Gives every listed cell the state `s`. */
  function WithStates(g: Snapshot, cases: seq<Coordinates>, s: State): (r: Snapshot)
    ensures |r| == |g|
    ensures forall j :: 0 <= j < |g| ==> |r[j]| == |g[j]|
    ensures forall j, i :: 0 <= j < |g| && 0 <= i < |g[j]| ==>
      r[j][i] == if Coordinates(i, j) in cases then s else g[j][i]
  {
    seq(|g|, j requires 0 <= j < |g| =>
      seq(|g[j]|, i requires 0 <= i < |g[j]| => if Coordinates(i, j) in cases then s else g[j][i]))
  }

  // ---------------------------------------------------------------------------------------------
  // Click and commit

  /** A click flips a chosen cell back to selectable and makes any other cell chosen. */
  function ToggleAt(s: State): State
  {
    if s == Choosed then Selectable else Choosed
  }

  function Toggled(g: Snapshot, c: Coordinates): (r: Snapshot)
    requires InGrid(g, c)
  {
    g[c.y := g[c.y][c.x := ToggleAt(At(g, c))]]
  }

  /** A commit turns chosen cells into boat cells and reopens unselectable ones. */
  function CommitAt(s: State): State
  {
    if s == Choosed then Boat else if s == Unselectable then Selectable else s
  }

  function Committed(g: Snapshot): (r: Snapshot)
    ensures |r| == |g|
    ensures forall j :: 0 <= j < |g| ==> |r[j]| == |g[j]|
    ensures forall j, i :: 0 <= j < |g| && 0 <= i < |g[j]| ==> r[j][i] == CommitAt(g[j][i])
  {
    seq(|g|, j requires 0 <= j < |g| => seq(|g[j]|, i requires 0 <= i < |g[j]| => CommitAt(g[j][i])))
  }

  /** Whether a click at `c` on `g`, for a boat of `size` cells, ends in a commit. */
  predicate Commits(g: Snapshot, size: int, c: Coordinates)
    requires InGrid(g, c)
  {
    |Select(Refreshed(Toggled(g, c), size), Choosed)| == size
  }

  /** The grid after a click at `c` while a boat of `size` cells is selected. */
  function Clicked(g: Snapshot, size: int, c: Coordinates): Snapshot
    requires InGrid(g, c)
  {
    var r := Refreshed(Toggled(g, c), size);
    if Commits(g, size, c) then Committed(r) else r
  }
}
