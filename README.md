# Fleet positioning: the cell-selection engine

This project models the selection engine of the Battleship fleet-positioning window. The player
picks a boat and then clicks grid cells one by one. After every click the engine recomputes which
cells may still be picked:

- with no chosen cell, everything but the boats is selectable;
- with one chosen cell, the "cross" through it is selectable, reaching as far as a boat of the
  selected size could stretch;
- with two or more chosen cells, the straight run joining the first and the last is chosen, and
  the cells that could extend that run are selectable.

When the number of chosen cells equals the boat's size, the chosen cells become boat cells, the
unselectable cells are reopened and the boat is deselected. The one boat kind in the model is the
aircraft carrier: it has four cells and the name "Aircraft carrier".

Layout:

- `wrappers.dfy` (module `Wrappers`): `Option`.
- `grid.dfy` (module `Grid`): `Coordinates` and the row-major order of cells.
- `boats.dfy` (module `Boats`): the aircraft carrier, its two constructors, its size and its name.
- `selection.dfy` (module `Selection`): the pure definitions the methods are proved against.
  - A grid is a `seq<seq<State>>`, indexed `[y][x]`.
  - `Direction` with `SensX`, `SensY` and `IsHorizontal`.
  - The bounded walk: `Reach` and `LastAvailable`.
  - The row-major filter `Select`.
  - The refreshed grid `Refreshed`, defined cell by cell.
  - The click: `Toggled`, `Committed` and `Clicked`.
  - One transformer per kind of loop block.
- `fleet_positioning_view.dfy` (module `Positioning`): the class `FleetPositioningView`.
  - It holds an `array2<State>` updated in place and an optional selected boat.
  - Each method is proved to leave the array equal to the matching function of `Selection`,
    applied to the array it started from.
- `refresh_steps.dfy` (module `RefreshSteps`): lemmas that add up the loop blocks of a refresh or a
  commit into `Refreshed` or `Committed`.
- `refresh_properties.dfy` (module `RefreshProperties`): what those functions mean.
  - What a walk reports.
  - Which cells end chosen, boat, unselectable or selectable after a refresh, in terms of
    reachability from the chosen cells.
  - That a refresh is idempotent.
  - What a click adds or removes, and what a commit does to the counts.

## Model

| member | source | states |
|---|---|---|
| Boats.NewAircraftCarrier | src/fr/pinguet62/battleship/model/boat/AircraftCarrier.java:10-11 | the default constructor builds an aircraft carrier with no top-left cell and no alignment |
| Boats.NewPositionedAircraftCarrier | src/fr/pinguet62/battleship/model/boat/AircraftCarrier.java:21-24 | the positioned constructor hands its top-left cell and alignment to the boat unchanged |
| Boats.AircraftCarrierSize | src/fr/pinguet62/battleship/model/boat/AircraftCarrier.java:31-34 | every aircraft carrier has size 4 |
| Boats.AircraftCarrierName | src/fr/pinguet62/battleship/model/boat/AircraftCarrier.java:26-29 | every aircraft carrier is named "Aircraft carrier" |
| Boats.SizeAndNameIgnorePosition | src/fr/pinguet62/battleship/model/boat/AircraftCarrier.java:21-34 | size and name depend on the kind alone, not on the constructor or on the position and alignment given to it |
| Selection.SensSteps | src/fr/pinguet62/battleship/view/positioning/FleetPositioningView.java:28-68 | each direction steps one unit along exactly one axis (BOTTOM +y, LEFT -x, RIGHT +x, TOP -y, so LEFT and RIGHT, TOP and BOTTOM cancel), and adding `getSensX`/`getSensY` to the cell `m` steps out gives the cell `m + 1` steps out |
| Selection.Direction.IsHorizontal | src/fr/pinguet62/battleship/view/positioning/FleetPositioningView.java:75-77 | "horizontal" holds exactly for TOP and BOTTOM, the directions that move y |
| Selection.Reported | src/fr/pinguet62/battleship/view/positioning/FleetPositioningView.java:226-229 | a walk reports the y coordinate for TOP and BOTTOM and the x coordinate for LEFT and RIGHT |
| Selection.Reach | src/fr/pinguet62/battleship/view/positioning/FleetPositioningView.java:218-225 | a walk resumed at step `k` stops at a step `n >= k`, no later than `size` unless it already started past it; every cell it passes is in the grid and not a boat; when it stops before `size`, it stops on a cell outside the grid or on a boat |
| Selection.LastAvailableAround | src/fr/pinguet62/battleship/view/positioning/FleetPositioningView.java:214-230 | LEFT and TOP walks report at most the start's coordinate, RIGHT and BOTTOM walks at least it |
| Selection.SelectMembers | src/fr/pinguet62/battleship/view/positioning/FleetPositioningView.java:239-246 | a cell is listed exactly when it is in the grid and has the requested state |
| Selection.SelectSorted | src/fr/pinguet62/battleship/view/positioning/FleetPositioningView.java:241-244 | the list is in strict row-major order, y outer and x inner |
| RefreshSteps.ResetKeepsBoatsAndChoices | src/fr/pinguet62/battleship/view/positioning/FleetPositioningView.java:251-255 | the opening reset keeps the list of chosen cells and exactly the same boat cells |
| Positioning.FleetPositioningView.constructor | src/fr/pinguet62/battleship/view/positioning/FleetPositioningView.java:149-156 | a fresh view has a height by width grid, every cell selectable, and no boat selected |
| Positioning.FleetPositioningView.SelectBoat | src/fr/pinguet62/battleship/view/positioning/FleetPositioningView.java:129-138 | picking a boat in the list makes it the selected boat |
| Positioning.FleetPositioningView.ActionPerformed | src/fr/pinguet62/battleship/view/positioning/FleetPositioningView.java:168-197 | with no selected boat nothing changes; otherwise the grid becomes `Clicked` of the old grid, and the boat is deselected exactly when the click commits |
| Positioning.FleetPositioningView.GetLastAvailable | src/fr/pinguet62/battleship/view/positioning/FleetPositioningView.java:214-230 | the loop leaves the grid unchanged and returns `LastAvailable` of the grid |
| Positioning.FleetPositioningView.GetSelectedCases | src/fr/pinguet62/battleship/view/positioning/FleetPositioningView.java:239-246 | returns exactly the cells in the requested state, in row-major order, and changes nothing |
| Positioning.FleetPositioningView.Refresh | src/fr/pinguet62/battleship/view/positioning/FleetPositioningView.java:249-367 | the grid becomes `Refreshed` of the old grid for the selected boat's size |
| Positioning.FleetPositioningView.RefreshCross | src/fr/pinguet62/battleship/view/positioning/FleetPositioningView.java:270-308 | the one-chosen-cell branch yields `Refreshed` of the grid before the reset |
| Positioning.FleetPositioningView.RefreshLine | src/fr/pinguet62/battleship/view/positioning/FleetPositioningView.java:309-366 | the branch for two or more chosen cells yields `Refreshed` of the grid before the reset |
| Positioning.FleetPositioningView.RefreshRow | src/fr/pinguet62/battleship/view/positioning/FleetPositioningView.java:315-339 | the branch where the first and last chosen cells share a row yields `Refreshed` |
| Positioning.FleetPositioningView.RefreshColumn | src/fr/pinguet62/battleship/view/positioning/FleetPositioningView.java:341-365 | the branch where they lie in different rows yields `Refreshed` |
| Positioning.FleetPositioningView.JoinRow | src/fr/pinguet62/battleship/view/positioning/FleetPositioningView.java:317-325 | every non-boat cell off the row becomes unselectable; then the row from first to last becomes chosen |
| Positioning.FleetPositioningView.JoinColumn | src/fr/pinguet62/battleship/view/positioning/FleetPositioningView.java:343-351 | every non-boat cell off the column becomes unselectable; then the column from first to last becomes chosen |
| Positioning.FleetPositioningView.UnselectRowOutside | src/fr/pinguet62/battleship/view/positioning/FleetPositioningView.java:331-338 | non-boat cells of the row left of `left` or right of `right` become unselectable; nothing else changes |
| Positioning.FleetPositioningView.UnselectColumnOutside | src/fr/pinguet62/battleship/view/positioning/FleetPositioningView.java:357-364 | non-boat cells of the column above `top` or below `bottom` become unselectable; nothing else changes |
| Positioning.FleetPositioningView.MapGrid | src/fr/pinguet62/battleship/view/positioning/FleetPositioningView.java:251-255 | one row-major pass over the whole grid: every cell becomes `ApplyCellRule(rule, c, old state)` and nothing else changes; the same pass shape serves the reset and the passes at 266-269, 276-280, 318-322 and 344-348 |
| Positioning.FleetPositioningView.MapRow | src/fr/pinguet62/battleship/view/positioning/FleetPositioningView.java:324-325 | every cell of row `y` with `lo <= x < hi` becomes `ApplyLineRule(rule, old state)` and every other cell keeps its state; the same loop shape serves 287-294 and 331-338 |
| Positioning.FleetPositioningView.MapColumn | src/fr/pinguet62/battleship/view/positioning/FleetPositioningView.java:350-351 | every cell of column `x` with `lo <= y < hi` becomes `ApplyLineRule(rule, old state)` and every other cell keeps its state; the same loop shape serves 300-307 and 357-364 |
| Positioning.FleetPositioningView.SetStates | src/fr/pinguet62/battleship/view/positioning/FleetPositioningView.java:185-188 | the listed cells take the given state; nothing else changes |
| RefreshProperties.LastAvailableStops | src/fr/pinguet62/battleship/view/positioning/FleetPositioningView.java:214-230 | the reported coordinate is `n` steps from the start, with `n` between 0 and `size` (0 when `size` is not positive); the `n` cells before it are free; when `n < size` the cell at `n` is outside the grid or a boat |
| RefreshProperties.WithinWalk | src/fr/pinguet62/battleship/view/positioning/FleetPositioningView.java:218-225 | a cell `m >= 1` steps out lies inside the walk and is free exactly when `m <= size` and every cell up to it is free |
| RefreshProperties.ChosenBetween | src/fr/pinguet62/battleship/view/positioning/FleetPositioningView.java:258-262 | every chosen cell lies, in row-major order, between the first and the last chosen cell |
| RefreshProperties.RefreshedChosen | src/fr/pinguet62/battleship/view/positioning/FleetPositioningView.java:264-366 | after a refresh a cell is chosen exactly when it is on the run: the only chosen cell, the row from first to last, or the column of the first from first.y to last.y |
| RefreshProperties.RefreshedBoats | src/fr/pinguet62/battleship/view/positioning/FleetPositioningView.java:264-366 | a refresh never creates a boat cell and keeps every boat cell that is off the run |
| RefreshProperties.NoChoiceSelectable | src/fr/pinguet62/battleship/view/positioning/FleetPositioningView.java:264-269 | with no chosen cell, a cell ends selectable exactly when it is not a boat |
| RefreshProperties.CrossAtCell | src/fr/pinguet62/battleship/view/positioning/FleetPositioningView.java:270-308 | with one chosen cell, each cell ends as `CrossCell` with the four walk bounds, and the chosen cell lies within those bounds |
| RefreshProperties.RefreshedOffCross | src/fr/pinguet62/battleship/view/positioning/FleetPositioningView.java:275-280 | with one chosen cell, every non-boat cell off its row and column ends unselectable |
| RefreshProperties.CrossSelectable | src/fr/pinguet62/battleship/view/positioning/FleetPositioningView.java:270-308 | with one chosen cell `p`, a cell ends selectable exactly when a boat laid straight from `p` over free cells, within `size - 1` steps in one direction, covers it |
| RefreshProperties.RowAtCell | src/fr/pinguet62/battleship/view/positioning/FleetPositioningView.java:315-339 | in the row case each cell ends as `RowCell` with the two walk bounds, which enclose the run |
| RefreshProperties.ColumnAtCell | src/fr/pinguet62/battleship/view/positioning/FleetPositioningView.java:341-365 | in the column case each cell ends as `ColumnCell` with the two walk bounds, which enclose the run |
| RefreshProperties.RefreshedOffLine | src/fr/pinguet62/battleship/view/positioning/FleetPositioningView.java:310-365 | with two or more chosen cells, every non-boat cell off the run's row (row case) or off the first's column (column case) ends unselectable |
| RefreshProperties.RowSelectable | src/fr/pinguet62/battleship/view/positioning/FleetPositioningView.java:315-339 | in the row case a cell ends selectable exactly when it extends the run left from the first or right from the last over free cells, within the boat's remaining length |
| RefreshProperties.ColumnSelectable | src/fr/pinguet62/battleship/view/positioning/FleetPositioningView.java:341-365 | in the column case with the first and the last in one column, a cell ends selectable exactly when it extends the run up from the first or down from the last over free cells, within the remaining length |
| RefreshProperties.RefreshStable | src/fr/pinguet62/battleship/view/positioning/FleetPositioningView.java:249-367 | when the chosen cells are none, one, or have first and last in one row or one column, refreshing the refreshed grid again changes nothing |
| RefreshProperties.ToggledCounts | src/fr/pinguet62/battleship/view/positioning/FleetPositioningView.java:175-177 | a click makes the clicked cell chosen exactly when it was not, leaves every other cell alone, and changes the chosen count by one |
| RefreshProperties.CommittedCounts | src/fr/pinguet62/battleship/view/positioning/FleetPositioningView.java:182-189 | a commit adds one boat cell per chosen cell and leaves only selectable and boat cells |
| RefreshProperties.ClickedCommits | src/fr/pinguet62/battleship/view/positioning/FleetPositioningView.java:179-196 | a committing click raises the boat count of the refreshed grid by exactly the boat's size and leaves nothing chosen or unselectable |
| RefreshProperties.ClickedRefreshes | src/fr/pinguet62/battleship/view/positioning/FleetPositioningView.java:179-183 | a click that does not commit leaves the toggled grid refreshed, and its chosen count differs from the boat's size |

## Left out

- The Swing layer is not modelled: the frame, the layouts, the `BoatView` buttons and the
  enabling, disabling and `setPlaced` that follow a selection or a commit
  (FleetPositioningView.java:113-147, 158-159, 191-195). Only the grid and the selected boat are
  kept.
- `SelectCase`, `Boat`, `Game`, `Coordinates` and `Alignment` are not part of this model.
  - A cell is a four-valued `State`, and a coordinate is a pair of integers.
  - A boat is its kind plus an optional position and alignment.
  - The grid size is two constants of the view.
  - The state of a new `SelectCase` is not known, so the constructor starts every cell as
    selectable.
  - A click names the clicked cell's coordinates instead of carrying an event whose source is the
    button.
- Java's 32-bit `int` arithmetic is not modelled: coordinates, sizes and the step count in the walk
  are unbounded integers. A grid wide enough to overflow them is out of scope.
- The empty loops `for (i = left; i <= right; i++) {}` and their column twins
  (FleetPositioningView.java:290-291, 303-304, 334-335, 360-361) do nothing and are not modelled.
- `JoinColumn` runs its out-of-column pass row by row, while the source runs it column by column
  (FleetPositioningView.java:344-348). Each cell's new state depends only on that cell, so the
  final grid is the same.
- ColumnSelectable: characterises the selectable cells only when the first and the last chosen
  cells share a column. When they do not (for example, two cells on a diagonal), the source chooses
  the column of `first` but walks down from `last` in `last`'s own column. `ColumnAtCell` gives the
  exact result cell by cell for that case too.
- RefreshStable: is stated only for chosen cells that are aligned in the above sense. In the
  unaligned column case, a second refresh walks down from `(first.x, last.y)` instead of `last`,
  and so need not agree with the first refresh.
- No non-overlap property is stated. The click toggle (FleetPositioningView.java:175-177) turns a
  boat cell into a chosen cell, and the join loops (324-325, 350-351) turn boat cells between the
  ends into chosen cells; the code guards neither. No check in this engine rejects overlapping
  boats, and the model follows the code: `RefreshedBoats` and `ClickedCommits` count boat cells after the join, not before it.
- Boat kinds other than the aircraft carrier, and the rest of the repository (sockets, attacks, the
  other windows), are not part of this model.
