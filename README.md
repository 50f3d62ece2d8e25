# Sliding-box puzzle: grid occupancy, drag state machine, win tracker

This project models the logic core of a Unity sliding-box puzzle in Dafny and proves properties of it.

- **Grid occupancy** (`GridManager`). The grid is a `columns` by `rows` board of integer cells. It keeps a dictionary from each occupied cell to the box in it. `TryOccupy` places a box at an anchor cell. It either rejects the move or releases the box's old cells, binds the new footprint and updates the box's `CurrentCell` and `OccupiedCells`. `ClearCell` drops one binding. `SnapBoxToCell` calls `TryOccupy` and, when it succeeds, moves the box's displayed position.
- **Box drag state machine** (`BoxController`). Each frame, `Update` goes through the touches in order:
  - Began, when it hits the box, starts a drag and releases the box's cells.
  - Moved/Stationary from the dragging finger moves the displayed position when the target footprint is legal. When it is not legal, it returns from `Update`, skipping the rest of the frame.
  - Ended/Canceled commits the box where it is displayed, or falls back to the cell where the drag started.
  - Contact with the matching goal releases the box's cells and reports the box as removed.
- **Win tracker** (`GameManager.RemoveBox`). It removes the box from the list of boxes in play and declares the win whenever that list is then empty.

Files:
- `cells.dfy` (module `Cells`): cells, sizes and the footprint (the list of cells a box covers), with its length, order, membership and distinctness.
- `occupancy.dfy` (module `Occupancy`): the occupancy dictionary as a map value for any owner type. It defines the bounds test, the legality test, release/bind/commit, and the invariant `Synced`. `Synced` says the map agrees with every box's own cell list.
- `board.dfy` (module `Board`): the `GridManager` and `BoxController` classes.
  - The two classes refer to each other, so they share one module.
  - `TryOccupy`, `SnapBoxToCell`, `Start` and `Update` are each proved equal to a function on a value snapshot (`World`: the map plus the box's fields). These functions are `Occupy`, `Snap`, `Started` and `Run`; `Run` folds `Step` over a frame's touches.
  - `ClearCell`, `ClearCells`, `ClearAllMyCells` and `OnTriggerEnter` are specified directly on the map and the box's list, and `RemoveBox` and `WinGame` on the game manager's list and win counter.
  - The lemmas state what those functions guarantee.
- `session.dfy` (module `Session`): the `GameManager` class, list removal and the win count over a series of removals.

Abstractions:
- A box's world position is kept as the cell it was last displayed at (`position`).
- A touch is a phase, a finger id, a flag saying whether the ray hits this box, and the target cell. The target cell is the cell under the finger plus the grab offset.
- Goal contact carries a flag saying whether the goal matches the box's colour.
- The grid and the game manager are passed as parameters instead of being reached through static `Instance` fields.
- `WinGame` is a counter of how often it ran.

Behaviour of the code that the model keeps:
- The occupied test in `TryOccupy` does not exempt the box's own cells. So `SnapBoxToCell` right after a successful `TryOccupy` at the same anchor does nothing when the footprint has positive extents. For a box with an extent `<= 0` the footprint is empty, the second `TryOccupy` succeeds as well, and the box is displayed at the anchor.
- A Began touch on a box that is already being dragged starts the drag again. It takes the new finger. The start cell is set to `CurrentCell` again, which does not change it, because `CurrentCell` stays the same during a drag. What the repeated Began really does is release the anchor footprint a second time, which can erase the binding of a box committed there meanwhile.
- If the fallback to the start cell fails, nothing reports it. The box is anchored at its start cell while holding no cell.
- The win is not declared only once. Every `RemoveBox` call that leaves the list empty declares it again, even when the list was already empty before the call.

## Model

| member | source | states |
|---|---|---|
| `Cells.FootprintLength` | Assets/Scripts/GridManager.cs:90-101 | the footprint has `size.x * size.y` cells, and no cells when either extent is `<= 0` |
| `Cells.FootprintAt` | Assets/Scripts/GridManager.cs:93-97 | position `x * size.y + y` holds `origin + (x, y)`: x is the outer loop and y the inner one |
| `Cells.FootprintMember` | Assets/Scripts/GridManager.cs:90-101 | a cell is in the footprint exactly when it is `origin + (x, y)` with `0 <= x < size.x` and `0 <= y < size.y` |
| `Cells.FootprintDistinct` | Assets/Scripts/GridManager.cs:90-101 | no cell appears twice in a footprint |
| `Occupancy.BoundsAreFootprint` | Assets/Scripts/GridManager.cs:39-42 | a cell is in bounds exactly when `0 <= x < columns` and `0 <= y < rows`, which is exactly the cells of the whole-grid footprint at (0, 0) |
| `Occupancy.Clear` | Assets/Scripts/GridManager.cs:76-80 | the cell is unbound afterwards, every other binding is kept, and an absent key leaves the map unchanged |
| `Occupancy.ClearIdempotent` | Assets/Scripts/GridManager.cs:76-80 | clearing a cell twice has the same effect as clearing it once |
| `Occupancy.Release` | Assets/Scripts/GridManager.cs:59-63 | the listed cells are unbound and every other binding is kept |
| `Occupancy.Bind` | Assets/Scripts/GridManager.cs:65-69 | the listed cells map to the box and every other binding is kept |
| `Occupancy.Commit` | Assets/Scripts/GridManager.cs:59-69 | the new map is the old one with the footprint claimed (`Claimed`): the new cells map to the box, old cells outside the new footprint are unbound, and all other cells keep their binding |
| `Occupancy.SyncedOwnersDisjoint` | Assets/Scripts/GridManager.cs:14 | while map and boxes agree, no cell is listed by two boxes |
| `Occupancy.CommitKeepsSync` | Assets/Scripts/GridManager.cs:49-74 | a legal commit keeps every key bound to box b exactly when b lists it, for every box |
| `Occupancy.CommittedCellsNoLongerFit` | Assets/Scripts/GridManager.cs:55 | once a non-empty footprint is committed, the same cells fail the occupied test |
| `Board.Occupy` | Assets/Scripts/GridManager.cs:49-74 | the verdict is true exactly when every footprint cell is in bounds and not a key, even a key owned by the same box. On false nothing changes. On true the footprint maps to the box, old-only cells are unbound, all other entries are unchanged, and `CurrentCell`/`OccupiedCells` become the origin and the footprint |
| `Board.GridManager.constructor` | Assets/Scripts/GridManager.cs:9-14 | a grid of the given size with an empty map |
| `Board.GridManager.IsWithinBounds` | Assets/Scripts/GridManager.cs:39-42 | a cell is on the grid exactly when it belongs to the `columns` by `rows` footprint at (0, 0) |
| `Board.GridManager.IsOccupied` | Assets/Scripts/GridManager.cs:44-47 | a single cell passes the placement test of `TryOccupy` exactly when it is on the grid and not occupied |
| `Board.GridManager.GetOccupiedCells` | Assets/Scripts/GridManager.cs:90-101 | the nested loops build exactly the footprint |
| `Board.GridManager.TryOccupy` | Assets/Scripts/GridManager.cs:49-74 | its verdict, the new map and the box's new fields are those of `Occupy` |
| `Board.GridManager.ClearCell` | Assets/Scripts/GridManager.cs:76-80 | the new map is `Clear` of the old one |
| `Board.GridManager.ClearCells` | Assets/Scripts/GridManager.cs:60-63 | calling `ClearCell` on each listed cell in turn leaves the map with all of those cells released |
| `Board.GridManager.SnapBoxToCell` | Assets/Scripts/GridManager.cs:82-88 | it runs `TryOccupy`, and only on success moves the box's displayed cell to the origin |
| `Board.Snap` | Assets/Scripts/GridManager.cs:82-88 | when the footprint at the origin is legal, the box is anchored and displayed at the origin, lists that footprint, and the map has it claimed: bound to the box, its old cells outside it unbound, every other binding kept. When it is not legal, nothing changes |
| `Board.SnapIsNoopAfterOccupy` | Assets/Scripts/GridManager.cs:82-88 | right after a successful `TryOccupy` with a non-empty footprint, snapping to the same origin is a no-op |
| `Board.SnapInPlaceAfterOccupy` | Assets/Scripts/BoxController.cs:86-88 | snapping right after a successful `TryOccupy` at the displayed cell changes nothing, whatever the footprint |
| `Board.OccupyKeepsSync` | Assets/Scripts/GridManager.cs:49-74 | if every key maps to box b exactly when b lists it, the same holds after `TryOccupy`, for all boxes |
| `Board.SnapKeepsSync` | Assets/Scripts/GridManager.cs:82-88 | `SnapBoxToCell` keeps the map and every box's list in agreement |
| `Board.BoxController.constructor` | Assets/Scripts/BoxController.cs:8-24 | a box starts with an empty cell list, not dragging, finger id -1, displayed at the given cell |
| `Board.BoxController.Start` | Assets/Scripts/BoxController.cs:26-35 | the new state is `Started` of the old one |
| `Board.Started` | Assets/Scripts/BoxController.cs:26-35 | `Start` anchors the box and its start cell at the displayed cell and keeps the drag state. When that footprint is legal, the box lists it and the map has it claimed (bound to the box, old cells outside it unbound, every other binding kept). Otherwise neither the map nor the list changes |
| `Board.StartKeepsSync` | Assets/Scripts/BoxController.cs:26-35 | `Start` keeps the map and every box's list in agreement |
| `Board.BoxController.Update` | Assets/Scripts/BoxController.cs:37-101 | the new map and box state are `Run` over the frame's touches, in order, up to a rejected move. The loop body (the switch on the touch phase) is the method `HandleTouch` |
| `Board.BoxController.HandleTouch` | Assets/Scripts/BoxController.cs:46-98 | the new map and box state after one touch, and whether it returns from `Update`, are those of `Step` |
| `Board.BoxController.GetCells` | Assets/Scripts/BoxController.cs:112-119 | yields the same list as the grid's `GetOccupiedCells(origin, Size)` |
| `Board.BoxController.ClearAllMyCells` | Assets/Scripts/BoxController.cs:121-126 | the footprint at `CurrentCell` is released and `OccupiedCells` is emptied |
| `Board.BoxController.OnTriggerEnter` | Assets/Scripts/BoxController.cs:128-142 | on a matching goal, every listed cell is cleared and `RemoveBox(this)` is applied once. Otherwise nothing changes |
| `Board.BeganStartsDrag` | Assets/Scripts/BoxController.cs:48-59 | a hit sets `isDragging`, the finger and `startCell := CurrentCell` even when a drag is already active. It releases the listed cells and the anchor footprint, keeps every other binding unchanged, empties the list, keeps `CurrentCell`, and binds nothing, so a box whose bindings were all listed has none left. A miss changes nothing |
| `Board.BeganKeepsSync` | Assets/Scripts/BoxController.cs:48-59 | when no other box holds the anchor footprint, a hit keeps the map and every box's list in agreement |
| `Board.BeganCanEraseAnotherBoxsBinding` | Assets/Scripts/BoxController.cs:56-58 | a hit on a box anchored on another box's cell erases that other box's binding |
| `Board.MoveOnlyMovesDisplay` | Assets/Scripts/BoxController.cs:62-77 | a move never changes the map, `CurrentCell` or `OccupiedCells`. It is ignored unless it comes from the dragging finger. It is rejected, and ends the frame, exactly when a target cell is out of bounds or occupied. Otherwise the box is displayed at the target |
| `Board.RejectedMoveEndsFrame` | Assets/Scripts/BoxController.cs:70-72 | after a rejected move the remaining touches of the frame are skipped and the world stays as it was |
| `Board.Step` | Assets/Scripts/BoxController.cs:46-98 | one touch sample ends the frame only when it is a rejected Moved/Stationary sample, and then changes nothing. Every sample keeps a dragged box free of listed cells. Only Began can change the start cell or the finger |
| `Board.ReleaseCommitsOrReverts` | Assets/Scripts/BoxController.cs:79-97 | a release from a finger other than the dragging one, or with no drag active, changes nothing. From the dragging finger it ends the drag. The box is committed at the displayed cell when that is legal, and otherwise anchored at `startCell`, which it claims when that is legal. A claim binds the footprint to the box, unbinds its listed cells outside it and keeps every other binding. When neither claim succeeds, the map, the list and the displayed cell stay as they were |
| `Board.RevertCanStrandBox` | Assets/Scripts/BoxController.cs:91-95 | when both attempts fail, `CurrentCell` is still set to `startCell`, the map is unchanged and the list stays as it was |
| `Board.StepKeepsSyncExceptBegan` | Assets/Scripts/BoxController.cs:62-97 | move and release samples keep the map and every box's list in agreement |
| `Board.Run` | Assets/Scripts/BoxController.cs:41-99 | over any frame, a box that is being dragged lists no cells. A frame without Began samples changes neither the start cell nor the finger |
| `Session.RemoveFirst` | Assets/Scripts/GameManager.cs:25 | an absent box leaves the list unchanged, and a present one shortens it by exactly 1 |
| `Session.RemoveFirstCutsFirstOccurrence` | Assets/Scripts/GameManager.cs:25 | for the first position `i` holding the box, the result is the list with position `i` cut out and the others kept in order |
| `Session.RemoveFirstMultiset` | Assets/Scripts/GameManager.cs:25 | removal takes out one copy of the box and nothing else |
| `Session.GameManager.constructor` | Assets/Scripts/GameManager.cs:10 | the session starts with the given boxes and no win |
| `Session.GameManager.RemoveBox` | Assets/Scripts/GameManager.cs:23-29 | the list loses the first occurrence of the box, and the win fires exactly when the list is then empty |
| `Session.GameManager.WinGame` | Assets/Scripts/GameManager.cs:31-36 | the win counter goes up by one |
| `Session.EmptyListWinsEveryCall` | Assets/Scripts/GameManager.cs:25-28 | each removal from an already empty list declares the win again |
| `Session.RemovingPresentBoxes` | Assets/Scripts/GameManager.cs:23-29 | removing boxes that are in play shortens the list by one per call. Only the call that empties the list wins |
| `Session.WinOnLastRemovalAndEveryLaterOne` | Assets/Scripts/GameManager.cs:23-29 | from n boxes, removed once each in any order, the win fires first on the n-th removal and again on every later call |

## Left out

- `WorldToCell` and `CellToWorld` (Assets/Scripts/GridManager.cs:25-37): float arithmetic with rounding. A box's position is kept as a cell, and the displayed height coordinate is not modelled.
- Camera rays, `Physics.Raycast` and the plane intersection in `GetTouchWorldPoint`: they are external hit-testing. Each touch supplies a hit flag and a target cell instead, and the grab offset `offset` is folded into the target cell.
- `Input.touchCount > 0` is not tested separately: a frame without touches is an empty list, and looping over it does nothing.
- `SlideAndDestroy`: a timed interpolation followed by `Destroy`.
- `Handheld.Vibrate`, the `winText` UI, disabling the collider and the `Awake` singleton set-up: engine side effects.
- `OnDrawGizmos`: editor debug drawing.
- The tag comparison `boxColorTag + "Wall"`: reduced to the `matchesGoal` flag of `OnTriggerEnter`.
- 32-bit `int` wrap-around of the `Vector2Int` sums `origin + (x, y)` is not modelled: cells are unbounded integers.
- `Board.BoxController.GetCells` repeats the nested loop of `GetOccupiedCells` in the source. The model calls the grid's loop instead of writing it a second time.
- `Board.BoxController.OnTriggerEnter` clears the cells from the map but, like the source, leaves the box's `OccupiedCells` list as it was. The box is destroyed afterwards.
