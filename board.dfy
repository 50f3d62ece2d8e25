/**
 The grid manager and the draggable box, which update each other's state.

 The grid keeps the occupancy dictionary from cell to box; the box keeps its
 anchor cell (`currentCell`), the cells it holds (`occupiedCells`) and its drag
 state, and `TryOccupy` on the grid writes the box's fields. The two classes
 refer to each other, so they share this module.

 The box's world position is kept as the cell it was last snapped to
 (`position`). Touch samples arrive already resolved against the scene: a
 phase, a finger id, whether the ray hits this box, and the target cell under
 the finger plus the grab offset. The grid is passed to the box explicitly.

 `TryOccupy`, `SnapBoxToCell`, `Start` and `Update` are specified by functions
 on a value snapshot (`World`): the occupancy map together with the box's
 fields. The lemmas at the end state what those functions promise. The other
 methods are specified directly on the map and the box's cell list.
 */
module Board {
  import opened Cells
  import opened Occupancy
  import Session

  datatype Phase = Began | Moved | Stationary | Ended | Canceled

  /** One touch sample of a frame, already resolved against the scene. */
  datatype Touch = Touch(phase: Phase, fingerId: int, hitsBox: bool, target: Cell)

  /** The fields of a box that the box and the grid update. */
  datatype BoxState = BoxState(
    currentCell: Cell,
    occupiedCells: seq<Cell>,
    isDragging: bool,
    fingerId: int,
    startCell: Cell,
    position: Cell)

  /** The grid's occupancy map together with the state of one box. */
  datatype World = World(occupied: map<Cell, BoxController>, box: BoxState)

  /**
   What `TryOccupy(origin, box)` does: the footprint at `origin` must be on the
   grid and free of every binding, the box's own included; if it is, the box's
   old cells are released, the footprint is bound to the box, and the box's
   anchor and cell list follow. Otherwise nothing changes.
   */
  function Occupy(grid: GridManager, box: BoxController, w: World, origin: Cell): (r: (World, bool))
    ensures var cells := Footprint(origin, box.size);
            r.1 <==> forall c :: c in cells ==> InBounds(grid.columns, grid.rows, c) && c !in w.occupied
    ensures !r.1 ==> r.0 == w
    ensures r.1 ==>
              && r.0.box == w.box.(currentCell := origin, occupiedCells := Footprint(origin, box.size))
              && Claimed(w.occupied, r.0.occupied, w.box.occupiedCells, Footprint(origin, box.size), box)
  {
    var cells := Footprint(origin, box.size);
    if Fits(w.occupied, grid.columns, grid.rows, cells) then
      (World(Commit(w.occupied, w.box.occupiedCells, cells, box), w.box.(currentCell := origin, occupiedCells := cells)), true)
    else
      (w, false)
  }

  /**
   What `SnapBoxToCell(box, origin)` does: `TryOccupy`, and on success the box
   is displayed at `origin`. A failed `TryOccupy` changes nothing.
   */
  function Snap(grid: GridManager, box: BoxController, w: World, origin: Cell): (r: World)
    ensures var cells := Footprint(origin, box.size);
            Fits(w.occupied, grid.columns, grid.rows, cells) ==>
              && r.box == w.box.(currentCell := origin, occupiedCells := cells, position := origin)
              && Claimed(w.occupied, r.occupied, w.box.occupiedCells, cells, box)
    ensures !Fits(w.occupied, grid.columns, grid.rows, Footprint(origin, box.size)) ==> r == w
  {
    var r := Occupy(grid, box, w, origin);
    if r.1 then r.0.(box := r.0.box.(position := origin)) else w
  }

  /**
   What the box's `Start` does: anchor the box at the cell it is displayed in
   and make that its start cell; claim the footprint there when it is legal,
   and otherwise leave the map and the box's list as they were.
   */
  function Started(grid: GridManager, box: BoxController, w: World): (r: World)
    ensures var cells := Footprint(w.box.position, box.size);
            && r.box.currentCell == w.box.position
            && r.box.startCell == w.box.position
            && r.box.position == w.box.position
            && r.box.isDragging == w.box.isDragging && r.box.fingerId == w.box.fingerId
            && (Fits(w.occupied, grid.columns, grid.rows, cells) ==>
                  && r.box.occupiedCells == cells
                  && Claimed(w.occupied, r.occupied, w.box.occupiedCells, cells, box))
            && (!Fits(w.occupied, grid.columns, grid.rows, cells) ==>
                  r.occupied == w.occupied && r.box.occupiedCells == w.box.occupiedCells)
  {
    var cell := w.box.position;
    var w1 := w.(box := w.box.(currentCell := cell, startCell := cell));
    var r := Occupy(grid, box, w1, cell);
    if r.1 then Snap(grid, box, r.0, cell) else r.0
  }

  /**
   What one touch sample does to the world, and whether it ends the frame's
   loop over touches (a rejected move returns from `Update`).
   */
  function Step(grid: GridManager, box: BoxController, w: World, t: Touch): (r: (World, bool))
    ensures r.1 ==> (t.phase == Moved || t.phase == Stationary) && r.0 == w
    ensures DragHoldsNoCells(w) ==> DragHoldsNoCells(r.0)
    ensures t.phase != Began ==> r.0.box.startCell == w.box.startCell && r.0.box.fingerId == w.box.fingerId
  {
    var b := w.box;
    match t.phase
    case Began =>
      if t.hitsBox then
        var occ := Release(Release(w.occupied, b.occupiedCells), Footprint(b.currentCell, box.size));
        (World(occ, b.(isDragging := true, fingerId := t.fingerId, startCell := b.currentCell, occupiedCells := [])), false)
      else
        (w, false)
    case Moved | Stationary =>
      if b.isDragging && t.fingerId == b.fingerId then
        if Fits(w.occupied, grid.columns, grid.rows, Footprint(t.target, box.size)) then
          (w.(box := b.(position := t.target)), false)
        else
          (w, true)
      else
        (w, false)
    case Ended | Canceled =>
      if b.isDragging && t.fingerId == b.fingerId then
        var w1 := w.(box := b.(isDragging := false));
        var newCell := b.position;
        var r := Occupy(grid, box, w1, newCell);
        if r.1 then
          var w2 := Snap(grid, box, r.0, newCell);
          (w2.(box := w2.box.(currentCell := newCell)), false)
        else
          var w2 := Snap(grid, box, w1, b.startCell);
          (w2.(box := w2.box.(currentCell := b.startCell)), false)
      else
        (w, false)
  }

  /** What `Update` does with one frame's touches, in order, up to a rejected move. */
  function Run(grid: GridManager, box: BoxController, w: World, touches: seq<Touch>): (r: World)
    ensures DragHoldsNoCells(w) ==> DragHoldsNoCells(r)
    ensures (forall i :: 0 <= i < |touches| ==> touches[i].phase != Began) ==>
              r.box.startCell == w.box.startCell && r.box.fingerId == w.box.fingerId
    decreases |touches|
  {
    if touches == [] then w
    else
      var r := Step(grid, box, w, touches[0]);
      if r.1 then r.0 else Run(grid, box, r.0, touches[1..])
  }

  class GridManager {
    const columns: int
    const rows: int
    var occupied: map<Cell, BoxController>

    constructor (columns: int, rows: int)
      ensures this.columns == columns && this.rows == rows && occupied == map[]
    {
      this.columns := columns;
      this.rows := rows;
      occupied := map[];
    }

    /** The cells on the grid are exactly those of the whole-grid footprint at (0, 0). */
    predicate IsWithinBounds(cell: Cell): (b: bool)
      ensures b <==> cell in Footprint(Cell(0, 0), Size(columns, rows))
    {
      BoundsAreFootprint(columns, rows, cell);
      InBounds(columns, rows, cell)
    }

    /** A single cell passes the placement test exactly when it is on the grid and not occupied. */
    predicate IsOccupied(cell: Cell): (b: bool)
      reads this
      ensures Fits(occupied, columns, rows, [cell]) <==> IsWithinBounds(cell) && !b
    {
      cell in occupied
    }

    /** The map and the fields of `box`, as one value. */
    ghost function Snapshot(box: BoxController): World
      reads this, box
    {
      World(occupied, box.State())
    }

    /** The cells of a box of `size` anchored at `origin`, x in the outer loop. */
    static method GetOccupiedCells(origin: Cell, size: Size) returns (cells: seq<Cell>)
      ensures cells == Footprint(origin, size)
    {
      cells := [];
      var x := 0;
      while x < size.x
        invariant 0 <= x && (x == 0 || x <= size.x)
        invariant cells == Columns(origin, size.y, x)
      {
        var y := 0;
        while y < size.y
          invariant 0 <= y && (y == 0 || y <= size.y)
          invariant cells == Columns(origin, size.y, x) + Column(origin, x, y)
        {
          cells := cells + [Cell(origin.x + x, origin.y + y)];
          y := y + 1;
        }
        x := x + 1;
      }
    }

    method TryOccupy(originCell: Cell, box: BoxController) returns (ok: bool)
      modifies this, box
      ensures (Snapshot(box), ok) == Occupy(this, box, old(Snapshot(box)), originCell)
    {
      var cells := GetOccupiedCells(originCell, box.size);

      var i := 0;
      while i < |cells|
        invariant 0 <= i <= |cells|
        invariant forall j :: 0 <= j < i ==> IsWithinBounds(cells[j]) && !IsOccupied(cells[j])
      {
        if !IsWithinBounds(cells[i]) || IsOccupied(cells[i]) {
          assert cells[i] in cells;
          return false;
        }
        i := i + 1;
      }

      ClearCells(box.occupiedCells);

      ghost var released := occupied;
      i := 0;
      while i < |cells|
        modifies this
        invariant 0 <= i <= |cells|
        invariant occupied == Bind(released, cells[..i], box)
      {
        BindStep(released, cells, box, i);
        occupied := occupied[cells[i] := box];
        i := i + 1;
      }
      assert cells[..|cells|] == cells;

      box.currentCell := originCell;
      box.occupiedCells := cells;
      ok := true;
    }

    method ClearCell(cell: Cell)
      modifies this
      ensures occupied == Clear(old(occupied), cell)
    {
      if cell in occupied {
        occupied := occupied - {cell};
      }
    }

    /** `ClearCell` on each of `cells` in turn. */
    method ClearCells(cells: seq<Cell>)
      modifies this
      ensures occupied == Release(old(occupied), cells)
    {
      var i := 0;
      assert Release(occupied, cells[..0]) == occupied;
      while i < |cells|
        invariant 0 <= i <= |cells|
        invariant occupied == Release(old(occupied), cells[..i])
      {
        ReleaseStep(old(occupied), cells, i);
        ClearCell(cells[i]);
        i := i + 1;
      }
      assert cells[..|cells|] == cells;
    }

    method SnapBoxToCell(box: BoxController, originCell: Cell)
      modifies this, box
      ensures Snapshot(box) == Snap(this, box, old(Snapshot(box)), originCell)
    {
      var ok := TryOccupy(originCell, box);
      if !ok {
        return;
      }
      box.position := originCell;
    }
  }

  class BoxController {
    var currentCell: Cell
    const size: Size
    var occupiedCells: seq<Cell>
    var isDragging: bool
    var fingerId: int
    var startCell: Cell
    /** The cell the box is displayed at. */
    var position: Cell

    constructor (size: Size, position: Cell)
      ensures this.size == size
      ensures State() == BoxState(Cell(0, 0), [], false, -1, Cell(0, 0), position)
    {
      this.size := size;
      this.position := position;
      currentCell := Cell(0, 0);
      occupiedCells := [];
      isDragging := false;
      fingerId := -1;
      startCell := Cell(0, 0);
    }

    function State(): BoxState
      reads this
    {
      BoxState(currentCell, occupiedCells, isDragging, fingerId, startCell, position)
    }

    method Start(grid: GridManager)
      modifies this, grid
      ensures grid.Snapshot(this) == Started(grid, this, old(grid.Snapshot(this)))
    {
      currentCell := position;
      startCell := currentCell;
      var ok := grid.TryOccupy(currentCell, this);
      if ok {
        grid.SnapBoxToCell(this, currentCell);
      }
    }

    method Update(grid: GridManager, touches: seq<Touch>)
      modifies this, grid
      ensures grid.Snapshot(this) == Run(grid, this, old(grid.Snapshot(this)), touches)
    {
      var i := 0;
      while i < |touches|
        invariant 0 <= i <= |touches|
        invariant Run(grid, this, old(grid.Snapshot(this)), touches) == Run(grid, this, grid.Snapshot(this), touches[i..])
      {
        assert touches[i..][0] == touches[i] && touches[i..][1..] == touches[i + 1..];
        var stop := HandleTouch(grid, touches[i]);
        if stop {
          return;
        }
        i := i + 1;
      }
    }

    /**
     One iteration of the loop over touches in `Update`: the switch on the
     touch phase. `stop` is set where the source returns from `Update`.
     */
    method HandleTouch(grid: GridManager, touch: Touch) returns (stop: bool)
      modifies this, grid
      ensures (grid.Snapshot(this), stop) == Step(grid, this, old(grid.Snapshot(this)), touch)
    {
      stop := false;
      match touch.phase {
        case Began =>
          if touch.hitsBox {
            isDragging := true;
            fingerId := touch.fingerId;
            startCell := currentCell;
            grid.ClearCells(occupiedCells);
            ClearAllMyCells(grid);
          }
        case Moved | Stationary =>
          if isDragging && touch.fingerId == fingerId {
            var cellsToCheck := GetCells(touch.target);
            var j := 0;
            while j < |cellsToCheck|
              invariant 0 <= j <= |cellsToCheck|
              invariant forall k :: 0 <= k < j ==> grid.IsWithinBounds(cellsToCheck[k]) && !grid.IsOccupied(cellsToCheck[k])
            {
              if !grid.IsWithinBounds(cellsToCheck[j]) || grid.IsOccupied(cellsToCheck[j]) {
                assert cellsToCheck[j] in cellsToCheck;
                return true;
              }
              j := j + 1;
            }
            position := touch.target;
          }
        case Ended | Canceled =>
          if isDragging && touch.fingerId == fingerId {
            isDragging := false;
            var newCell := position;
            var ok := grid.TryOccupy(newCell, this);
            if ok {
              grid.SnapBoxToCell(this, newCell);
              currentCell := newCell;
            } else {
              grid.SnapBoxToCell(this, startCell);
              currentCell := startCell;
            }
          }
      }
    }

    /** The cells this box would cover anchored at `origin`. */
    method GetCells(origin: Cell) returns (cells: seq<Cell>)
      ensures cells == Footprint(origin, size)
    {
      cells := GridManager.GetOccupiedCells(origin, size);
    }

    method ClearAllMyCells(grid: GridManager)
      modifies grid, this`occupiedCells
      ensures grid.occupied == Release(old(grid.occupied), Footprint(currentCell, size))
      ensures occupiedCells == []
    {
      var cells := GetCells(currentCell);
      grid.ClearCells(cells);
      occupiedCells := [];
    }

    /** Contact with a goal; `matchesGoal` says whether it is the goal of this box's colour. */
    method OnTriggerEnter(grid: GridManager, game: Session.GameManager<BoxController>, matchesGoal: bool)
      modifies grid, game
      ensures matchesGoal ==> grid.occupied == Release(old(grid.occupied), occupiedCells)
      ensures matchesGoal ==> (game.boxes, game.wins - old(game.wins)) == Session.Removals(old(game.boxes), [this])
      ensures !matchesGoal ==> grid.occupied == old(grid.occupied)
      ensures !matchesGoal ==> game.boxes == old(game.boxes) && game.wins == old(game.wins)
    {
      if matchesGoal {
        grid.ClearCells(occupiedCells);
        game.RemoveBox(this);
      }
    }
  }

  /** A rejected move ends the frame: the touches after it are skipped and the world stays as it was. */
  lemma RejectedMoveEndsFrame(grid: GridManager, box: BoxController, w: World, t: Touch, rest: seq<Touch>)
    requires Step(grid, box, w, t).1
    ensures Run(grid, box, w, [t] + rest) == w
  {
    assert ([t] + rest)[0] == t;
  }

  /**
   A Began sample that hits the box starts a drag whatever the drag state
   was: it records the finger and the start cell, releases the cells the box
   lists and the footprint at its anchor, and leaves the anchor alone. It
   binds nothing, so a box whose bindings were all listed holds none after.
   */
  lemma BeganStartsDrag(grid: GridManager, box: BoxController, w: World, t: Touch)
    requires t.phase == Began
    ensures var r := Step(grid, box, w, t);
            && !r.1
            && (!t.hitsBox ==> r.0 == w)
            && (t.hitsBox ==>
                  && r.0.box == w.box.(isDragging := true, fingerId := t.fingerId,
                                       startCell := w.box.currentCell, occupiedCells := [])
                  && (forall c :: c in w.box.occupiedCells ==> c !in r.0.occupied)
                  && (forall c :: c in Footprint(w.box.currentCell, box.size) ==> c !in r.0.occupied)
                  && (forall c :: c in w.occupied && c !in w.box.occupiedCells && c !in Footprint(w.box.currentCell, box.size) ==>
                        c in r.0.occupied)
                  && (forall c :: c in r.0.occupied ==> c in w.occupied && r.0.occupied[c] == w.occupied[c]))
    ensures var r := Step(grid, box, w, t);
            t.hitsBox && (forall c :: c in w.occupied && w.occupied[c] == box ==> c in w.box.occupiedCells) ==>
              forall c :: c in r.0.occupied ==> r.0.occupied[c] != box
  {
  }

  /**
   When no other box holds a cell of the footprint at the anchor, a Began
   sample that hits the box keeps the map and every box's list in agreement,
   the dragged box now listing no cells.
   */
  lemma BeganKeepsSync(grid: GridManager, box: BoxController, w: World, t: Touch, owned: map<BoxController, seq<Cell>>)
    requires t.phase == Began && t.hitsBox
    requires Synced(w.occupied, owned) && box in owned && owned[box] == w.box.occupiedCells
    requires forall c :: c in Footprint(w.box.currentCell, box.size) && c in w.occupied ==> w.occupied[c] == box
    ensures Synced(Step(grid, box, w, t).0.occupied, owned[box := []])
  {
    var occ := Step(grid, box, w, t).0.occupied;
    var owned' := owned[box := []];
    forall a, c | a in owned'
      ensures c in owned'[a] <==> c in occ && occ[c] == a
    {
      if c in occ {
        assert c !in owned[box];
      }
      if a != box && c in owned[a] {
        assert w.occupied[c] == a;
      }
    }
  }

  /**
   The Began transition releases the footprint at the anchor without asking
   who holds it: a box anchored on a cell that another box holds erases that
   box's binding. A box gets there after a failed revert or a failed initial
   placement, or with no failure at all: while it is dragged its anchor
   footprint is free, another box can be committed there, and a second
   finger touching the dragged box releases that footprint again, since
   Began does not check for an active drag.
   */
  lemma BeganCanEraseAnotherBoxsBinding(grid: GridManager, a: BoxController, b: BoxController)
    requires a != b && a.size == Size(1, 1)
    ensures var w := World(map[Cell(0, 0) := b], BoxState(Cell(0, 0), [], false, -1, Cell(0, 0), Cell(0, 0)));
            var r := Step(grid, a, w, Touch(Began, 0, true, Cell(0, 0)));
            w.occupied[Cell(0, 0)] == b && r.0.occupied == map[]
  {
    FootprintMember(Cell(0, 0), Size(1, 1), Cell(0, 0));
    var r := Step(grid, a, World(map[Cell(0, 0) := b], BoxState(Cell(0, 0), [], false, -1, Cell(0, 0), Cell(0, 0))), Touch(Began, 0, true, Cell(0, 0)));
    assert r.0.occupied.Keys == {};
  }

  /**
   A Moved or Stationary sample changes at most the displayed cell and never
   the map or the cell bookkeeping. It is ignored unless the box is being
   dragged by that finger; it is rejected, ending the frame, when any cell of
   the target footprint is off the grid or bound; otherwise the box is
   displayed at the target.
   */
  lemma MoveOnlyMovesDisplay(grid: GridManager, box: BoxController, w: World, t: Touch)
    requires t.phase == Moved || t.phase == Stationary
    ensures var r := Step(grid, box, w, t);
            && r.0.occupied == w.occupied
            && r.0.box == w.box.(position := r.0.box.position)
            && (!(w.box.isDragging && t.fingerId == w.box.fingerId) ==> r == (w, false))
            && (w.box.isDragging && t.fingerId == w.box.fingerId ==>
                  && (r.1 <==> exists c :: c in Footprint(t.target, box.size) &&
                                 (!InBounds(grid.columns, grid.rows, c) || c in w.occupied))
                  && (r.1 ==> r.0 == w)
                  && (!r.1 ==> r.0.box.position == t.target))
  {
  }

  /**
   After a successful `TryOccupy` with a footprint of positive extents,
   `SnapBoxToCell` at the same origin changes nothing: the footprint is now
   bound, to the box itself, and the occupied test does not exempt it.
   */
  lemma SnapIsNoopAfterOccupy(grid: GridManager, box: BoxController, w: World, origin: Cell)
    requires box.size.x > 0 && box.size.y > 0
    requires Occupy(grid, box, w, origin).1
    ensures Snap(grid, box, Occupy(grid, box, w, origin).0, origin) == Occupy(grid, box, w, origin).0
  {
    var cells := Footprint(origin, box.size);
    FootprintStartsAtOrigin(origin, box.size);
    CommittedCellsNoLongerFit(w.occupied, w.box.occupiedCells, cells, box, grid.columns, grid.rows);
  }

  /** Snapping right after a successful `TryOccupy` at the cell the box is displayed in changes nothing. */
  lemma SnapInPlaceAfterOccupy(grid: GridManager, box: BoxController, w: World, origin: Cell)
    requires Occupy(grid, box, w, origin).1 && w.box.position == origin
    ensures Snap(grid, box, Occupy(grid, box, w, origin).0, origin) == Occupy(grid, box, w, origin).0
  {
    if box.size.x > 0 && box.size.y > 0 {
      SnapIsNoopAfterOccupy(grid, box, w, origin);
    } else {
      FootprintLength(origin, box.size);
    }
  }

  /**
   `TryOccupy` keeps the map and every box's list in agreement: if before the
   call each cell is bound to a box exactly when that box lists it, the same
   holds after it, the box now listing its new cells.
   */
  lemma OccupyKeepsSync(grid: GridManager, box: BoxController, w: World, origin: Cell, owned: map<BoxController, seq<Cell>>)
    requires Synced(w.occupied, owned) && box in owned && owned[box] == w.box.occupiedCells
    ensures var r := Occupy(grid, box, w, origin);
            Synced(r.0.occupied, owned[box := r.0.box.occupiedCells])
  {
    if Occupy(grid, box, w, origin).1 {
      CommitKeepsSync(w.occupied, owned, box, Footprint(origin, box.size), grid.columns, grid.rows);
    } else {
      assert owned[box := w.box.occupiedCells] == owned;
    }
  }

  /** `SnapBoxToCell` keeps the map and every box's list in agreement. */
  lemma SnapKeepsSync(grid: GridManager, box: BoxController, w: World, origin: Cell, owned: map<BoxController, seq<Cell>>)
    requires Synced(w.occupied, owned) && box in owned && owned[box] == w.box.occupiedCells
    ensures var r := Snap(grid, box, w, origin);
            Synced(r.occupied, owned[box := r.box.occupiedCells])
  {
    OccupyKeepsSync(grid, box, w, origin, owned);
    if !Occupy(grid, box, w, origin).1 {
      assert owned[box := w.box.occupiedCells] == owned;
    }
  }

  /**
   An Ended or Canceled sample is ignored unless the box is being dragged by
   that finger. From the dragging finger it ends the drag. The box is
   committed at the cell it is displayed in when that footprint is legal.
   Otherwise it is anchored at the drag's start cell, and claims it when that
   footprint is legal. A claim releases the box's listed cells outside the
   claimed footprint and keeps every other binding; when neither claim
   succeeds the map and the list stay as they were.
   */
  lemma ReleaseCommitsOrReverts(grid: GridManager, box: BoxController, w: World, t: Touch)
    requires t.phase == Ended || t.phase == Canceled
    ensures var r := Step(grid, box, w, t);
            !(w.box.isDragging && t.fingerId == w.box.fingerId) ==> r == (w, false)
    ensures var r := Step(grid, box, w, t);
            var here := Footprint(w.box.position, box.size);
            var start := Footprint(w.box.startCell, box.size);
            w.box.isDragging && t.fingerId == w.box.fingerId ==>
              && !r.1 && !r.0.box.isDragging
              && r.0.box.fingerId == w.box.fingerId && r.0.box.startCell == w.box.startCell
              && (Fits(w.occupied, grid.columns, grid.rows, here) ==>
                    && r.0.box.currentCell == w.box.position
                    && r.0.box.occupiedCells == here
                    && r.0.box.position == w.box.position
                    && Claimed(w.occupied, r.0.occupied, w.box.occupiedCells, here, box))
              && (!Fits(w.occupied, grid.columns, grid.rows, here) ==>
                    && r.0.box.currentCell == w.box.startCell
                    && (Fits(w.occupied, grid.columns, grid.rows, start) ==>
                          && r.0.box.occupiedCells == start
                          && r.0.box.position == w.box.startCell
                          && Claimed(w.occupied, r.0.occupied, w.box.occupiedCells, start, box))
                    && (!Fits(w.occupied, grid.columns, grid.rows, start) ==>
                          && r.0.occupied == w.occupied
                          && r.0.box.occupiedCells == w.box.occupiedCells
                          && r.0.box.position == w.box.position))
  {
    if w.box.isDragging && t.fingerId == w.box.fingerId {
      var w1 := w.(box := w.box.(isDragging := false));
      if Occupy(grid, box, w1, w.box.position).1 {
        SnapInPlaceAfterOccupy(grid, box, w1, w.box.position);
      }
    }
  }

  /**
   When neither the displayed cell nor the start cell can be claimed, the
   release still anchors the box at its start cell but binds nothing and
   leaves its list as it was, which during a drag is empty: the box is left
   holding no cell.
   */
  lemma RevertCanStrandBox(grid: GridManager, box: BoxController, w: World, t: Touch)
    requires t.phase == Ended || t.phase == Canceled
    requires w.box.isDragging && t.fingerId == w.box.fingerId
    requires !Fits(w.occupied, grid.columns, grid.rows, Footprint(w.box.position, box.size))
    requires !Fits(w.occupied, grid.columns, grid.rows, Footprint(w.box.startCell, box.size))
    ensures var r := Step(grid, box, w, t);
            && r.0.occupied == w.occupied
            && r.0.box == w.box.(isDragging := false, currentCell := w.box.startCell)
  {
  }

  /**
   Every sample other than Began keeps the map and every box's list in
   agreement, the box's list replaced by its new one.
   */
  lemma StepKeepsSyncExceptBegan(grid: GridManager, box: BoxController, w: World, t: Touch, owned: map<BoxController, seq<Cell>>)
    requires t.phase != Began
    requires Synced(w.occupied, owned) && box in owned && owned[box] == w.box.occupiedCells
    ensures var r := Step(grid, box, w, t);
            Synced(r.0.occupied, owned[box := r.0.box.occupiedCells])
  {
    var b := w.box;
    if (t.phase == Ended || t.phase == Canceled) && b.isDragging && t.fingerId == b.fingerId {
      var w1 := w.(box := b.(isDragging := false));
      var r := Occupy(grid, box, w1, b.position);
      OccupyKeepsSync(grid, box, w1, b.position, owned);
      if r.1 {
        var owned1 := owned[box := r.0.box.occupiedCells];
        SnapKeepsSync(grid, box, r.0, b.position, owned1);
        assert owned1[box := Snap(grid, box, r.0, b.position).box.occupiedCells]
            == owned[box := Snap(grid, box, r.0, b.position).box.occupiedCells];
      } else {
        SnapKeepsSync(grid, box, w1, b.startCell, owned);
      }
    } else {
      assert owned[box := w.box.occupiedCells] == owned;
    }
  }

  /** A box being dragged holds no cells. */
  ghost predicate DragHoldsNoCells(w: World)
  {
    w.box.isDragging ==> w.box.occupiedCells == []
  }

  /**
   `Start` keeps the map and every box's list in agreement, the box's list
   replaced by its new one.
   */
  lemma StartKeepsSync(grid: GridManager, box: BoxController, w: World, owned: map<BoxController, seq<Cell>>)
    requires Synced(w.occupied, owned) && box in owned && owned[box] == w.box.occupiedCells
    ensures var r := Started(grid, box, w);
            Synced(r.occupied, owned[box := r.box.occupiedCells])
  {
    var cell := w.box.position;
    var w1 := w.(box := w.box.(currentCell := cell, startCell := cell));
    OccupyKeepsSync(grid, box, w1, cell, owned);
    if Occupy(grid, box, w1, cell).1 {
      SnapInPlaceAfterOccupy(grid, box, w1, cell);
    }
  }
}
