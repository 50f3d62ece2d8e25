/**
 The occupancy map of the grid as a value: which owner holds which cell.

 The grid keeps a dictionary from cell to the box in it. This module states
 its operations on `map<Cell, B>` for any owner type `B`, together with the
 bounds test, the legality test a placement must pass, and the invariant
 that ties the map to each owner's own list of cells.
 */
module Occupancy {
  import opened Cells

  /** A cell lies on a `columns` by `rows` grid. */
  predicate InBounds(columns: int, rows: int, c: Cell)
  {
    0 <= c.x < columns && 0 <= c.y < rows
  }

  /** Every cell of `cells` is on the grid and free: the test a placement must pass. */
  predicate Fits<B>(occ: map<Cell, B>, columns: int, rows: int, cells: seq<Cell>)
  {
    forall c :: c in cells ==> InBounds(columns, rows, c) && c !in occ
  }

  /** The map without the binding of `c`, if there is one. */
  function Clear<B>(occ: map<Cell, B>, c: Cell): (r: map<Cell, B>)
    ensures c !in r
    ensures forall d :: d != c ==> (d in r <==> d in occ) && (d in r ==> r[d] == occ[d])
    ensures c !in occ ==> r == occ
  {
    occ - {c}
  }

  /** The map without the bindings of all of `cells`. */
  function Release<B>(occ: map<Cell, B>, cells: seq<Cell>): (r: map<Cell, B>)
    ensures forall c :: c in cells ==> c !in r
    ensures forall c :: c !in cells ==> (c in r <==> c in occ) && (c in r ==> r[c] == occ[c])
  {
    map c | c in occ && c !in cells :: occ[c]
  }

  /** The map with every cell of `cells` bound to `b`. */
  function Bind<B>(occ: map<Cell, B>, cells: seq<Cell>, b: B): (r: map<Cell, B>)
    ensures forall c :: c in cells ==> c in r && r[c] == b
    ensures forall c :: c !in cells ==> (c in r <==> c in occ) && (c in r ==> r[c] == occ[c])
  {
    map c | c in occ.Keys + (set d | d in cells) :: if c in cells then b else occ[c]
  }

  /**
   `after` is `before` once owner `b` has claimed `cells` in place of
   `oldCells`: the claimed cells are bound to `b`, its old cells outside them
   are unbound, and every other binding is kept.
   */
  ghost predicate Claimed<B>(before: map<Cell, B>, after: map<Cell, B>, oldCells: seq<Cell>, cells: seq<Cell>, b: B)
  {
    && (forall c :: c in cells ==> c in after && after[c] == b)
    && (forall c :: c in oldCells && c !in cells ==> c !in after)
    && (forall c :: c !in oldCells && c !in cells ==>
          (c in after <==> c in before) && (c in after ==> after[c] == before[c]))
  }

  /** The map after an owner moves from `oldCells` to `cells`: old cells released first, new ones bound after. */
  function Commit<B>(occ: map<Cell, B>, oldCells: seq<Cell>, cells: seq<Cell>, b: B): (r: map<Cell, B>)
    ensures Claimed(occ, r, oldCells, cells, b)
  {
    Bind(Release(occ, oldCells), cells, b)
  }

  /**
   The map and the owners' own cell lists agree: every bound cell belongs to a
   known owner, and an owner's list holds exactly the cells bound to it.
   */
  ghost predicate Synced<B>(occ: map<Cell, B>, owned: map<B, seq<Cell>>)
  {
    && (forall c :: c in occ ==> occ[c] in owned)
    && (forall b, c :: b in owned ==> (c in owned[b] <==> c in occ && occ[c] == b))
  }

  /** The in-bounds cells are exactly the cells of the `columns` by `rows` footprint at (0, 0). */
  lemma BoundsAreFootprint(columns: int, rows: int, c: Cell)
    ensures InBounds(columns, rows, c) <==> c in Footprint(Cell(0, 0), Size(columns, rows))
  {
    FootprintMember(Cell(0, 0), Size(columns, rows), c);
  }

  /** Clearing a cell twice has the effect of clearing it once. */
  lemma ClearIdempotent<B>(occ: map<Cell, B>, c: Cell)
    ensures Clear(Clear(occ, c), c) == Clear(occ, c)
  {
  }

  /** Releasing cells one at a time, in list order, releases the whole list. */
  lemma ReleaseStep<B>(occ: map<Cell, B>, cells: seq<Cell>, k: nat)
    requires k < |cells|
    ensures Release(occ, cells[..k + 1]) == Clear(Release(occ, cells[..k]), cells[k])
  {
    var lhs := Release(occ, cells[..k + 1]);
    var rhs := Clear(Release(occ, cells[..k]), cells[k]);
    forall c
      ensures c in lhs <==> c in rhs
    {
      assert c in cells[..k + 1] <==> c in cells[..k] || c == cells[k];
    }
    assert lhs.Keys == rhs.Keys;
  }

  /** Binding cells one at a time, in list order, binds the whole list. */
  lemma BindStep<B>(occ: map<Cell, B>, cells: seq<Cell>, b: B, k: nat)
    requires k < |cells|
    ensures Bind(occ, cells[..k + 1], b) == Bind(occ, cells[..k], b)[cells[k] := b]
  {
    var lhs := Bind(occ, cells[..k + 1], b);
    var rhs := Bind(occ, cells[..k], b)[cells[k] := b];
    forall c
      ensures c in lhs <==> c in rhs
    {
      assert c in cells[..k + 1] <==> c in cells[..k] || c == cells[k];
    }
    assert lhs.Keys == rhs.Keys;
  }

  /** When the map and the owners agree, no cell is listed by two owners. */
  lemma SyncedOwnersDisjoint<B>(occ: map<Cell, B>, owned: map<B, seq<Cell>>, a: B, b: B, c: Cell)
    requires Synced(occ, owned)
    requires a in owned && b in owned && a != b
    ensures !(c in owned[a] && c in owned[b])
  {
    if c in owned[a] {
      assert c in occ && occ[c] == a;
    }
  }

  /**
   A placement that passes the legality test keeps the map and the owners in
   agreement, once the moving owner's list is replaced by its new cells.
   */
  lemma CommitKeepsSync<B>(occ: map<Cell, B>, owned: map<B, seq<Cell>>, b: B, cells: seq<Cell>, columns: int, rows: int)
    requires Synced(occ, owned) && b in owned
    requires Fits(occ, columns, rows, cells)
    ensures Synced(Commit(occ, owned[b], cells, b), owned[b := cells])
  {
    var occ' := Commit(occ, owned[b], cells, b);
    var owned' := owned[b := cells];
    forall a, c | a in owned'
      ensures c in owned'[a] <==> c in occ' && occ'[c] == a
    {
      if a != b {
        if c in owned[a] {
          assert c in occ && occ[c] == a;
          assert c !in cells;
          assert c !in owned[b];
        }
      }
    }
  }

  /** Once a non-empty placement is committed, the same cells no longer pass the legality test. */
  lemma CommittedCellsNoLongerFit<B>(occ: map<Cell, B>, oldCells: seq<Cell>, cells: seq<Cell>, b: B, columns: int, rows: int)
    requires |cells| > 0
    ensures !Fits(Commit(occ, oldCells, cells, b), columns, rows, cells)
  {
    assert cells[0] in cells;
  }
}
