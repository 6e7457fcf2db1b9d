/**
 * The list handle as the source lays it out. The length, the row count and the count are
 * pointers to cells that `refcopy` shares with the alias. The row-index pointer, however, is
 * a plain field that `refcopy` copies into the new handle, and an `append` that adds a row
 * stores the pointer `realloc` returns into the caller's field only. Whether `realloc` grows the
 * block in place or moves it is the allocator's choice, so it is a parameter here; growing a null
 * pointer always yields a new block. The rest of the model gives every alias one shared row
 * index, as the shared cells evidently intend; this module shows what the layout does instead.
 */
module Handles {
  import Paging
  import Shsc

  /**
   * What a read through one handle finds: nothing past the shared length, the slot's value, or
   * `Dangling` when the handle's row index is null, freed by a move, or does not reach the row,
   * which in the source dereferences an invalid pointer.
   */
  datatype Read = Absent | Found(value: Shsc.Data) | Dangling

  /** The cells every handle of one list points to: length, row count and count. */
  class Cells {
    var len: nat
    var rows: nat
    var refc: int

    constructor ()
      ensures len == 0 && rows == 0 && refc == 1
    {
      len := 0;
      rows := 0;
      refc := 1;
    }
  }

  /** A heap block holding row pointers; `live` turns false when `realloc` moves it away. */
  class Block {
    var rows: seq<array<Shsc.Data>>
    var live: bool

    constructor (rows: seq<array<Shsc.Data>>)
      ensures this.rows == rows && live
    {
      this.rows := rows;
      live := true;
    }
  }

  class Handle {
    /** This handle's own copy of the row-index pointer; `null` until the first row. */
    var list: Block?
    const cells: Cells

    /** `List::new`: a null row index and new shared cells. */
    constructor ()
      ensures list == null && fresh(cells)
      ensures cells.len == 0 && cells.rows == 0 && cells.refc == 1
    {
      list := null;
      cells := new Cells();
    }

    /** The handle `refcopy` builds: the row-index pointer copied, the cells shared. */
    constructor Copy(list: Block?, cells: Cells)
      ensures this.list == list && this.cells == cells
    {
      this.list := list;
      this.cells := cells;
    }

    /** The row pointers stored in the block this handle points to (none through null). */
    function Index(): seq<array<Shsc.Data>>
      reads this, list
    {
      if list == null then [] else list.rows
    }

    /** The row arrays this handle's row index reaches. */
    function Rows(): set<array<Shsc.Data>>
      reads this, list
    {
      set r | r in Index()
    }

    /**
     * The row index is a live block holding every row the shared row count claims, with room
     * for the length.
     */
    ghost predicate Current()
      reads this, list, cells
    {
      && (list != null ==> list.live)
      && |Index()| == cells.rows
      && cells.len <= Paging.Capacity(cells.rows)
      && forall r :: 0 <= r < |Index()| ==> Index()[r].Length == Paging.COLS
    }

    /** Whether the next `append` reallocates the row index and the block it gets is a new one. */
    predicate MovesBlock(inPlace: bool)
      reads this, cells
    {
      cells.len >= Paging.Capacity(cells.rows) && (list == null || !inPlace)
    }

    /** `get`: nothing past the shared length, otherwise the slot through this handle's row index. */
    function Get(index: nat): (r: Read)
      reads this, list, cells, Rows()
      ensures r.Absent? <==> index >= cells.len
      ensures Current() && index < cells.len ==> r.Found?
      ensures index < cells.len && list != null && !list.live ==> r == Dangling
    {
      if index >= cells.len then Absent
      else if list == null || !list.live then Dangling
      else if Paging.Row(index) < |list.rows| && Paging.Col(index) < list.rows[Paging.Row(index)].Length
      then Found(list.rows[Paging.Row(index)][Paging.Col(index)])
      else Dangling
    }

    /** `refcopy`: the shared count goes up, and the new handle copies the row-index pointer. */
    method RefCopy() returns (alias: Handle)
      modifies cells
      ensures fresh(alias) && alias.list == list && alias.cells == cells
      ensures cells.refc == old(cells.refc) + 1
      ensures cells.len == old(cells.len) && cells.rows == old(cells.rows)
    {
      cells.refc := cells.refc + 1;
      alias := new Handle.Copy(list, cells);
    }

    /**
     * `append`: when full, the row index is reallocated one entry longer, in place when the
     * allocator can (`inPlace`) and the pointer is not null, otherwise into a new block, the old
     * one being freed; a new row goes at the end and the shared row count goes up. Then the slot
     * at the shared length is written and the length goes up.
     */
    method Append(data: Shsc.Data, inPlace: bool)
      requires Current()
      modifies this, list, cells, Rows()
      ensures Current() && cells.len == old(cells.len) + 1 && cells.refc == old(cells.refc)
      ensures old(Index()) <= Index()
      ensures |Index()| == if old(cells.len) == Paging.Capacity(old(cells.rows)) then old(|Index()|) + 1 else old(|Index()|)
      ensures list == old(list) <==> !old(MovesBlock(inPlace))
      ensures list != old(list) ==> fresh(list) && (old(list) != null ==> !old(list).live)
      ensures Get(old(cells.len)) == Found(data)
    {
      if cells.len >= Paging.Capacity(cells.rows) {
        var row := new Shsc.Data[Paging.COLS](_ => Shsc.NULL);
        if list != null && inPlace {
          list.rows := list.rows + [row];
        } else {
          var grown := new Block(Index() + [row]);
          if list != null {
            list.live := false;
          }
          list := grown;
        }
        cells.rows := cells.rows + 1;
      }
      Paging.RowInRange(cells.len, cells.rows);
      var r := Paging.Row(cells.len);
      var c := Paging.Col(cells.len);
      list.rows[r][c] := data;
      cells.len := cells.len + 1;
    }
  }

  /**
   * When the owner's `append` moves the row index, an alias that shared it is left with a freed
   * block (or the null pointer): every read through it below the shared length is invalid, and
   * the new element, which the shared length counts, is out of its reach.
   */
  method AppendLeavesAliasBehind(owner: Handle, alias: Handle, data: Shsc.Data, inPlace: bool)
    requires owner.Current() && owner != alias
    requires alias.cells == owner.cells && alias.list == owner.list
    requires owner.MovesBlock(inPlace)
    modifies owner, owner.list, owner.cells, owner.Rows()
    ensures owner.Get(old(owner.cells.len)) == Found(data)
    ensures forall i: nat :: i < owner.cells.len ==> alias.Get(i) == Dangling
    ensures !alias.Current()
  {
    owner.Append(data, inPlace);
  }

  /**
   * When the owner's `append` keeps the row index where it is, because no row is added or
   * `realloc` grows the block in place, the alias still shares it and sees the new element.
   */
  method AppendReachesAlias(owner: Handle, alias: Handle, data: Shsc.Data, inPlace: bool)
    requires owner.Current() && owner != alias
    requires alias.cells == owner.cells && alias.list == owner.list
    requires !owner.MovesBlock(inPlace)
    modifies owner, owner.list, owner.cells, owner.Rows()
    ensures alias.Get(old(owner.cells.len)) == Found(data)
    ensures alias.Current()
  {
    owner.Append(data, inPlace);
  }

  /**
   * `let mut a = l.refcopy(); l.append(d); a.get(0)` on a new list: the owner reads `d`, but the
   * alias's row index is still the null pointer of `List::new`, whatever the allocator does.
   */
  method StaleAliasOfEmptyList(data: Shsc.Data, inPlace: bool) returns (mine: Read, theirs: Read)
    ensures mine == Found(data) && theirs == Dangling
  {
    var l := new Handle();
    var a := l.RefCopy();
    l.Append(data, inPlace);
    mine := l.Get(0);
    theirs := a.Get(0);
  }
}
