/**
 * Properties that span several calls, stated as small client programs over the library: what
 * one handle observes after another handle's call, and the documented examples.
 */
module Scenarios {
  import opened Wrappers
  import Paging
  import RefCount
  import Sequences
  import Shsc

  /** Thirty-three elements need a second row of 32 slots. */
  method RowsForThirtyThree() returns (rows: nat, len: nat)
    ensures rows == 2 && len == 33
  {
    var l := new Shsc.List.From(seq(33, _ => Shsc.NULL));
    rows := l.rows;
    len := l.Len();
  }

  /** A value appended to a list is read back at the old length, and earlier ones stay put. */
  method AppendThenGet(l: Shsc.List, v: Shsc.Data) returns (got: Option<Shsc.Data>)
    requires l.Valid()
    modifies l.Repr
    ensures l.Valid() && got == Some(v)
    ensures forall i :: 0 <= i < |old(l.contents)| ==> l.Get(i) == Some(old(l.contents)[i])
  {
    var n := l.Len();
    l.Append(v);
    got := l.Get(n);
  }

  /** `remove(i)` right after `insert(i, v)` returns `v` and leaves the list as it was. */
  method InsertThenRemove(l: Shsc.List, i: nat, v: Shsc.Data) returns (r: Result<Shsc.Data, Shsc.Error>)
    requires l.Valid()
    modifies l.Repr
    ensures l.Valid()
    ensures i <= |old(l.contents)| ==> r == Success(v) && l.contents == old(l.contents)
    ensures i > |old(l.contents)| ==> r == Failure(Shsc.IndexOutOfBounds(i)) && l.contents == old(l.contents)
  {
    var o := l.Insert(i, v);
    if o.Fail? {
      r := Failure(o.error);
      return;
    }
    Sequences.RemoveUndoesInsert(old(l.contents), i, v);
    r := l.Remove(i);
  }

  /**
   * With the row index shared as intended, an alias made by `refcopy` shares the storage and the
   * count, and sees a later append even when it adds a row (compare `Handles`).
   */
  method AliasSeesAppend(l: Shsc.List, v: Shsc.Data) returns (alias: Shsc.List)
    requires l.Valid()
    modifies l.Repr, l.refc
    ensures alias.Valid() && alias.contents == old(l.contents) + [v]
    ensures alias.GetRc() == l.GetRc() == RefCount.Incremented(old(l.refc.count))
  {
    alias := l.RefCopy();
    l.Append(v);
  }

  /** A clone of a list of primitives holds the same values and does not see later appends. */
  method CloneIsIndependent(l: Shsc.List, v: Shsc.Data) returns (c: Shsc.List)
    requires l.Valid()
    requires forall i :: 0 <= i < |l.contents| ==> !Shsc.IsContainer(l.contents[i])
    modifies l.Repr
    ensures c.Valid() && c.contents == old(l.contents) && c.GetRc() == 1
    ensures l.contents == old(l.contents) + [v]
  {
    c := l.Clone(1, l.Repr);
    forall i | 0 <= i < |c.contents|
      ensures c.contents[i] == l.contents[i]
    {
      assert Shsc.Cloned(l.contents[i], c.contents[i]);
    }
    l.Append(v);
  }

  /** Overwriting a key keeps one slot; removing it leaves a tombstone and the key unknown. */
  method MapOverwriteThenRemove() returns (before: Option<Shsc.Data>, removed: Option<Shsc.Data>,
                                           after: Option<Shsc.Data>, slots: nat)
    ensures before == Some(Shsc.INT32(2)) && removed == Some(Shsc.INT32(2))
    ensures after == None && slots == 1
  {
    var m := new Shsc.Map();
    m.Insert("a", Shsc.INT32(1));
    m.Insert("a", Shsc.INT32(2));
    before := m.Get("a");
    removed := m.Remove("a");
    after := m.Get("a");
    slots := m.store.Len();
  }

  /**
   * Two handles of one map share its entries, but each carries its own count: lowering the
   * count through one handle leaves the other's unchanged.
   */
  method MapHandlesShareEntriesNotCounts() returns (seen: Option<Shsc.Data>, mine: int, theirs: int)
    ensures seen == Some(Shsc.BOOL(true))
    ensures mine == 2 && theirs == 1
  {
    var m := new Shsc.Map();
    var alias := m.RefCopy();
    alias.Insert("k", Shsc.BOOL(true));
    seen := m.Get("k");
    alias.DecRc();
    mine := m.GetRc();
    theirs := alias.GetRc();
  }

  /** A string made from text gives that text back. */
  method StringRoundTrip(text: string) returns (r: Result<string, Shsc.Error>)
    ensures r == Success(text)
  {
    var s := new Shsc.String.From(text);
    r := s.ToStr();
  }

  /** `concat` of "hi" and "!" is "hi!", and both inputs keep their text. */
  method ConcatExample() returns (r: Result<string, Shsc.Error>, left: Result<string, Shsc.Error>)
    ensures r == Success("hi!") && left == Success("hi")
  {
    var a := new Shsc.String.From("hi");
    var b := new Shsc.String.From("!");
    var c := a.Concat(b);
    assert c.Chars() == "hi" + "!" == "hi!";
    r := c.ToStr();
    left := a.ToStr();
  }

  /**
   * The documented example inserts " world" at the end of "hello"; each character goes to the
   * same index, so the inserted text comes out reversed.
   */
  method InsertExample() returns (r: Result<string, Shsc.Error>)
    ensures r == Success("hellodlrow ")
  {
    var s := new Shsc.String.From("hello");
    var o := s.InsertStr(5, " world");
    var backwards := Sequences.Reversed(" world");
    assert backwards == "dlrow " by {
      assert forall j :: 0 <= j < 6 ==> backwards[j] == " world"[5 - j];
    }
    assert s.Chars() == "hello" + "dlrow " + "" == "hellodlrow ";
    r := s.ToStr();
  }

  /** The in-order insert gives the text the documented example intends. */
  method InsertExampleInOrder() returns (r: Result<string, Shsc.Error>)
    ensures r == Success("hello world")
  {
    var s := new Shsc.String.From("hello");
    var o := s.InsertStrInOrder(5, " world");
    assert s.Chars() == "hello" + " world" + "" == "hello world";
    r := s.ToStr();
  }

  /**
   * As written, `refcopy` of a LIST value raises its count to 2, and `refdrop` of the copy then
   * lowers it twice: the list is released while the original value still refers to it.
   */
  method DataRefCopyThenDrop(vec: seq<Shsc.Data>) returns (copy: Shsc.Data, raised: int, lowered: int)
    ensures copy.LIST? && copy.l.contents == vec
    ensures raised == 2 && lowered == 0 && copy.l.freed
  {
    var d := Shsc.FromVec(vec);
    copy := Shsc.RefCopyData(d);
    raised := Shsc.GetRcData(d);
    Shsc.RefDropData(copy);
    lowered := Shsc.GetRcData(d);
  }

  /** Dropping the copy once, as `List::refdrop` does, brings the count back to 1 and keeps the list. */
  method DataRefCopyThenDropOnce(vec: seq<Shsc.Data>) returns (copy: Shsc.Data, raised: int, lowered: int)
    ensures copy.LIST? && copy.l.Valid() && copy.l.contents == vec
    ensures raised == 2 && lowered == 1
  {
    var d := Shsc.FromVec(vec);
    copy := Shsc.RefCopyData(d);
    raised := Shsc.GetRcData(d);
    Shsc.DropData(copy);
    lowered := Shsc.GetRcData(d);
  }

  /** `incrc` then `decrc` leaves a list's count where it was. */
  method IncThenDecRestoresCount(l: Shsc.List)
    requires l.refc.count >= 0
    modifies l.refc
    ensures l.GetRc() == old(l.GetRc())
  {
    l.IncRc();
    l.DecRc();
    RefCount.DecrementUndoesIncrement(old(l.refc.count));
  }

  /** Inserting the value `remove(i)` returned back at `i` restores the list. */
  method RemoveThenInsert(l: Shsc.List, i: nat) returns (r: Result<Shsc.Data, Shsc.Error>)
    requires l.Valid()
    modifies l.Repr
    ensures l.Valid() && l.contents == old(l.contents)
    ensures r.Success? <==> i < |old(l.contents)|
  {
    r := l.Remove(i);
    if r.Failure? {
      return;
    }
    Sequences.InsertUndoesRemove(old(l.contents), i);
    var o := l.Insert(i, r.value);
    assert o.Pass?;
  }
}
