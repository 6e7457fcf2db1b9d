/**
 * The storage and reference-count core of the value library: the tagged value `Data`, the
 * paged `List`, the key-indexed `Map` over a backing list, and the `String` of CHAR values.
 *
 * A Rust handle of a list is a bundle of pointers to heap cells. Here every alias of a list is
 * the same `List` object, so aliases share the row index as well as the length, the row count
 * and the count. That is the sharing the layout evidently intends; as written, each handle
 * carries its own copy of the row-index pointer, which module `Handles` models.
 */
module Shsc {
  import opened Wrappers
  import Paging
  import RefCount
  import Sequences
  import KeySlots

  /* Widths of the integer payloads. */
  type u8 = x: int | 0 <= x < 0x100
  type u16 = x: int | 0 <= x < 0x1_0000
  type u32 = x: int | 0 <= x < 0x1_0000_0000
  type u64 = x: int | 0 <= x < 0x1_0000_0000_0000_0000
  type i8 = x: int | -0x80 <= x < 0x80
  type i16 = x: int | -0x8000 <= x < 0x8000
  type i32 = x: int | -0x8000_0000 <= x < 0x8000_0000
  type i64 = x: int | -0x8000_0000_0000_0000 <= x < 0x8000_0000_0000_0000
  /** A 64-bit float, carried as its bit pattern: no arithmetic is done on it here. */
  type f64 = x: int | 0 <= x < 0x1_0000_0000_0000_0000

  /** The fatal conditions of the library, returned instead of aborting. */
  datatype Error =
    | IndexOutOfBounds(index: nat)
    | UndefinedData(index: nat)
    | InvalidKey(key: string)
    | TypeMismatch(expected: string, at: nat, found: string)

  /**
   * The closed tagged union of values. Primitive payloads are values; the STRING, LIST and MAP
   * payloads are handles to heap containers. The primitive `From` conversions are the
   * constructors themselves.
   */
  datatype Data =
    | BOOL(bool)
    | UINT8(u8)
    | UINT16(u16)
    | UINT32(u32)
    | UINT64(u64)
    | INT8(i8)
    | INT16(i16)
    | INT32(i32)
    | INT64(i64)
    | FLOAT64(f64)
    | CHAR(c: char)
    | STRING(s: String)
    | LIST(l: List)
    | MAP(m: Map)
    | NULL

  /** The value `Data::null()` returns; the constant `Data::NULL` is the constructor `NULL`. */
  function Null(): (d: Data)
    ensures IsNull(d)
  {
    NULL
  }

  /** `is_null`: true exactly for the null value, the one variant whose type name is "NULL". */
  predicate IsNull(d: Data): (b: bool)
    ensures b <==> d == NULL
    ensures b <==> Typename(d) == "NULL"
  {
    match d
    case NULL => true
    case _ => false
  }

  /** The variants whose payload is a reference-counted heap container. */
  predicate IsContainer(d: Data)
  {
    d.STRING? || d.LIST? || d.MAP?
  }

  /** The fifteen type names `typename` can give, one per variant. */
  const TypeNames: set<string> := {
    "BOOL", "UINT8", "UINT16", "UINT32", "UINT64", "INT8", "INT16", "INT32", "INT64",
    "FLOAT64", "CHAR", "STRING", "LIST", "MAP", "NULL"
  }

  /** `typename`: the fixed name of the value's variant. */
  function Typename(d: Data): (r: string)
    ensures r in TypeNames
    ensures r == "CHAR" <==> d.CHAR?
  {
    match d
    case BOOL(_) => "BOOL"
    case UINT8(_) => "UINT8"
    case UINT16(_) => "UINT16"
    case UINT32(_) => "UINT32"
    case UINT64(_) => "UINT64"
    case INT8(_) => "INT8"
    case INT16(_) => "INT16"
    case INT32(_) => "INT32"
    case INT64(_) => "INT64"
    case FLOAT64(_) => "FLOAT64"
    case CHAR(_) => "CHAR"
    case STRING(_) => "STRING"
    case LIST(_) => "LIST"
    case MAP(_) => "MAP"
    case NULL => "NULL"
  }

  /** Both values hold the same variant, whatever their payloads. */
  predicate SameVariant(a: Data, b: Data)
  {
    match a
    case BOOL(_) => b.BOOL?
    case UINT8(_) => b.UINT8?
    case UINT16(_) => b.UINT16?
    case UINT32(_) => b.UINT32?
    case UINT64(_) => b.UINT64?
    case INT8(_) => b.INT8?
    case INT16(_) => b.INT16?
    case INT32(_) => b.INT32?
    case INT64(_) => b.INT64?
    case FLOAT64(_) => b.FLOAT64?
    case CHAR(_) => b.CHAR?
    case STRING(_) => b.STRING?
    case LIST(_) => b.LIST?
    case MAP(_) => b.MAP?
    case NULL => b.NULL?
  }

  /** The type name identifies the variant: two values share a name exactly when they share a variant. */
  lemma TypenameIdentifiesVariant(a: Data, b: Data)
    ensures Typename(a) == Typename(b) <==> SameVariant(a, b)
  {
  }

  /** `is_null` holds exactly for the NULL variant, the one named "NULL"; both null constants are null. */
  lemma NullIsTheNullVariant(d: Data)
    ensures IsNull(d) <==> d == NULL
    ensures IsNull(d) <==> Typename(d) == "NULL"
    ensures IsNull(NULL) && IsNull(Null())
  {
  }

  /** A shallow copy relation: same variant, and an equal payload for every non-container variant. */
  predicate Cloned(source: Data, copy: Data)
  {
    SameVariant(source, copy) && (!IsContainer(source) ==> copy == source)
  }

  /** `copy` holds a clone of each element of `source`, in the same order. */
  predicate AllCloned(source: seq<Data>, copy: seq<Data>)
  {
    |source| == |copy| && forall i :: 0 <= i < |source| ==> Cloned(source[i], copy[i])
  }

  lemma AllClonedSnoc(source: seq<Data>, copy: seq<Data>, x: Data, y: Data)
    requires AllCloned(source, copy) && Cloned(x, y)
    ensures AllCloned(source + [x], copy + [y])
  {
    forall i | 0 <= i < |source| + 1
      ensures Cloned((source + [x])[i], (copy + [y])[i])
    {
      if i < |source| {
        assert (source + [x])[i] == source[i] && (copy + [y])[i] == copy[i];
      }
    }
  }

  /**
   * The paged growable sequence. Elements live in rows of `cols` slots, each row its own array;
   * `list` is the row-index array, grown by one row at a time. `contents` is the abstract value.
   */
  class List {
    const cols: nat := Paging.COLS
    /** The row-index array, reallocated one entry longer whenever a row is added. */
    var list: seq<array<Data>>
    var len: nat
    var rows: nat
    const refc: RefCount.Counter
    ghost var contents: seq<Data>
    ghost var Repr: set<object>
    /** Set when the storage has been released because the count reached zero. */
    ghost var freed: bool
    /** The position of each row in the row-index array; it tells the rows apart. */
    ghost var rowOf: map<array<Data>, nat>

    /** The row structure: `rows` distinct rows of `cols` slots. */
    ghost predicate Shaped()
      reads this`Repr, this`list, this`rows, this`rowOf, Repr - {this}
    {
      && this in Repr && refc !in Repr
      && rows == |list|
      && (forall r :: 0 <= r < rows ==>
            list[r] in Repr && list[r].Length == cols && list[r] in rowOf && rowOf[list[r]] == r)
    }

    /** The element stored for logical index `i`: row `i / cols`, column `i % cols`. */
    ghost function Slot(i: nat): Data
      reads this`Repr, this`list, this`rows, this`rowOf, Repr - {this}
      requires Shaped() && i < Paging.Capacity(rows)
    {
      Paging.RowInRange(i, rows);
      list[Paging.Row(i)][Paging.Col(i)]
    }

    ghost predicate Valid()
      reads this, Repr
    {
      && Shaped()
      && len <= Paging.Capacity(rows)
      && !freed
      && |contents| == len
      && forall i :: 0 <= i < len ==> contents[i] == Slot(i)
    }

    /** `List::new`: no rows, no elements, one reference. */
    constructor ()
      ensures Valid() && fresh(Repr) && fresh(refc)
      ensures contents == [] && rows == 0 && refc.count == 1
    {
      list := [];
      len := 0;
      rows := 0;
      refc := new RefCount.Counter(1);
      contents := [];
      freed := false;
      new;
      Repr := {this};
      rowOf := map[];
    }

    /** `List::from`: a new list holding `vec`, built by appending each element in order. */
    constructor From(vec: seq<Data>)
      ensures Valid() && fresh(Repr) && fresh(refc)
      ensures contents == vec && refc.count == 1 && rows == Paging.RowsNeeded(|vec|)
    {
      list := [];
      len := 0;
      rows := 0;
      refc := new RefCount.Counter(1);
      contents := [];
      freed := false;
      new;
      Repr := {this};
      rowOf := map[];
      for k := 0 to |vec|
        invariant Valid() && fresh(Repr)
        invariant contents == vec[..k] && refc.count == 1 && rows == Paging.RowsNeeded(k)
      {
        Paging.GrowthStep(k);
        Append(vec[k]);
      }
    }

    method ReadSlot(i: nat) returns (x: Data)
      requires Shaped() && i < Paging.Capacity(rows)
      ensures x == Slot(i)
    {
      Paging.RowInRange(i, rows);
      x := list[Paging.Row(i)][Paging.Col(i)];
    }

    method WriteSlot(i: nat, x: Data)
      requires Shaped() && i < Paging.Capacity(rows)
      modifies list[Paging.Row(i)]
      ensures Shaped() && Slot(i) == x
      ensures forall j :: 0 <= j < Paging.Capacity(rows) && j != i ==> Slot(j) == old(Slot(j))
    {
      Paging.RowInRange(i, rows);
      list[Paging.Row(i)][Paging.Col(i)] := x;
      forall j | 0 <= j < Paging.Capacity(rows) && j != i
        ensures Slot(j) == old(Slot(j))
      {
        Paging.SlotInjective(i, j);
        Paging.RowInRange(j, rows);
      }
    }

    /** Replace the element at `index`, leaving every other element and the length alone. */
    method Store(index: nat, x: Data)
      requires Valid() && index < len
      modifies Repr
      ensures Valid() && Repr == old(Repr) && len == old(len) && rows == old(rows)
      ensures contents == old(contents)[index := x]
    {
      WriteSlot(index, x);
      contents := contents[index := x];
      forall j | 0 <= j < len
        ensures contents[j] == Slot(j)
      {
      }
    }

    /** Reallocate the row-index array one entry longer and allocate a fresh row for it. */
    method Grow()
      requires Shaped()
      modifies this
      ensures Shaped() && rows == old(rows) + 1
      ensures old(Repr) <= Repr && fresh(Repr - old(Repr))
      ensures forall i :: 0 <= i < Paging.Capacity(old(rows)) ==> Slot(i) == old(Slot(i))
      ensures len == old(len) && contents == old(contents) && freed == old(freed)
      ensures old(Valid()) ==> Valid()
    {
      var newrow := new Data[cols](_ => NULL);
      list := list + [newrow];
      rows := rows + 1;
      Repr := Repr + {newrow};
      rowOf := rowOf[newrow := rows - 1];
      forall i | 0 <= i < Paging.Capacity(old(rows))
        ensures Slot(i) == old(Slot(i))
      {
        Paging.RowInRange(i, old(rows));
      }
    }

    /** `append`: add a row when full, then store `data` at index `len`. */
    method Append(data: Data)
      requires Valid()
      modifies Repr
      ensures Valid() && old(Repr) <= Repr && fresh(Repr - old(Repr))
      ensures contents == old(contents) + [data]
      ensures rows == if old(len) == Paging.Capacity(old(rows)) then old(rows) + 1 else old(rows)
    {
      if len >= Paging.Capacity(rows) {
        Grow();
      }
      WriteSlot(len, data);
      len := len + 1;
      contents := contents + [data];
    }

    /** `get` / `get_mut`: absent past the end, otherwise the element at that index. */
    function Get(index: nat): (r: Option<Data>)
      reads this, Repr
      requires Valid()
      ensures r.Some? <==> index < |contents|
      ensures r.Some? ==> r.value == contents[index]
    {
      if index >= len then None
      else
        Paging.RowInRange(index, rows);
        Some(list[Paging.Row(index)][Paging.Col(index)])
    }

    /** `Index`: the element at `index`, or the abort `undefined data at index`. */
    function Index(index: nat): (r: Result<Data, Error>)
      reads this, Repr
      requires Valid()
      ensures r.Success? <==> index < |contents|
      ensures r.Success? ==> r.value == contents[index]
      ensures r.Failure? ==> r.error == UndefinedData(index)
    {
      match Get(index)
      case Some(d) => Success(d)
      case None => Failure(UndefinedData(index))
    }

    /**
     * `get_mut` followed by a store through the reference it returns: `found` tells whether
     * `get_mut` returned a reference; only that one slot changes.
     */
    method WriteMut(index: nat, data: Data) returns (found: bool)
      requires Valid()
      modifies Repr
      ensures Valid() && Repr == old(Repr) && len == old(len) && rows == old(rows)
      ensures found <==> index < old(len)
      ensures contents == if found then old(contents)[index := data] else old(contents)
    {
      if index >= len {
        return false;
      }
      Store(index, data);
      found := true;
    }

    /** `IndexMut` assignment `list[index] = data`, aborting with `undefined data at index`. */
    method IndexMut(index: nat, data: Data) returns (r: Outcome<Error>)
      requires Valid()
      modifies Repr
      ensures Valid() && Repr == old(Repr) && len == old(len) && rows == old(rows)
      ensures r.Pass? <==> index < old(len)
      ensures r.Fail? ==> r.error == UndefinedData(index)
      ensures contents == if r.Pass? then old(contents)[index := data] else old(contents)
    {
      var found := WriteMut(index, data);
      r := if found then Pass else Fail(UndefinedData(index));
    }

    /** `take`: move the element out, leaving NULL in its slot; the length is unchanged. */
    method Take(index: nat) returns (r: Option<Data>)
      requires Valid()
      modifies Repr
      ensures Valid() && Repr == old(Repr) && len == old(len) && rows == old(rows)
      ensures r.Some? <==> index < old(len)
      ensures r.Some? ==> r.value == old(contents)[index] && contents == old(contents)[index := NULL]
      ensures r.None? ==> contents == old(contents)
    {
      if index >= len {
        return None;
      }
      var taken := ReadSlot(index);
      Store(index, NULL);
      r := Some(taken);
    }

    function Len(): (n: nat)
      reads this, Repr
      requires Valid()
      ensures n == |contents|
    {
      len
    }

    /** `as_vec`: the `len` elements in index order, read row by row. */
    method AsVec() returns (vec: seq<Data>)
      requires Valid()
      ensures vec == contents
    {
      vec := [];
      for i := 0 to len
        invariant vec == contents[..i]
      {
        Paging.RowInRange(i, rows);
        vec := vec + [list[Paging.Row(i)][Paging.Col(i)]];
      }
    }

    /** Move the elements in slots `lo..hi` one slot right, from the last one down. */
    method ShiftRight(lo: nat, hi: nat)
      requires Shaped() && lo <= hi < Paging.Capacity(rows)
      modifies Repr - {this}
      ensures Shaped()
      ensures forall j :: 0 <= j < Paging.Capacity(rows) && !(lo < j <= hi) ==> Slot(j) == old(Slot(j))
      ensures forall j :: lo < j <= hi ==> Slot(j) == old(Slot(j - 1))
    {
      var i := hi;
      while i > lo
        invariant lo <= i <= hi && Shaped()
        invariant forall j :: 0 <= j < Paging.Capacity(rows) && !(i < j <= hi) ==> Slot(j) == old(Slot(j))
        invariant forall j :: i < j <= hi ==> Slot(j) == old(Slot(j - 1))
      {
        i := i - 1;
        var moved := ReadSlot(i);
        assert moved == old(Slot(i));
        label Before:
        WriteSlot(i + 1, moved);
        forall j | 0 <= j < Paging.Capacity(rows) && !(i < j <= hi)
          ensures Slot(j) == old(Slot(j))
        {
          assert Slot(j) == old@Before(Slot(j));
        }
        forall j | i < j <= hi
          ensures Slot(j) == old(Slot(j - 1))
        {
          if j != i + 1 {
            assert Slot(j) == old@Before(Slot(j));
          }
        }
      }
    }

    /** Move the elements in slots `lo + 1..hi + 1` one slot left, from the first one up. */
    method ShiftLeft(lo: nat, hi: nat)
      requires Shaped() && lo <= hi < Paging.Capacity(rows)
      modifies Repr - {this}
      ensures Shaped()
      ensures forall j :: 0 <= j < Paging.Capacity(rows) && !(lo <= j < hi) ==> Slot(j) == old(Slot(j))
      ensures forall j :: lo <= j < hi ==> Slot(j) == old(Slot(j + 1))
    {
      var i := lo;
      while i < hi
        invariant lo <= i <= hi && Shaped()
        invariant forall j :: 0 <= j < Paging.Capacity(rows) && !(lo <= j < i) ==> Slot(j) == old(Slot(j))
        invariant forall j :: lo <= j < i ==> Slot(j) == old(Slot(j + 1))
      {
        var moved := ReadSlot(i + 1);
        assert moved == old(Slot(i + 1));
        label Before:
        WriteSlot(i, moved);
        forall j | 0 <= j < Paging.Capacity(rows) && !(lo <= j < i + 1)
          ensures Slot(j) == old(Slot(j))
        {
          assert Slot(j) == old@Before(Slot(j));
        }
        forall j | lo <= j < i + 1
          ensures Slot(j) == old(Slot(j + 1))
        {
          if j != i {
            assert Slot(j) == old@Before(Slot(j));
          }
        }
        i := i + 1;
      }
    }

    /** Shift `index..len` one slot right and store `data` at `index`, within the allocated rows. */
    method Place(index: nat, data: Data)
      requires Valid() && index <= len < Paging.Capacity(rows)
      modifies Repr
      ensures Valid() && Repr == old(Repr) && rows == old(rows)
      ensures contents == Sequences.Inserted(old(contents), index, data)
    {
      ghost var s := contents;
      ShiftRight(index, len);
      label Shifted:
      WriteSlot(index, data);
      len := len + 1;
      contents := Sequences.Inserted(s, index, data);
      forall j | 0 <= j < len
        ensures contents[j] == Slot(j)
      {
        if j < index {
          assert Slot(j) == old@Shifted(Slot(j));
        } else if j > index {
          assert Slot(j) == old@Shifted(Slot(j));
          assert contents[j] == s[j - 1];
        }
      }
    }

    /**
     * `insert`: abort when `index > len`; otherwise add a row if full, shift `index..len` one
     * slot right (last first), store `data` at `index`.
     */
    method Insert(index: nat, data: Data) returns (r: Outcome<Error>)
      requires Valid()
      modifies Repr
      ensures Valid() && old(Repr) <= Repr && fresh(Repr - old(Repr))
      ensures r.Pass? <==> index <= old(len)
      ensures r.Fail? ==> r.error == IndexOutOfBounds(index) && contents == old(contents)
      ensures r.Pass? ==> contents == Sequences.Inserted(old(contents), index, data)
      ensures r.Pass? ==> rows == if old(len) == Paging.Capacity(old(rows)) then old(rows) + 1 else old(rows)
      ensures r.Fail? ==> rows == old(rows)
    {
      if index > len {
        return Fail(IndexOutOfBounds(index));
      }
      if len >= Paging.Capacity(rows) {
        Grow();
      }
      Place(index, data);
      r := Pass;
    }

    /**
     * `remove`: abort when `index >= len`; otherwise keep the element at `index`, shift
     * `index + 1..len` one slot left, and shorten the list by one.
     */
    method Remove(index: nat) returns (r: Result<Data, Error>)
      requires Valid()
      modifies Repr
      ensures Valid() && Repr == old(Repr) && rows == old(rows)
      ensures r.Success? <==> index < old(len)
      ensures r.Failure? ==> r.error == IndexOutOfBounds(index) && contents == old(contents)
      ensures r.Success? ==> r.value == old(contents)[index]
      ensures r.Success? ==> contents == Sequences.Removed(old(contents), index)
    {
      if index >= len {
        return Failure(IndexOutOfBounds(index));
      }
      var removed := ReadSlot(index);
      ghost var s := contents;
      label Unshifted:
      ShiftLeft(index, len - 1);
      len := len - 1;
      contents := Sequences.Removed(s, index);
      forall j | 0 <= j < len
        ensures contents[j] == Slot(j)
      {
        if j >= index {
          assert Slot(j) == old@Unshifted(Slot(j + 1)) == s[j + 1];
        } else {
          assert Slot(j) == old@Unshifted(Slot(j)) == s[j];
        }
      }
      r := Success(removed);
    }

    /**
     * `clone`: a new list with one reference, built by appending a clone of each element in
     * order; nested containers are cloned `depth - 1` levels further down.
     */
    method Clone(ghost depth: nat, ghost fp: set<object>) returns (c: List)
      requires Valid() && Repr <= fp && depth > 0
      requires forall i :: 0 <= i < |contents| ==> Closed(contents[i], depth - 1, fp)
      ensures fresh(c) && fresh(c.Repr) && fresh(c.refc)
      ensures c.Valid() && c.refc.count == 1 && AllCloned(contents, c.contents)
      ensures forall i :: 0 <= i < |c.contents| ==> fresh(Containers(c.contents[i]))
      decreases depth, 0
    {
      var vec := AsVec();
      var copies := CloneEach(vec, depth - 1, fp);
      c := new List.From(copies);
    }

    /**
     * `refcopy`: count one more reference and hand out an alias of the same storage, row index
     * included (the intended sharing; module `Handles` shows the pointer copy the source makes).
     */
    method RefCopy() returns (alias: List)
      modifies refc
      ensures alias == this
      ensures refc.count == RefCount.Incremented(old(refc.count))
    {
      refc.Inc();
      alias := this;
    }

    method IncRc()
      modifies refc
      ensures refc.count == RefCount.Incremented(old(refc.count))
    {
      refc.Inc();
    }

    method DecRc()
      modifies refc
      ensures refc.count == RefCount.Decremented(old(refc.count))
    {
      refc.Dec();
    }

    function GetRc(): (c: int)
      reads refc
      ensures c == refc.count
    {
      refc.count
    }

    /**
     * `Drop`: count one reference less; the storage is released only once no reference is
     * left. Releasing is recorded in `freed`, after which the list is no longer valid.
     */
    method Drop()
      requires Valid()
      modifies refc, this`freed
      ensures refc.count == RefCount.Decremented(old(refc.count))
      ensures freed <==> refc.count <= 0
      ensures !freed ==> Valid()
    {
      refc.Dec();
      if refc.count > 0 {
        return;
      }
      freed := true;
    }

    /** `refdrop` consumes the handle, which runs `Drop`. */
    method RefDrop()
      requires Valid()
      modifies refc, this`freed
      ensures refc.count == RefCount.Decremented(old(refc.count))
      ensures freed <==> refc.count <= 0
      ensures !freed ==> Valid()
    {
      Drop();
    }
  }

  /** Each character as a CHAR value, in order. */
  function CharData(s: string): (r: seq<Data>)
    ensures |r| == |s|
    ensures forall i :: 0 <= i < |s| ==> r[i] == CHAR(s[i])
  {
    seq(|s|, i requires 0 <= i < |s| => CHAR(s[i]))
  }

  predicate AllChars(s: seq<Data>)
  {
    forall i :: 0 <= i < |s| ==> s[i].CHAR?
  }

  /** The characters carried by a sequence of CHAR values. */
  function CharsOf(s: seq<Data>): (r: string)
    requires AllChars(s)
    ensures |r| == |s|
    ensures forall i :: 0 <= i < |s| ==> s[i] == CHAR(r[i])
  {
    seq(|s|, i requires 0 <= i < |s| => s[i].c)
  }

  /** Reading the characters back out of their CHAR values gives the text unchanged. */
  lemma CharsRoundTrip(s: string)
    ensures AllChars(CharData(s)) && CharsOf(CharData(s)) == s
  {
    var r := CharsOf(CharData(s));
    assert forall i :: 0 <= i < |s| ==> r[i] == s[i];
  }

  /** Splicing the CHAR values of `text` into CHAR values splices `text` into their characters. */
  lemma CharsOfSplice(s: seq<Data>, i: nat, text: string)
    requires AllChars(s) && i <= |s|
    ensures AllChars(s[..i] + CharData(text) + s[i..])
    ensures CharsOf(s[..i] + CharData(text) + s[i..]) == CharsOf(s)[..i] + text + CharsOf(s)[i..]
  {
    var spliced := s[..i] + CharData(text) + s[i..];
    var r, t := CharsOf(spliced), CharsOf(s)[..i] + text + CharsOf(s)[i..];
    forall j | 0 <= j < |r|
      ensures r[j] == t[j]
    {
      if j < i {
        assert spliced[j] == s[j];
      } else if j < i + |text| {
        assert spliced[j] == CHAR(text[j - i]);
      } else {
        assert spliced[j] == s[j - |text|];
      }
    }
  }

  /** The characters of two CHAR sequences joined are the two texts joined. */
  lemma CharsOfConcat(a: seq<Data>, b: seq<Data>)
    requires AllChars(a) && AllChars(b)
    ensures AllChars(a + b) && CharsOf(a + b) == CharsOf(a) + CharsOf(b)
  {
    var r, t := CharsOf(a + b), CharsOf(a) + CharsOf(b);
    forall j | 0 <= j < |r|
      ensures r[j] == t[j]
    {
      if j < |a| {
        assert (a + b)[j] == a[j];
      } else {
        assert (a + b)[j] == b[j - |a|];
      }
    }
  }

  lemma AllCharsInserted(s: seq<Data>, i: nat, x: Data)
    requires AllChars(s) && x.CHAR? && i <= |s|
    ensures AllChars(Sequences.Inserted(s, i, x))
  {
  }

  /** A text: a list whose elements are all CHAR values. */
  class String {
    const list: List

    ghost predicate Valid()
      reads list, list.Repr
    {
      list.Valid() && AllChars(list.contents)
    }

    /** The text the string holds. */
    ghost function Chars(): string
      reads list, list.Repr
      requires Valid()
    {
      CharsOf(list.contents)
    }

    /** `String::new`: the empty text over a new list. */
    constructor ()
      ensures Valid() && fresh(list) && fresh(list.Repr) && fresh(list.refc)
      ensures Chars() == "" && list.refc.count == 1
    {
      list := new List();
    }

    /** `String::from`: one CHAR appended per character of `value`, in order. */
    constructor From(value: string)
      ensures Valid() && fresh(list) && fresh(list.Repr) && fresh(list.refc)
      ensures Chars() == value && list.refc.count == 1
    {
      list := new List();
      new;
      for k := 0 to |value|
        invariant list.Valid() && fresh(list.Repr) && list.refc.count == 1
        invariant list.contents == CharData(value[..k])
      {
        list.Append(CHAR(value[k]));
        assert value[..k + 1] == value[..k] + [value[k]];
      }
      assert value[..|value|] == value;
      CharsRoundTrip(value);
    }

    /** A second handle over the same list, as `refcopy` builds it. */
    constructor Share(shared: List)
      ensures list == shared
    {
      list := shared;
    }

    function Len(): (n: nat)
      reads list, list.Repr
      requires list.Valid()
      ensures Valid() ==> n == |Chars()|
    {
      list.Len()
    }

    /** `concat`: a new string holding this text followed by `other`; neither input changes. */
    method Concat(other: String) returns (r: String)
      requires Valid() && other.Valid()
      ensures fresh(r) && fresh(r.list) && fresh(r.list.Repr) && r.Valid()
      ensures r.Chars() == Chars() + other.Chars()
    {
      ghost var a, b := list.contents, other.list.contents;
      r := new String();
      r.AppendString(this);
      assert list.contents == a && other.list.contents == b;
      r.AppendString(other);
      CharsOfConcat(a, b);
    }

    /** `append(char)`: the character at the end. */
    method AppendChar(c: char)
      requires Valid()
      modifies list.Repr
      ensures Valid() && old(list.Repr) <= list.Repr && fresh(list.Repr - old(list.Repr))
      ensures Chars() == old(Chars()) + [c]
    {
      list.Append(CHAR(c));
    }

    /** Append each of `xs`, in order, as the append loops of the three `append`s do. */
    method AppendAll(xs: seq<Data>)
      requires Valid() && AllChars(xs)
      modifies list.Repr
      ensures Valid() && old(list.Repr) <= list.Repr && fresh(list.Repr - old(list.Repr))
      ensures list.contents == old(list.contents) + xs
    {
      ghost var s := list.contents;
      for k := 0 to |xs|
        invariant list.Valid() && old(list.Repr) <= list.Repr && fresh(list.Repr - old(list.Repr))
        invariant list.contents == s + xs[..k]
      {
        list.Append(xs[k]);
        assert xs[..k + 1] == xs[..k] + [xs[k]];
      }
      assert xs[..|xs|] == xs;
    }

    /**
     * Insert each of `xs`, first to last, at the same `index`, as the insert loops of
     * `insert(&str)` and `insert(&String)` do. The first insert aborts when `index` is past the
     * end, before anything has changed.
     */
    method InsertAll(index: nat, xs: seq<Data>) returns (r: Outcome<Error>)
      requires Valid() && AllChars(xs)
      modifies list.Repr
      ensures Valid() && old(list.Repr) <= list.Repr && fresh(list.Repr - old(list.Repr))
      ensures r.Fail? <==> xs != [] && index > old(|list.contents|)
      ensures r.Fail? ==> r.error == IndexOutOfBounds(index) && list.contents == old(list.contents)
      ensures r.Pass? ==> list.contents == if xs == [] then old(list.contents)
                                           else Sequences.InsertEach(old(list.contents), index, xs)
    {
      ghost var s := list.contents;
      for k := 0 to |xs|
        invariant list.Valid() && AllChars(list.contents)
        invariant old(list.Repr) <= list.Repr && fresh(list.Repr - old(list.Repr))
        invariant k > 0 ==> index <= |s|
        invariant index <= |s| ==> list.contents == Sequences.InsertEach(s, index, xs[..k])
        invariant index > |s| ==> list.contents == s
      {
        label Step:
        var o := list.Insert(index, xs[k]);
        if o.Fail? {
          return o;
        }
        assert index <= |s|;
        AllCharsInserted(old@Step(list.contents), index, xs[k]);
        Sequences.InsertEachPrefix(s, index, xs, k);
      }
      assert xs[..|xs|] == xs;
      r := Pass;
    }

    /** Insert each of `xs` with the k-th at `index + k`, so that they keep their order. */
    method InsertAllInOrder(index: nat, xs: seq<Data>) returns (r: Outcome<Error>)
      requires Valid() && AllChars(xs)
      modifies list.Repr
      ensures Valid() && old(list.Repr) <= list.Repr && fresh(list.Repr - old(list.Repr))
      ensures r.Fail? <==> xs != [] && index > old(|list.contents|)
      ensures r.Fail? ==> r.error == IndexOutOfBounds(index) && list.contents == old(list.contents)
      ensures r.Pass? ==> list.contents == if xs == [] then old(list.contents)
                                           else Sequences.InsertInOrder(old(list.contents), index, xs)
    {
      ghost var s := list.contents;
      for k := 0 to |xs|
        invariant list.Valid() && AllChars(list.contents)
        invariant old(list.Repr) <= list.Repr && fresh(list.Repr - old(list.Repr))
        invariant k > 0 ==> index <= |s|
        invariant |list.contents| == |s| + k
        invariant index <= |s| ==> list.contents == Sequences.InsertInOrder(s, index, xs[..k])
        invariant index > |s| ==> list.contents == s
      {
        label Step:
        var o := list.Insert(index + k, xs[k]);
        if o.Fail? {
          return o;
        }
        assert index <= |s|;
        AllCharsInserted(old@Step(list.contents), index + k, xs[k]);
        Sequences.InsertInOrderPrefix(s, index, xs, k);
      }
      assert xs[..|xs|] == xs;
      r := Pass;
    }

    /** `append(&str)`: every character of `value` at the end, in order. */
    method AppendStr(value: string)
      requires Valid()
      modifies list.Repr
      ensures Valid() && old(list.Repr) <= list.Repr && fresh(list.Repr - old(list.Repr))
      ensures Chars() == old(Chars()) + value
    {
      ghost var s := list.contents;
      AppendAll(CharData(value));
      CharsOfConcat(s, CharData(value));
      CharsRoundTrip(value);
    }

    /**
     * `append(&String)`: the elements `as_vec` lists for `other`, at the end. The listing is
     * taken before the first append, so appending a string to an alias of itself doubles it.
     */
    method AppendString(other: String)
      requires Valid() && other.Valid()
      modifies list.Repr
      ensures Valid() && old(list.Repr) <= list.Repr && fresh(list.Repr - old(list.Repr))
      ensures list.contents == old(list.contents) + old(other.list.contents)
      ensures Chars() == old(Chars()) + old(other.Chars())
    {
      ghost var s := list.contents;
      var vec := other.list.AsVec();
      AppendAll(vec);
      CharsOfConcat(s, vec);
    }

    /** `insert(index, char)`: the list insert of that CHAR, aborting past the end. */
    method InsertChar(index: nat, c: char) returns (r: Outcome<Error>)
      requires Valid()
      modifies list.Repr
      ensures Valid() && old(list.Repr) <= list.Repr && fresh(list.Repr - old(list.Repr))
      ensures r.Pass? <==> index <= old(|Chars()|)
      ensures r.Fail? ==> r.error == IndexOutOfBounds(index) && Chars() == old(Chars())
      ensures r.Pass? ==> Chars() == Sequences.Inserted(old(Chars()), index, c)
    {
      ghost var s := list.contents;
      r := list.Insert(index, CHAR(c));
      if r.Pass? {
        assert list.contents == s[..index] + CharData([c]) + s[index..];
        CharsOfSplice(s, index, [c]);
      }
    }

    /**
     * `insert(index, &str)` as written: each character is inserted at the same `index`, so
     * each one lands in front of the previous ones and the text comes out reversed. Aborts on
     * the first insert when `index` is past the end; nothing has changed by then.
     */
    method InsertStr(index: nat, value: string) returns (r: Outcome<Error>)
      requires Valid()
      modifies list.Repr
      ensures Valid() && old(list.Repr) <= list.Repr && fresh(list.Repr - old(list.Repr))
      ensures r.Fail? <==> |value| > 0 && index > old(|Chars()|)
      ensures r.Fail? ==> r.error == IndexOutOfBounds(index) && Chars() == old(Chars())
      ensures r.Pass? && value == [] ==> Chars() == old(Chars())
      ensures r.Pass? && value != [] ==>
                Chars() == old(Chars())[..index] + Sequences.Reversed(value) + old(Chars())[index..]
    {
      ghost var s := list.contents;
      r := InsertAll(index, CharData(value));
      if r.Pass? && value != [] {
        Sequences.InsertEachReverses(s, index, CharData(value));
        assert Sequences.Reversed(CharData(value)) == CharData(Sequences.Reversed(value));
        CharsOfSplice(s, index, Sequences.Reversed(value));
      }
    }

    /**
     * `insert(index, &str)` as evidently intended: the k-th character goes to `index + k`,
     * so the text is spliced in unchanged.
     */
    method InsertStrInOrder(index: nat, value: string) returns (r: Outcome<Error>)
      requires Valid()
      modifies list.Repr
      ensures Valid() && old(list.Repr) <= list.Repr && fresh(list.Repr - old(list.Repr))
      ensures r.Fail? <==> |value| > 0 && index > old(|Chars()|)
      ensures r.Fail? ==> r.error == IndexOutOfBounds(index) && Chars() == old(Chars())
      ensures r.Pass? && value == [] ==> Chars() == old(Chars())
      ensures r.Pass? && value != [] ==> Chars() == old(Chars())[..index] + value + old(Chars())[index..]
    {
      ghost var s := list.contents;
      r := InsertAllInOrder(index, CharData(value));
      if r.Pass? && value != [] {
        Sequences.InsertInOrderSplices(s, index, CharData(value));
        CharsOfSplice(s, index, value);
      }
    }

    /**
     * `insert(index, &String)` as written: the elements `as_vec` lists for `other` are each
     * inserted at the same `index`, so the text of `other` lands reversed.
     */
    method InsertString(index: nat, other: String) returns (r: Outcome<Error>)
      requires Valid() && other.Valid() && other.list.Repr !! list.Repr
      modifies list.Repr
      ensures Valid() && old(list.Repr) <= list.Repr && fresh(list.Repr - old(list.Repr))
      ensures other.list.contents == old(other.list.contents)
      ensures r.Fail? <==> |other.Chars()| > 0 && index > old(|Chars()|)
      ensures r.Fail? ==> r.error == IndexOutOfBounds(index) && Chars() == old(Chars())
      ensures r.Pass? && other.Chars() == [] ==> Chars() == old(Chars())
      ensures r.Pass? && other.Chars() != [] ==>
                Chars() == old(Chars())[..index] + Sequences.Reversed(other.Chars()) + old(Chars())[index..]
    {
      ghost var s, t := list.contents, other.Chars();
      var vec := other.list.AsVec();
      r := InsertAll(index, vec);
      if r.Pass? && vec != [] {
        Sequences.InsertEachReverses(s, index, vec);
        assert Sequences.Reversed(vec) == CharData(Sequences.Reversed(t));
        CharsOfSplice(s, index, Sequences.Reversed(t));
      }
    }

    /**
     * `insert(index, &String)` as evidently intended: the k-th element of `other` goes to
     * `index + k`. The elements are listed before anything moves, so `other` may be an alias.
     */
    method InsertStringInOrder(index: nat, other: String) returns (r: Outcome<Error>)
      requires Valid() && other.Valid()
      modifies list.Repr
      ensures Valid() && old(list.Repr) <= list.Repr && fresh(list.Repr - old(list.Repr))
      ensures r.Fail? <==> old(|other.Chars()|) > 0 && index > old(|Chars()|)
      ensures r.Fail? ==> r.error == IndexOutOfBounds(index) && Chars() == old(Chars())
      ensures r.Pass? && old(other.Chars()) == [] ==> Chars() == old(Chars())
      ensures r.Pass? && old(other.Chars()) != [] ==>
                Chars() == old(Chars())[..index] + old(other.Chars()) + old(Chars())[index..]
    {
      ghost var s, t := list.contents, other.Chars();
      var vec := other.list.AsVec();
      r := InsertAllInOrder(index, vec);
      if r.Pass? && vec != [] {
        Sequences.InsertInOrderSplices(s, index, vec);
        assert vec == CharData(t);
        CharsOfSplice(s, index, t);
      }
    }

    /**
     * `tostr`: the characters in order, or the abort naming the first element that is not a
     * CHAR, its index and its type.
     */
    method ToStr() returns (r: Result<string, Error>)
      requires list.Valid()
      ensures r.Success? <==> AllChars(list.contents)
      ensures r.Success? ==> r.value == CharsOf(list.contents)
      ensures r.Failure? ==> exists j :: 0 <= j < |list.contents| && AllChars(list.contents[..j]) && !list.contents[j].CHAR?
                                         && r.error == TypeMismatch("CHAR", j, Typename(list.contents[j]))
    {
      var vec := list.AsVec();
      var text := "";
      for i := 0 to |vec|
        invariant AllChars(vec[..i]) && text == CharsOf(vec[..i])
      {
        match vec[i]
        case CHAR(c) =>
          text := text + [c];
          assert vec[..i + 1] == vec[..i] + [vec[i]];
        case _ =>
          return Failure(TypeMismatch(Typename(CHAR('\0')), i, Typename(vec[i])));
      }
      assert vec[..|vec|] == vec;
      r := Success(text);
    }

    /** `clone`: a new string over a new list holding the same characters. */
    method Clone() returns (r: String)
      requires Valid()
      ensures fresh(r) && fresh(r.list) && fresh(r.list.Repr) && fresh(r.list.refc)
      ensures r.Valid() && r.Chars() == Chars() && r.list.refc.count == 1
    {
      var vec := list.AsVec();
      r := new String();
      r.AppendAll(vec);
    }

    /** `refcopy`: a new handle over the same list, row index shared, whose count goes up by one. */
    method RefCopy() returns (r: String)
      modifies list.refc
      ensures fresh(r) && r.list == list
      ensures list.refc.count == RefCount.Incremented(old(list.refc.count))
    {
      list.IncRc();
      r := new String.Share(list);
    }

    method IncRc()
      modifies list.refc
      ensures list.refc.count == RefCount.Incremented(old(list.refc.count))
    {
      list.IncRc();
    }

    method DecRc()
      modifies list.refc
      ensures list.refc.count == RefCount.Decremented(old(list.refc.count))
    {
      list.DecRc();
    }

    function GetRc(): (c: int)
      reads list.refc
      ensures c == list.refc.count
    {
      list.GetRc()
    }

    /** `refdrop` does nothing: the count of the list is left alone. */
    method RefDrop()
      ensures list.refc.count == old(list.refc.count)
    {
    }

    /** `Drop`: `refdrop` (nothing), then the list it owns is dropped. */
    method Drop()
      requires Valid()
      modifies list.refc, list`freed
      ensures list.refc.count == RefCount.Decremented(old(list.refc.count))
      ensures list.freed <==> list.refc.count <= 0
      ensures !list.freed ==> Valid()
    {
      RefDrop();
      list.Drop();
    }
  }

  /** The key index of a map, shared by every handle on it: key to slot of the backing store. */
  class KeyIndex {
    var slots: map<string, nat>

    constructor ()
      ensures slots == map[]
    {
      slots := map[];
    }
  }

  /**
   * A string-keyed map: a key index over a backing list. A new key gets the next slot of the
   * store and its value is appended; removing a key leaves NULL in its slot and never
   * compacts the store. The index and the store are shared by every handle, but the count
   * `refc` is a plain field that each handle carries on its own.
   */
  class Map {
    const index: KeyIndex
    const store: List
    var refc: int

    /** The objects a map operation may change, this handle's count included. */
    ghost function Repr(): set<object>
      reads store
    {
      {this, index, store.refc} + store.Repr
    }

    /** Every indexed slot lies in the store, and no two keys share a slot. */
    ghost predicate Valid()
      reads index, store, store.Repr
    {
      && store.Valid()
      && index !in store.Repr
      && KeySlots.WellIndexed(index.slots, store.contents)
    }

    /** The key-value pairs the map holds: each indexed key with the value in its slot. */
    ghost function Entries(): map<string, Data>
      reads index, store, store.Repr
      requires Valid()
    {
      KeySlots.EntriesOf(index.slots, store.contents)
    }

    /** `Map::new`: an empty index, an empty store, one reference. */
    constructor ()
      ensures Valid() && fresh(index) && fresh(store) && fresh(store.Repr) && fresh(store.refc)
      ensures Entries() == map[] && store.contents == [] && refc == 1 && store.refc.count == 1
      ensures this !in store.Repr
    {
      index := new KeyIndex();
      store := new List();
      refc := 1;
    }

    /** A second handle on the same index and store, carrying the count `refc`. */
    constructor Share(index: KeyIndex, store: List, refc: int)
      ensures this.index == index && this.store == store && this.refc == refc
    {
      this.index := index;
      this.store := store;
      this.refc := refc;
    }

    /**
     * `Map::from`: each pair of `hashmap`, in whatever order its keys are visited, gets the
     * next slot of the store; so the store holds exactly one slot per key.
     */
    constructor From(hashmap: map<string, Data>)
      ensures Valid() && fresh(index) && fresh(store) && fresh(store.Repr) && fresh(store.refc)
      ensures Entries() == hashmap && |store.contents| == |hashmap| && refc == 1
    {
      index := new KeyIndex();
      store := new List();
      new;
      InsertPairs(hashmap);
      refc := 1;
    }

    /** The loop of `Map::from`: each pair of `hashmap` indexed at the next slot of an empty store. */
    method InsertPairs(hashmap: map<string, Data>)
      requires Valid() && index.slots == map[] && store.contents == []
      modifies index, store.Repr
      ensures Valid() && old(store.Repr) <= store.Repr && fresh(store.Repr - old(store.Repr))
      ensures Entries() == hashmap && |store.contents| == |hashmap|
    {
      var remaining := hashmap.Keys;
      assert |remaining| == |hashmap|;
      while remaining != {}
        invariant Valid() && old(store.Repr) <= store.Repr && fresh(store.Repr - old(store.Repr))
        invariant remaining <= hashmap.Keys
        invariant Entries() == hashmap - remaining
        invariant |store.contents| + |remaining| == |hashmap|
        decreases remaining
      {
        var key :| key in remaining;
        KeySlots.Restore(hashmap, remaining, key);
        assert key !in index.slots;
        Insert(key, hashmap[key]);
        remaining := remaining - {key};
      }
      assert hashmap - remaining == hashmap;
    }

    /**
     * `insert`: a known key has its slot overwritten, the index and the store length staying
     * as they were; a new key is indexed at the old store length and its value appended.
     */
    method Insert(key: string, value: Data)
      requires Valid()
      modifies index, store.Repr
      ensures Valid() && old(store.Repr) <= store.Repr && fresh(store.Repr - old(store.Repr))
      ensures Entries() == old(Entries())[key := value]
      ensures key in old(index.slots) ==>
                index.slots == old(index.slots) && |store.contents| == old(|store.contents|)
      ensures key !in old(index.slots) ==>
                index.slots == old(index.slots)[key := old(|store.contents|)]
                && store.contents == old(store.contents) + [value]
    {
      if key in index.slots {
        var slot := index.slots[key];
        KeySlots.Overwrite(index.slots, store.contents, key, value);
        var o := store.IndexMut(slot, value);
        assert o.Pass?;
      } else {
        KeySlots.Append(index.slots, store.contents, key, value);
        var slot := store.Len();
        index.slots := index.slots[key := slot];
        store.Append(value);
      }
    }

    /** `get`: the value held for `key`, or nothing for a key that is not indexed. */
    function Get(key: string): (r: Option<Data>)
      reads index, store, store.Repr
      requires Valid()
      ensures r.Some? <==> key in Entries()
      ensures r.Some? ==> r.value == Entries()[key]
    {
      if key in index.slots then store.Get(index.slots[key]) else None
    }

    /** `Index`: the value held for `key`, or the abort `invalid key`. */
    function Index(key: string): (r: Result<Data, Error>)
      reads index, store, store.Repr
      requires Valid()
      ensures r.Success? <==> key in Entries()
      ensures r.Success? ==> r.value == Entries()[key]
      ensures r.Failure? ==> r.error == InvalidKey(key)
    {
      match Get(key)
      case Some(d) => Success(d)
      case None => Failure(InvalidKey(key))
    }

    /**
     * `get_mut` followed by a store through the reference it returns: only a known key's
     * slot changes; the index and the store length stay as they were.
     */
    method WriteMut(key: string, value: Data) returns (found: bool)
      requires Valid()
      modifies store.Repr
      ensures Valid() && store.Repr == old(store.Repr)
      ensures found <==> key in old(Entries())
      ensures Entries() == if found then old(Entries())[key := value] else old(Entries())
      ensures |store.contents| == old(|store.contents|)
    {
      if key !in index.slots {
        return false;
      }
      var slot := index.slots[key];
      KeySlots.Overwrite(index.slots, store.contents, key, value);
      found := store.WriteMut(slot, value);
    }

    /** `IndexMut` assignment `map[key] = value`, aborting with `invalid key`. */
    method IndexMut(key: string, value: Data) returns (r: Outcome<Error>)
      requires Valid()
      modifies store.Repr
      ensures Valid() && store.Repr == old(store.Repr)
      ensures r.Pass? <==> key in old(Entries())
      ensures r.Fail? ==> r.error == InvalidKey(key)
      ensures Entries() == if r.Pass? then old(Entries())[key := value] else old(Entries())
    {
      var found := WriteMut(key, value);
      r := if found then Pass else Fail(InvalidKey(key));
    }

    /**
     * `remove`: an unknown key changes nothing. A known key leaves the index, its slot is
     * overwritten with NULL, the store keeps its length, and the value it held is returned.
     */
    method Remove(key: string) returns (r: Option<Data>)
      requires Valid()
      modifies index, store.Repr
      ensures Valid() && store.Repr == old(store.Repr)
      ensures r.Some? <==> key in old(Entries())
      ensures r.Some? ==> r.value == old(Entries())[key]
      ensures Entries() == old(Entries()) - {key}
      ensures |store.contents| == old(|store.contents|)
      ensures r.Some? ==> store.contents == old(store.contents)[old(index.slots)[key] := NULL]
      ensures r.None? ==> index.slots == old(index.slots) && store.contents == old(store.contents)
    {
      if key !in index.slots {
        return None;
      }
      var slot := index.slots[key];
      KeySlots.Tombstone(index.slots, store.contents, key, NULL);
      index.slots := index.slots - {key};
      var held := store.Get(slot).value;
      var o := store.IndexMut(slot, NULL);
      assert o.Pass?;
      r := Some(held);
    }

    /**
     * The pairs `tostr` renders, in key-visiting order: every key whose value is not NULL,
     * once, with its value; NULL values are skipped.
     */
    method ToStrEntries() returns (pairs: seq<(string, Data)>)
      requires Valid()
      ensures forall i :: 0 <= i < |pairs| ==>
                pairs[i].0 in Entries() && pairs[i].1 == Entries()[pairs[i].0] && !IsNull(pairs[i].1)
      ensures forall k :: k in Entries() && !IsNull(Entries()[k]) ==> (k, Entries()[k]) in pairs
      ensures forall i, j :: 0 <= i < j < |pairs| ==> pairs[i].0 != pairs[j].0
    {
      pairs := [];
      ghost var entries := Entries();
      var remaining := index.slots.Keys;
      while remaining != {}
        invariant Listed(entries, remaining, pairs)
        decreases remaining
      {
        var key :| key in remaining;
        var value := store.Get(index.slots[key]).value;
        assert value == entries[key];
        ListedStep(entries, remaining, pairs, key);
        if !IsNull(value) {
          pairs := pairs + [(key, value)];
        }
        remaining := remaining - {key};
      }
    }

    /**
     * `clone`: a new map with one reference; each indexed key, visited in any order, gets the
     * next slot of the new store and a clone of its value. Tombstoned slots are not copied, so
     * the new store holds exactly one slot per key.
     */
    method Clone(ghost depth: nat, ghost fp: set<object>) returns (c: Map)
      requires Valid() && index in fp && store in fp && store.Repr <= fp && depth > 0
      requires forall i :: 0 <= i < |store.contents| ==> Closed(store.contents[i], depth - 1, fp)
      ensures fresh(c) && fresh(c.index) && fresh(c.store) && fresh(c.store.Repr) && fresh(c.store.refc)
      ensures c.Valid() && c.refc == 1
      ensures c.Entries().Keys == Entries().Keys && |c.store.contents| == |index.slots|
      ensures forall k :: k in Entries() ==>
                Cloned(Entries()[k], c.Entries()[k]) && fresh(Containers(c.Entries()[k]))
      decreases depth, 1
    {
      var copies := CloneValues(depth, fp);
      KeySlots.SameKeysSameSize(copies, index.slots);
      c := new Map();
      c.InsertPairs(copies);
    }

    /** The loop of `clone`: a clone of the value of each indexed key, visited in any order. */
    method CloneValues(ghost depth: nat, ghost fp: set<object>) returns (copies: map<string, Data>)
      requires Valid() && index in fp && store in fp && store.Repr <= fp && depth > 0
      requires forall i :: 0 <= i < |store.contents| ==> Closed(store.contents[i], depth - 1, fp)
      ensures copies.Keys == Entries().Keys
      ensures forall k :: k in copies ==>
                Cloned(Entries()[k], copies[k]) && fresh(Containers(copies[k]))
      decreases depth, 0
    {
      copies := map[];
      var remaining := index.slots.Keys;
      while remaining != {}
        invariant remaining <= index.slots.Keys && copies.Keys == index.slots.Keys - remaining
        invariant forall k :: k in copies ==>
                    Cloned(store.contents[index.slots[k]], copies[k]) && fresh(Containers(copies[k]))
        decreases remaining
      {
        var key :| key in remaining;
        var value := store.Get(index.slots[key]).value;
        var copy := CloneData(value, depth - 1, fp);
        copies := copies[key := copy];
        remaining := remaining - {key};
      }
    }

    /** `refcopy`: raise this handle's count and copy that count into a new handle. */
    method RefCopy() returns (alias: Map)
      modifies this
      ensures fresh(alias) && alias.index == index && alias.store == store
      ensures refc == RefCount.Incremented(old(refc)) && alias.refc == refc
    {
      IncRc();
      alias := new Map.Share(index, store, refc);
    }

    method IncRc()
      modifies this
      ensures refc == RefCount.Incremented(old(refc))
    {
      refc := refc + 1;
    }

    method DecRc()
      modifies this
      ensures refc == RefCount.Decremented(old(refc))
    {
      refc := refc - 1;
      if refc < 0 {
        refc := 0;
      }
    }

    function GetRc(): (c: int)
      reads this
      ensures c == refc
    {
      refc
    }

    /**
     * `Drop`: lower this handle's count; once it is no longer positive the index and the
     * store are released, and dropping the store lowers the store's own count.
     */
    method Drop()
      requires Valid()
      modifies this, store.refc, store`freed
      ensures refc == RefCount.Decremented(old(refc))
      ensures refc > 0 ==> store.refc.count == old(store.refc.count) && Valid()
      ensures refc <= 0 ==> store.refc.count == RefCount.Decremented(old(store.refc.count))
      ensures store.freed <==> refc <= 0 && store.refc.count <= 0
    {
      DecRc();
      if GetRc() > 0 {
        return;
      }
      store.Drop();
    }

    /** `refdrop` consumes the handle, which runs `Drop`. */
    method RefDrop()
      requires Valid()
      modifies this, store.refc, store`freed
      ensures refc == RefCount.Decremented(old(refc))
      ensures refc > 0 ==> store.refc.count == old(store.refc.count) && Valid()
      ensures refc <= 0 ==> store.refc.count == RefCount.Decremented(old(store.refc.count))
      ensures store.freed <==> refc <= 0 && store.refc.count <= 0
    {
      Drop();
    }
  }

  /** The heap objects a container value's handle is made of; none for a primitive. */
  function Containers(d: Data): set<object>
  {
    match d
    case STRING(s) => {s, s.list}
    case LIST(l) => {l}
    case MAP(m) => {m, m.index, m.store}
    case _ => {}
  }

  /**
   * `d` is a well-formed value whose containers lie in `fp` and nest at most `depth` levels
   * deep. A list or map that contains itself is closed at no depth, so the deep clone (which
   * would not terminate on it) is never asked to copy one.
   */
  ghost predicate Closed(d: Data, depth: nat, fp: set<object>)
    reads fp
    decreases depth
  {
    match d
    case STRING(s) => s.list in fp && s.list.Repr <= fp && s.Valid()
    case LIST(l) =>
      && l in fp && l.Repr <= fp && l.Valid() && depth > 0
      && forall i :: 0 <= i < |l.contents| ==> Closed(l.contents[i], depth - 1, fp)
    case MAP(m) =>
      && m.index in fp && m.store in fp && m.store.Repr <= fp && m.Valid() && depth > 0
      && forall i :: 0 <= i < |m.store.contents| ==> Closed(m.store.contents[i], depth - 1, fp)
    case _ => true
  }

  /**
   * `Data::clone`: a primitive is copied, NULL stays NULL, and a container is deep-cloned into
   * new storage with one reference.
   */
  method CloneData(d: Data, ghost depth: nat, ghost fp: set<object>) returns (c: Data)
    requires Closed(d, depth, fp)
    ensures Cloned(d, c)
    ensures fresh(Containers(c))
    ensures d.STRING? ==> c.STRING? && c.s.Valid() && c.s.Chars() == d.s.Chars() && c.s.GetRc() == 1
    ensures d.LIST? ==>
              && c.LIST? && c.l.Valid() && c.l.GetRc() == 1 && AllCloned(d.l.contents, c.l.contents)
    ensures d.MAP? ==>
              && c.MAP? && c.m.Valid() && c.m.GetRc() == 1 && c.m.Entries().Keys == d.m.Entries().Keys
              && forall k :: k in d.m.Entries() ==> Cloned(d.m.Entries()[k], c.m.Entries()[k])
    decreases depth, 2
  {
    match d
    case STRING(s) =>
      var x := s.Clone();
      c := STRING(x);
    case LIST(l) =>
      var x := l.Clone(depth, fp);
      c := LIST(x);
    case MAP(m) =>
      var x := m.Clone(depth, fp);
      c := MAP(x);
    case _ =>
      c := d;
  }

  /**
   * The state of the `tostr` loop over `entries`: the keys visited so far are the ones not in
   * `remaining`, and `pairs` lists each visited key whose value is not NULL, once.
   */
  ghost predicate Listed(entries: map<string, Data>, remaining: set<string>, pairs: seq<(string, Data)>)
  {
    && remaining <= entries.Keys
    && (forall i :: 0 <= i < |pairs| ==>
          pairs[i].0 in entries && pairs[i].0 !in remaining
          && pairs[i].1 == entries[pairs[i].0] && !IsNull(pairs[i].1))
    && (forall k :: k in entries && k !in remaining && !IsNull(entries[k]) ==> (k, entries[k]) in pairs)
    && (forall i, j :: 0 <= i < j < |pairs| ==> pairs[i].0 != pairs[j].0)
  }

  /** Visiting one more key lists it when its value is not NULL and skips it otherwise. */
  lemma ListedStep(entries: map<string, Data>, remaining: set<string>, pairs: seq<(string, Data)>, key: string)
    requires Listed(entries, remaining, pairs) && key in remaining
    ensures Listed(entries, remaining - {key},
                   if IsNull(entries[key]) then pairs else pairs + [(key, entries[key])])
  {
    if !IsNull(entries[key]) {
      var pairs' := pairs + [(key, entries[key])];
      assert pairs'[|pairs|] == (key, entries[key]);
      forall i | 0 <= i < |pairs|
        ensures pairs'[i] == pairs[i]
      {
      }
    }
  }

  /** The loop of `List::clone`: a clone of each element, in order. */
  method CloneEach(vec: seq<Data>, ghost depth: nat, ghost fp: set<object>) returns (copies: seq<Data>)
    requires forall i :: 0 <= i < |vec| ==> Closed(vec[i], depth, fp)
    ensures AllCloned(vec, copies)
    ensures forall i :: 0 <= i < |copies| ==> fresh(Containers(copies[i]))
    decreases depth, 3
  {
    copies := [];
    for k := 0 to |vec|
      invariant AllCloned(vec[..k], copies)
      invariant forall i :: 0 <= i < |copies| ==> fresh(Containers(copies[i]))
    {
      var x := CloneData(vec[k], depth, fp);
      AllClonedSnoc(vec[..k], copies, vec[k], x);
      assert vec[..k + 1] == vec[..k] + [vec[k]];
      copies := copies + [x];
    }
    assert vec[..|vec|] == vec;
  }

  /** The counters a value's reference-count operations touch; none for a primitive. */
  function Cells(d: Data): set<object>
  {
    if d.STRING? then {d.s.list.refc}
    else if d.LIST? then {d.l.refc}
    else if d.MAP? then {d.m}
    else {}
  }

  /** `getrc`: the container's count, and 0 for every primitive variant. */
  function GetRcData(d: Data): (c: int)
    reads Cells(d)
    ensures !IsContainer(d) ==> c == 0
    ensures d.STRING? ==> c == d.s.list.refc.count
    ensures d.LIST? ==> c == d.l.refc.count
    ensures d.MAP? ==> c == d.m.refc
  {
    match d
    case STRING(s) => s.GetRc()
    case LIST(l) => l.GetRc()
    case MAP(m) => m.GetRc()
    case _ => 0
  }

  /** `incrc`: forwarded to the container; nothing happens for a primitive. */
  method IncRcData(d: Data)
    modifies Cells(d)
    ensures GetRcData(d) == if IsContainer(d) then RefCount.Incremented(old(GetRcData(d))) else 0
  {
    match d
    case STRING(s) => s.IncRc();
    case LIST(l) => l.IncRc();
    case MAP(m) => m.IncRc();
    case _ =>
  }

  /** `decrc`: forwarded to the container, where it stops at 0; nothing happens for a primitive. */
  method DecRcData(d: Data)
    modifies Cells(d)
    ensures GetRcData(d) == if IsContainer(d) then RefCount.Decremented(old(GetRcData(d))) else 0
  {
    match d
    case STRING(s) => s.DecRc();
    case LIST(l) => l.DecRc();
    case MAP(m) => m.DecRc();
    case _ =>
  }

  /**
   * `refcopy`: a container value yields the same variant over the same storage (a map a new
   * handle carrying the raised count), its count one higher; a primitive yields a copy. A list
   * or string alias shares the row index here, as intended; module `Handles` models the copy.
   */
  method RefCopyData(d: Data) returns (c: Data)
    modifies Cells(d)
    ensures SameVariant(d, c)
    ensures !IsContainer(d) ==> c == d
    ensures d.LIST? ==> c == d
    ensures d.STRING? ==> fresh(c.s) && c.s.list == d.s.list
    ensures d.MAP? ==> fresh(c.m) && c.m.index == d.m.index && c.m.store == d.m.store && c.m.refc == d.m.refc
    ensures GetRcData(d) == if IsContainer(d) then RefCount.Incremented(old(GetRcData(d))) else 0
  {
    match d
    case STRING(s) =>
      var x := s.RefCopy();
      c := STRING(x);
    case LIST(l) =>
      var x := l.RefCopy();
      c := LIST(x);
    case MAP(m) =>
      var x := m.RefCopy();
      c := MAP(x);
    case _ =>
      c := d;
  }

  /** The lists whose release dropping a value's payload records: a string's or a map's store. */
  function Lists(d: Data): set<List>
  {
    match d
    case STRING(s) => {s.list}
    case LIST(l) => {l}
    case MAP(m) => {m.store}
    case _ => {}
  }

  /** The counters dropping a value's payload may lower: its own, and for a map the store's. */
  function DropCells(d: Data): set<object>
  {
    if d.MAP? then {d.m, d.m.store.refc} else Cells(d)
  }

  /**
   * Dropping a consumed value: `Drop for Data` does nothing, then the payload's own `Drop`
   * runs. This is all that `List::refdrop` and `Map::refdrop` do, and it lowers the count once,
   * releasing the storage when no reference is left.
   */
  method DropData(d: Data)
    requires d.STRING? ==> d.s.Valid()
    requires d.LIST? ==> d.l.Valid()
    requires d.MAP? ==> d.m.Valid()
    modifies DropCells(d), Lists(d)`freed
    ensures GetRcData(d) == if IsContainer(d) then RefCount.Decremented(old(GetRcData(d))) else 0
    ensures d.STRING? ==> (d.s.list.freed <==> GetRcData(d) <= 0)
    ensures d.LIST? ==> (d.l.freed <==> GetRcData(d) <= 0)
    ensures d.MAP? && GetRcData(d) > 0 ==> d.m.store.refc.count == old(d.m.store.refc.count)
    ensures d.MAP? && GetRcData(d) <= 0 ==>
              d.m.store.refc.count == RefCount.Decremented(old(d.m.store.refc.count))
    ensures d.MAP? ==> (d.m.store.freed <==> GetRcData(d) <= 0 && d.m.store.refc.count <= 0)
  {
    match d
    case STRING(s) => s.Drop();
    case LIST(l) => l.Drop();
    case MAP(m) => m.Drop();
    case _ =>
  }

  /**
   * `refdrop` as written: it lowers the count of the payload, and then `self`, which it
   * consumed, goes out of scope on both paths, the early return included, so the payload's
   * `Drop` lowers the count a second time and releases the storage at 0.
   */
  method RefDropData(d: Data)
    requires d.STRING? ==> d.s.Valid()
    requires d.LIST? ==> d.l.Valid()
    requires d.MAP? ==> d.m.Valid()
    modifies DropCells(d), Lists(d)`freed
    ensures GetRcData(d) ==
              if IsContainer(d) then RefCount.Decremented(RefCount.Decremented(old(GetRcData(d)))) else 0
    ensures d.STRING? ==> (d.s.list.freed <==> GetRcData(d) <= 0)
    ensures d.LIST? ==> (d.l.freed <==> GetRcData(d) <= 0)
    ensures d.MAP? && GetRcData(d) > 0 ==> d.m.store.refc.count == old(d.m.store.refc.count)
    ensures d.MAP? && GetRcData(d) <= 0 ==>
              d.m.store.refc.count == RefCount.Decremented(old(d.m.store.refc.count))
    ensures d.MAP? ==> (d.m.store.freed <==> GetRcData(d) <= 0 && d.m.store.refc.count <= 0)
  {
    DecRcData(d);
    DropData(d);
  }

  /** `From<&str>`: a STRING over a new string holding `value`. */
  method FromStr(value: string) returns (d: Data)
    ensures d.STRING? && fresh(d.s) && fresh(d.s.list) && fresh(d.s.list.Repr) && fresh(d.s.list.refc)
    ensures d.s.Valid() && d.s.Chars() == value && GetRcData(d) == 1
  {
    var x := new String.From(value);
    d := STRING(x);
  }

  /** `From<Vec<Data>>`: a LIST over a new list holding the elements of `vec` in order. */
  method FromVec(vec: seq<Data>) returns (d: Data)
    ensures d.LIST? && fresh(d.l) && fresh(d.l.Repr) && fresh(d.l.refc)
    ensures d.l.Valid() && d.l.contents == vec && GetRcData(d) == 1
  {
    var x := new List.From(vec);
    d := LIST(x);
  }
}
