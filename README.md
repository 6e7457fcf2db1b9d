# shsc storage core in Dafny

This project models the storage and reference-count core of the Rust crate `shsc`. It covers four source files:

- **`List`** (`src/list.rs`). A paged sequence of tagged values. Storage is a row index pointing to rows of 32 slots. A new row is added whenever the length reaches `rows * 32`. Element `i` lives at row `i / 32`, column `i % 32`. The crate exposes `append`, `get`/`get_mut`, `take`, `len`, `as_vec`, `insert` and `remove`, which shift elements across rows, plus indexing. A list also has a deep `clone` and a reference count shared by every alias.
- **`String`** (`src/string.rs`). A `List` holding only `CHAR` values. Text is built with `append`, `insert` and `concat`. `tostr` reads it back and panics on a value that is not a `CHAR`.
- **`Map`** (`src/map.rs`). A key index from text keys to slots of a backing `List`. Slots are only ever appended. `remove` writes `NULL` into a slot and never reclaims it. The index and the store are shared by aliases. The count is kept in each handle.
- **`Data`** (`src/data.rs`). The tagged value: fifteen variants with their type names. `clone` copies deeply. `incrc`/`decrc`/`getrc`/`refcopy`/`refdrop` act on the container inside the value and do nothing for primitives.

Modules:

- `Paging`: slot arithmetic and the growth rule.
- `RefCount`: the clamped counter shared by list aliases.
- `Sequences`: the functions that specify insert, remove and repeated insertion.
- `KeySlots`: how a key index and its store determine the map's entries.
- `Shsc`: the four types as classes and a datatype.
- `Handles`: the list handle as the source lays it out, with its own row-index pointer and the allocator's choice to grow the row index in place or move it.
- `Scenarios`: small client programs for the documented examples and the aliasing rules.

Each list holds its storage as a sequence of row arrays. The contents seen by the user are a ghost sequence that `Valid()` ties to the slots. A panic in the source becomes an error result in the model:

- `Failure(IndexOutOfBounds(i))` for `insert`/`remove`;
- `UndefinedData(i)` for list indexing;
- `InvalidKey(k)` for map indexing;
- `TypeMismatch("CHAR", j, found)` for `String::tostr`.

Facts about the code that the model follows, where a reader might expect otherwise:

- **Releasing storage.** The `RefCopy` trait's doc comment says `refdrop` "drops the data structure when the reference count reaches zero" (src/traits/memory.rs:17-21).
  - `List::refdrop` and `Map::refdrop` do this by consuming the handle, so its `Drop` runs.
  - `String::refdrop` is a no-op: its call is commented out (src/string.rs:278-280). The string's list is released only by the drop glue of `String`, which is `String.Drop` here.
  - `Data::refdrop` lowers the count and then, on every path, drops the value it consumed, which lowers the count a second time (see Findings).
- **Map order.** `Map::tostr` and `Map::clone` iterate the key `HashMap`, whose order is unspecified. The model therefore promises no order.
- **Map counts.** A `Map` keeps its count in a plain field of each handle (src/map.rs:7, 251-258). The alias starts from the raised value, and later changes through one handle are not seen by the other. The index and the store are behind pointers that every handle shares.
- **List aliases.** A `List` handle keeps its length, row count and count behind shared pointers, but its row-index pointer is a plain field (src/list.rs:7-13). `refcopy` copies that field, and an `append` or `insert` that adds a row stores the pointer `realloc` returns into the caller's field only (src/list.rs:73, 266). The alias then holds a freed pointer whenever `realloc` moves the block, and always when the alias is taken while the list has no row yet, so its row index is still the null pointer of `List::new` (src/list.rs:26); when `realloc` grows the block in place, the alias still reaches the new row. The model's `List` shares the row index, as the layout evidently intends. Module `Handles` models the layout as written (see Findings).

## Model

| member | source | states |
|---|---|---|
| Paging.RowInRange | src/list.rs:106-116 | a slot index below the capacity always falls in an allocated row |
| Paging.SlotInjective | src/list.rs:81-85 | two different indices never share a (row, column) slot, so writes to one slot leave all others alone |
| Paging.GrowthStep | src/list.rs:68-89 | the capacity always covers the length, and one more element adds a row exactly when the length equals the capacity |
| RefCount.Incremented | src/list.rs:488-490 | raising a count gives a larger count |
| RefCount.Decremented | src/list.rs:494-501 | lowering a count subtracts one from a positive count and clamps at zero, never going negative |
| RefCount.DecrementUndoesIncrement | src/list.rs:488-501 | on a non-negative count, `decrc` after `incrc` restores it |
| RefCount.Counter.constructor | src/list.rs:30 | a new counter holds its initial value |
| RefCount.Counter.Inc | src/list.rs:488-490 | the shared count is raised |
| RefCount.Counter.Dec | src/list.rs:494-501 | the shared count is lowered with the clamp at zero |
| Sequences.Inserted | src/list.rs:258-291 | insertion at `i` puts `x` at `i`, keeps everything before and moves everything from `i` one place right |
| Sequences.Removed | src/list.rs:306-328 | removal at `i` keeps everything before and moves everything after one place left |
| Sequences.RemoveUndoesInsert | src/list.rs:258-328 | removing at the index just inserted at gives back the inserted value and the original list |
| Sequences.InsertUndoesRemove | src/list.rs:258-328 | re-inserting a removed value at its index restores the list |
| Sequences.Reversed | src/string.rs:211-215 | element `j` of the result is element `n-1-j` of the input |
| Sequences.InsertEach | src/string.rs:211-215 | inserting each element at one fixed index, first to last, adds exactly one element per inserted one |
| Sequences.InsertEachReverses | src/string.rs:211-215 | inserting the characters one after another at one index splices them in reversed |
| Sequences.InsertInOrder | src/string.rs:205-208 | inserting the k-th element at the index plus k adds exactly one element per inserted one |
| Sequences.InsertInOrderSplices | src/string.rs:205-208 | inserting each character at the index advanced by the number already inserted splices the text in order |
| Sequences.InsertEachSnoc | src/string.rs:211-215 | one more character inserted at the same index lands in front of those already inserted |
| Sequences.InsertInOrderSnoc | src/string.rs:205-208 | one more character inserted in order lands after those already inserted |
| KeySlots.EntriesOf | src/map.rs:4-8 | the entries of a map have exactly the keys of its key index |
| KeySlots.Overwrite | src/map.rs:66-68 | writing a known key's slot keeps the index well formed and updates exactly that key's entry |
| KeySlots.Append | src/map.rs:69-73 | a new key mapped to the store's length, with the value appended, keeps slots distinct and adds exactly that entry |
| KeySlots.Tombstone | src/map.rs:140-151 | dropping the key and writing `NULL` into its slot keeps the index well formed and removes exactly that entry |
| KeySlots.Restore | src/map.rs:45-49 | proof step for the loop invariant of `Map::from` (a map identity, not itself map behaviour): adding one pending key back to the entries already inserted grows them by exactly that key |
| KeySlots.SameKeysSameSize | src/map.rs:295-305 | proof step for the length claim of `Map::clone` (a map identity, not itself map behaviour): a copy with the same keys has the same number of entries |
| Shsc.Null | src/data.rs:68-72 | `Data::null()` is a null value |
| Shsc.Typename | src/data.rs:38-56 | each of the fifteen variants maps to its fixed name, one of the fifteen type names, and the name is `"CHAR"` exactly for a character, which is what `tostr` tests |
| Shsc.IsNull | src/data.rs:85-90 | true exactly for `NULL`, the value whose type name is `"NULL"` |
| Shsc.TypenameIdentifiesVariant | src/data.rs:38-56 | two values have the same type name exactly when they are the same variant |
| Shsc.NullIsTheNullVariant | src/data.rs:85-90 | `is_null` holds exactly for `NULL`, exactly when the type name is `"NULL"`, and holds for `NULL` and `null()` |
| Shsc.List.constructor | src/list.rs:24-33 | a new list is empty, has no rows and a fresh count of 1 |
| Shsc.List.From | src/list.rs:49-55 | the list holds `vec` in order, has a count of 1, and has exactly the rows its length needs |
| Shsc.List.Grow | src/list.rs:70-79 | one row is added, and the slots already allocated and the contents are unchanged |
| Shsc.List.Append | src/list.rs:68-89 | contents gain `data` at the end, and a row is added exactly when the list was full |
| Shsc.List.Get | src/list.rs:106-116 | a value comes back exactly when the index is below the length, and it is the element there |
| Shsc.List.Index | src/list.rs:350-353 | as `get`, with `UndefinedData(index)` for an index past the end |
| Shsc.List.WriteMut | src/list.rs:133-143 | writing through `get_mut` succeeds exactly below the length and replaces only that element |
| Shsc.List.IndexMut | src/list.rs:373-378 | as `get_mut` writing, with `UndefinedData(index)` past the end and the list unchanged |
| Shsc.List.Take | src/list.rs:160-173 | below the length it returns the element and leaves `NULL` in its place; otherwise nothing changes |
| Shsc.List.Len | src/list.rs:188-190 | the length is the number of elements |
| Shsc.List.AsVec | src/list.rs:205-216 | the vector is the contents in order |
| Shsc.List.ShiftRight | src/list.rs:273-282 | each slot in `(lo, hi]` takes its left neighbour's old value, and every other slot is unchanged |
| Shsc.List.ShiftLeft | src/list.rs:313-323 | each slot in `[lo, hi)` takes its right neighbour's old value, and every other slot is unchanged |
| Shsc.List.Place | src/list.rs:273-290 | shifting then writing at `index` in a list with room gives `Inserted(contents, index, data)` |
| Shsc.List.Insert | src/list.rs:258-291 | succeeds exactly when `index <= len`; on success contents are `Inserted(old, index, data)` and a row is added exactly when the list was full; otherwise `IndexOutOfBounds` and nothing changes |
| Shsc.List.Remove | src/list.rs:306-328 | succeeds exactly when `index < len`, returning the old element and leaving `Removed(old, index)`; otherwise `IndexOutOfBounds` and nothing changes |
| Shsc.List.Clone | src/list.rs:476-482 | a fresh list with its own fresh count of 1, element by element a clone of the original, with fresh containers |
| Shsc.List.RefCopy | src/list.rs:426-435 | the intended alias: the same storage, row index included, with the shared count raised; as written the row index is copied (see Findings) |
| Shsc.List.IncRc | src/list.rs:488-490 | the shared count is raised |
| Shsc.List.DecRc | src/list.rs:494-501 | the shared count is lowered, clamped at zero |
| Shsc.List.GetRc | src/list.rs:505-507 | the value is the shared count |
| Shsc.List.Drop | src/list.rs:522-542 | the count is lowered, and the storage is released exactly when it is no longer positive |
| Shsc.List.RefDrop | src/list.rs:455-457 | consuming the handle runs `Drop` |
| Shsc.CharData | src/string.rs:30-36 | each character becomes a `CHAR` value, in order |
| Shsc.CharsOf | src/string.rs:231-246 | reading `CHAR` values back gives their characters, in order |
| Shsc.CharsRoundTrip | src/string.rs:30-36 | the text stored by `from` reads back unchanged |
| Shsc.CharsOfSplice | src/string.rs:191-215 | splicing characters into a string's values splices the text they read back as |
| Shsc.CharsOfConcat | src/string.rs:89-94 | the text of two joined value sequences is the joined text |
| Shsc.AllCharsInserted | src/string.rs:173-175 | inserting a `CHAR` keeps a string's values all characters |
| Shsc.String.constructor | src/string.rs:14-18 | a new string is empty with a fresh count of 1 |
| Shsc.String.From | src/string.rs:30-36 | the string holds exactly the given text, with a count of 1 |
| Shsc.String.Share | src/string.rs:261-265 | the new handle wraps the given list |
| Shsc.String.Len | src/string.rs:47-49 | the length is the number of characters |
| Shsc.String.Concat | src/string.rs:89-94 | a fresh string holding this text followed by the other's |
| Shsc.String.AppendChar | src/string.rs:113-115 | the text gains the character at the end |
| Shsc.String.AppendStr | src/string.rs:149-153 | the text gains the given text at the end |
| Shsc.String.AppendString | src/string.rs:130-135 | the text gains the other string's old text at the end |
| Shsc.String.InsertAll | src/string.rs:211-215 | inserting values one by one at one index fails only for non-empty input past the end, and otherwise gives `InsertEach` |
| Shsc.String.InsertAllInOrder | src/string.rs:205-208 | the in-order variant gives `InsertInOrder` |
| Shsc.String.InsertChar | src/string.rs:173-175 | succeeds exactly when `index <= len`, and then the text is the old text with `c` inserted at `index` |
| Shsc.String.InsertStr | src/string.rs:211-215 | the code as written: on success the inserted text appears reversed at `index`; it fails only for non-empty text past the end |
| Shsc.String.InsertStrInOrder | src/string.rs:205-208 | corrected: on success the text is spliced in at `index` in order |
| Shsc.String.InsertString | src/string.rs:191-196 | the code as written, with the other string separate: its text appears reversed, and the other string is unchanged |
| Shsc.String.InsertStringInOrder | src/string.rs:184-188 | corrected: the other string's old text is spliced in at `index` in order, also when it is this string |
| Shsc.String.ToStr | src/string.rs:231-246 | succeeds exactly when every value is a `CHAR` and gives their text; otherwise the error names the first non-`CHAR` index |
| Shsc.String.Clone | src/string.rs:295-299 | a fresh string over a fresh list with the same text and a count of 1 |
| Shsc.String.RefCopy | src/string.rs:261-265 | a new handle over the same list, row index shared as intended, and the list's shared count is raised |
| Shsc.String.IncRc | src/string.rs:305-307 | the list's count is raised |
| Shsc.String.DecRc | src/string.rs:311-313 | the list's count is lowered, clamped at zero |
| Shsc.String.GetRc | src/string.rs:317-319 | the value is the list's count |
| Shsc.String.RefDrop | src/string.rs:278-280 | the count is left unchanged |
| Shsc.String.Drop | src/string.rs:330-332 | the owned list is dropped: its count is lowered, and it is released exactly when the count is no longer positive |
| Shsc.KeyIndex.constructor | src/map.rs:19 | the new key index is empty |
| Shsc.Map.constructor | src/map.rs:17-28 | a new map has no entries, an empty store and a count of 1 |
| Shsc.Map.Share | src/map.rs:253-257 | the handle wraps the given index, store and count |
| Shsc.Map.From | src/map.rs:42-52 | the entries are exactly the given mapping, one store slot per key, with a count of 1 |
| Shsc.Map.InsertPairs | src/map.rs:45-49 | filling an empty map with each pair gives exactly those entries and one slot per key |
| Shsc.Map.Insert | src/map.rs:64-75 | entries become `old[key := value]`; a known key reuses its slot, and a new key gets the next slot at the end of the store |
| Shsc.Map.Get | src/map.rs:89-100 | a value comes back exactly for a present key, and it is that key's entry |
| Shsc.Map.Index | src/map.rs:169-172 | as `get`, with `InvalidKey(key)` for an absent key |
| Shsc.Map.WriteMut | src/map.rs:115-126 | writing through `get_mut` succeeds exactly for a present key and updates only that entry |
| Shsc.Map.IndexMut | src/map.rs:188-191 | as `get_mut` writing, with `InvalidKey(key)` and no change for an absent key |
| Shsc.Map.Remove | src/map.rs:140-151 | returns the entry exactly for a present key and removes that key; its slot holds `NULL` and the store keeps its length |
| Shsc.Map.ToStrEntries | src/map.rs:210-236 | the rendered pairs are exactly the non-`NULL` entries, each key once |
| Shsc.Map.Clone | src/map.rs:288-308 | a fresh map with the same keys, one slot per key and a count of 1, each value a clone with fresh containers |
| Shsc.Map.CloneValues | src/map.rs:295-305 | for every key, a clone of its value with fresh containers |
| Shsc.Map.RefCopy | src/map.rs:251-258 | this handle's count is raised, and the new handle shares the index and store and starts from the raised count |
| Shsc.Map.IncRc | src/map.rs:312-314 | this handle's count is raised |
| Shsc.Map.DecRc | src/map.rs:316-321 | this handle's count is lowered, clamped at zero |
| Shsc.Map.GetRc | src/map.rs:323-325 | the value is this handle's count |
| Shsc.Map.Drop | src/map.rs:336-345 | the handle's count is lowered; once it is no longer positive, the store is dropped, lowering the store's count and releasing it when that count is gone |
| Shsc.Map.RefDrop | src/map.rs:273 | consuming the handle runs `Drop` |
| Shsc.ListedStep | src/map.rs:222-233 | visiting one more key keeps the rendered pairs exactly the non-`NULL` entries of the keys visited, each once |
| Shsc.AllClonedSnoc | src/list.rs:478-480 | cloning one more element extends an element-wise clone |
| Shsc.CloneData | src/data.rs:221-241 | primitives are copied, and a container becomes a fresh container with a count of 1 and the same text, elements or keys, each cloned |
| Shsc.CloneEach | src/list.rs:478-480 | the vector of clones is element by element a clone of the input, with fresh containers |
| Shsc.GetRcData | src/data.rs:284-291 | 0 for a primitive; the container's count otherwise |
| Shsc.IncRcData | src/data.rs:266-273 | the container's count is raised, and a primitive stays at 0 |
| Shsc.DecRcData | src/data.rs:275-282 | the container's count is lowered with the clamp, and a primitive stays at 0 |
| Shsc.RefCopyData | src/data.rs:295-302 | same variant; a primitive is copied; a container handle shares the storage (a list's row index as intended) and the count is raised |
| Shsc.DropData | src/data.rs:312-315 | dropping a consumed value runs the payload's `Drop`: the count is lowered once, and the storage is released exactly when it is no longer positive |
| Shsc.RefDropData | src/data.rs:304-309 | as written: the count is lowered twice, once explicitly and once by dropping the consumed value, and the storage is released exactly when the result is no longer positive |
| Shsc.FromStr | src/data.rs:181-187 | a `STRING` value over a fresh string holding the text, with a count of 1 |
| Shsc.FromVec | src/data.rs:197-203 | a `LIST` value over a fresh list holding the vector, with a count of 1 |
| Scenarios.RowsForThirtyThree | src/list.rs:68-89 | 33 elements need exactly 2 rows |
| Scenarios.AppendThenGet | src/list.rs:68-116 | an appended value is read back at the old length, and earlier elements stay put |
| Scenarios.InsertThenRemove | src/list.rs:258-328 | `remove(i)` after `insert(i, v)` returns `v` and restores the list, or both report `IndexOutOfBounds` |
| Scenarios.AliasSeesAppend | src/list.rs:426-435 | with the row index shared as intended, a `refcopy` alias sees a later append, even one that adds a row, and shares the raised count |
| Scenarios.CloneIsIndependent | src/list.rs:476-482 | a clone of a list of primitives is equal to it, has a count of 1, and does not see a later append |
| Scenarios.MapOverwriteThenRemove | src/map.rs:64-151 | an overwrite keeps one slot, and after `remove` the key is gone |
| Scenarios.MapHandlesShareEntriesNotCounts | src/map.rs:251-258 | map aliases share entries but not counts |
| Scenarios.StringRoundTrip | src/string.rs:231-246 | `from` then `tostr` gives the text back |
| Scenarios.ConcatExample | src/string.rs:89-94 | `"hi"` concatenated with `"!"` is `"hi!"`, and `"hi"` is unchanged |
| Scenarios.InsertExample | src/string.rs:211-215 | as written, inserting `" world"` at 5 into `"hello"` gives `"hellodlrow "` |
| Scenarios.InsertExampleInOrder | src/string.rs:205-208 | corrected, it gives `"hello world"` |
| Scenarios.DataRefCopyThenDrop | src/data.rs:295-309 | as written, `refcopy` of a `LIST` raises its count to 2, and `refdrop` of the copy brings it to 0 and releases the list the original still holds |
| Scenarios.DataRefCopyThenDropOnce | src/traits/memory.rs:17-29 | dropping the copy once brings the count back to 1 and keeps the list valid |
| Scenarios.IncThenDecRestoresCount | src/list.rs:488-501 | `incrc` then `decrc` leaves a non-negative count unchanged |
| Scenarios.RemoveThenInsert | src/list.rs:258-328 | inserting the value `remove(i)` returned back at `i` restores the list |
| Handles.Handle.constructor | src/list.rs:24-33 | a new handle has a null row-index pointer and new shared cells with length 0, no rows and count 1 |
| Handles.Handle.Copy | src/list.rs:428-434 | the handle `refcopy` builds copies the row-index pointer and shares the cells |
| Handles.Handle.Get | src/list.rs:106-116 | nothing exactly past the shared length; through a live row index that reaches every row, every index below the length is found; through a freed row index, nothing below the length is |
| Handles.Handle.RefCopy | src/list.rs:426-435 | the shared count goes up, and the new handle has this handle's row index and the same cells |
| Handles.Handle.Append | src/list.rs:68-89 | the length goes up, a row is added exactly when full, the row-index pointer changes exactly when the block is moved (a full list whose pointer is null or that the allocator cannot grow in place), the moved-from block is freed, and the appended value is found at the old length |
| Handles.AppendLeavesAliasBehind | src/list.rs:68-89 | when the owner's append moves the row index, every read through the alias below the shared length is invalid, including the new element, and the alias's row index no longer reaches the rows |
| Handles.AppendReachesAlias | src/list.rs:68-89 | when the owner's append keeps the row index in place (no row added, or `realloc` grows the block in place), the alias sees the new element and still reaches every row |
| Handles.StaleAliasOfEmptyList | src/list.rs:426-435 | `refcopy` of a new list, then `append` on the original: whatever the allocator does, the original reads the value and the alias reads through a null row index |

## Left out

- **Element counts during moves.**
  - The source changes element counts when it moves values. It calls `refcopy` on each shifted value in `insert` and `remove`, and `refdrop`s the overwritten one in `remove` and `take`.
  - The model moves values and does not model these count changes. Counts of contained containers are outside the model.
  - The source's stale copy in the slot past the new end after `remove` is not modelled.
- **Overwrite drops.** Rust drops the old value when a slot is overwritten by assignment (`IndexMut`, `Map::insert` on a known key, the shifts). That drop is not modelled, because element counts are outside the model.
- Releasing storage is recorded as a ghost `freed` flag. The deallocation calls in `src/util/alloc.rs` are not part of this model.
- Shsc.List.Drop: the model releases the list but does not recursively drop the released elements, because element counts are outside the model.
- In `Shsc.List` the row index is a sequence of row arrays. In the source it is a raw pointer array that `realloc` may move; `Handles` models that move, with the allocator's choice as a parameter.
- Shsc.List.RefCopy: the alias is the same object, so it shares the row index. In the source the alias copies the row-index pointer, which is left freed (or null, when the alias was taken while the list had no row yet) when a later row-adding append by the original moves the block. That as-written behaviour is modelled only in `Handles`, for `new`, `refcopy`, `append` and `get`.
- Shsc.String.RefCopy: the new handle wraps the same list object, so it shares the row index. In the source it holds a `List` handle made by `List::refcopy`, with the same copied row-index pointer.
- RefCopyData: for LIST and STRING values the alias shares the row index, as intended. In the source the new handle's row-index pointer is left freed or null when the original's row-adding append moves the block (src/data.rs:297-298); see `Handles` and Findings.
- `insert`'s effect on aliases (src/list.rs:266) is not modelled in `Handles`. It reallocates the caller's row index in the same way as `append`.
- Handles.AppendLeavesAliasBehind: what the allocator decides is not modelled; whether `realloc` grows a non-null block in place or moves it is a parameter, and the member covers only the moving case (the in-place case is `Handles.AppendReachesAlias`).
- `usize` lengths and indices are unbounded `nat`. Overflow of a length or of an `i64` count is not modelled.
- `FLOAT64` is an opaque bit pattern, because floating point is outside the model.
- The textual form of values is left out: `Data::tostr`, `List::tostr` and the separators of `Map::tostr`. It depends on Rust's number formatting.
- Shsc.Map.ToStrEntries: states which key/value pairs are rendered, not the text or the order. The source follows `HashMap` iteration order, which is unspecified.
- Shsc.Map.Clone: states the keys and the cloned values, not which slot each key gets, because `HashMap` iteration order decides that.
- Shsc.Map.From: likewise states the entries, not which slot each key gets.
- Shsc.Map.Clone, Shsc.List.Clone and Shsc.CloneData:
  - a deep clone is stated one level at a time: each copied value is a clone of its source;
  - the model requires the value graph to be acyclic, expressed as a ghost depth bound, because on a cycle the source recursion does not terminate.
- Shsc.String.InsertString: the as-written member requires the inserted string not to share this string's list. A string can share its own list through a `refcopy` alias. `as_vec` returns references into the slots that each `insert` shifts, so the aliased case reads values as they are moved, and it is not modelled. For example, "ab" inserted into an alias of itself at 0 gives "aaab".
- `get_mut`, `index_mut` and `IndexMut` return mutable references. These are modelled as writing a given value through them: WriteMut and IndexMut.
- Panics are modelled as error results. The panic message text is not modelled beyond the error's fields.
- The crate's trait declarations (`src/traits/`), the `todata!` macro, `lib.rs` and the primitive `From` conversions are not part of this model. The primitive conversions are the datatype constructors themselves.
- Concurrency is not modelled. The crate is single-threaded.

## Findings

| source | as written | input that shows it | evidently intended | confidence | as-written member | corrected member |
|---|---|---|---|---|---|---|
| src/string.rs:211-215 | each character of the `&str` is inserted at the same `index`, so the text comes out reversed | `String::from("hello").insert(5, " world")` gives `"hellodlrow "` | `"hello world"`: the text spliced in at `index` in order | not executed | Scenarios.InsertExample | Shsc.String.InsertStrInOrder |
| src/string.rs:191-196 | each character of the other `String` is inserted at the same `index`, so its text comes out reversed | `s.insert(5, &String::from(" world"))` with `s = "hello"` gives `"hellodlrow "` | the other string's text spliced in at `index` in order | not executed | Shsc.String.InsertString | Shsc.String.InsertStringInOrder |
| src/list.rs:426-435 | `refcopy` copies the row-index pointer into the new handle, and `append`/`insert` store the pointer `realloc` returns only into the caller's field when they add a row (src/list.rs:73, 266), so the alias is left with a freed pointer whenever the block moves, and always with the null pointer of `List::new` (src/list.rs:26) when the alias is taken while the list has no row yet | `let mut l = List::new(); let mut a = l.refcopy(); l.append(d); a.get(0)` reads through the null row index of `List::new` while the shared length is 1 | every handle reaches the same row index, as it shares the length and row count | not executed | Handles.StaleAliasOfEmptyList | Scenarios.AliasSeesAppend |
| src/data.rs:304-309 | `refdrop` lowers the count and then drops the consumed value, whose payload `Drop` lowers it again and frees the storage at 0 | `let mut a = Data::from(List::from(v)); let b = a.refcopy(); b.refdrop();` leaves the count at 0 and the list freed while `a` holds it | one reference fewer, as `List::refdrop` and `Map::refdrop` give by dropping the handle | not executed | Scenarios.DataRefCopyThenDrop | Shsc.DropData |
