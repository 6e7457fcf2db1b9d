/**
 * Value-level meaning of the list's shifting operations, and of inserting several elements
 * one after another at a single index.
 */
module Sequences {

  /** `s` with `x` placed at index `i` and everything from `i` on moved one place right. */
  function Inserted<T>(s: seq<T>, i: nat, x: T): (r: seq<T>)
    requires i <= |s|
    ensures |r| == |s| + 1
    ensures r[i] == x
    ensures forall j :: 0 <= j < i ==> r[j] == s[j]
    ensures forall j :: i < j < |r| ==> r[j] == s[j - 1]
  {
    s[..i] + [x] + s[i..]
  }

  /** `s` without its element at index `i`, everything after it moved one place left. */
  function Removed<T>(s: seq<T>, i: nat): (r: seq<T>)
    requires i < |s|
    ensures |r| == |s| - 1
    ensures forall j :: 0 <= j < i ==> r[j] == s[j]
    ensures forall j :: i <= j < |r| ==> r[j] == s[j + 1]
  {
    s[..i] + s[i + 1..]
  }

  /** Removing at `i` right after inserting at `i` gives back the original sequence. */
  lemma RemoveUndoesInsert<T>(s: seq<T>, i: nat, x: T)
    requires i <= |s|
    ensures Inserted(s, i, x)[i] == x
    ensures Removed(Inserted(s, i, x), i) == s
  {
    var r := Removed(Inserted(s, i, x), i);
    assert forall j :: 0 <= j < |s| ==> r[j] == s[j];
  }

  /** Inserting the removed element back at its index restores the sequence. */
  lemma InsertUndoesRemove<T>(s: seq<T>, i: nat)
    requires i < |s|
    ensures Inserted(Removed(s, i), i, s[i]) == s
  {
    var r := Inserted(Removed(s, i), i, s[i]);
    assert forall j :: 0 <= j < |s| ==> r[j] == s[j];
  }

  function Reversed<T>(s: seq<T>): (r: seq<T>)
    ensures |r| == |s|
    ensures forall j :: 0 <= j < |s| ==> r[j] == s[|s| - 1 - j]
  {
    if s == [] then [] else Reversed(s[1..]) + [s[0]]
  }

  /** Insert every element of `xs`, first to last, each at the same index `i`. */
  function InsertEach<T>(s: seq<T>, i: nat, xs: seq<T>): (r: seq<T>)
    requires i <= |s|
    ensures |r| == |s| + |xs|
    decreases xs
  {
    if xs == [] then s else InsertEach(Inserted(s, i, xs[0]), i, xs[1..])
  }

  /**
   * Inserting one element after another at a fixed index lays them down back to front: the
   * last one inserted ends up first.
   */
  lemma {:induction false} InsertEachReverses<T>(s: seq<T>, i: nat, xs: seq<T>)
    requires i <= |s|
    ensures InsertEach(s, i, xs) == s[..i] + Reversed(xs) + s[i..]
    decreases xs
  {
    if xs != [] {
      var s' := Inserted(s, i, xs[0]);
      InsertEachReverses(s', i, xs[1..]);
      assert s'[..i] == s[..i];
      assert s'[i..] == [xs[0]] + s[i..];
      assert Reversed(xs) == Reversed(xs[1..]) + [xs[0]];
    }
  }

  /** Insert every element of `xs`, the k-th one at index `i + k`, so they keep their order. */
  function InsertInOrder<T>(s: seq<T>, i: nat, xs: seq<T>): (r: seq<T>)
    requires i <= |s|
    ensures |r| == |s| + |xs|
    decreases xs
  {
    if xs == [] then s else InsertInOrder(Inserted(s, i, xs[0]), i + 1, xs[1..])
  }

  /** Advancing the index after each insertion splices `xs` in unchanged. */
  lemma {:induction false} InsertInOrderSplices<T>(s: seq<T>, i: nat, xs: seq<T>)
    requires i <= |s|
    ensures InsertInOrder(s, i, xs) == s[..i] + xs + s[i..]
    decreases xs
  {
    if xs != [] {
      var s' := Inserted(s, i, xs[0]);
      InsertInOrderSplices(s', i + 1, xs[1..]);
      assert s'[..i + 1] == s[..i] + [xs[0]];
      assert s'[i + 1..] == s[i..];
      assert xs == [xs[0]] + xs[1..];
    }
  }

  /** One more element inserted at the same index goes in front of the ones inserted before it. */
  lemma {:induction false} InsertEachSnoc<T>(s: seq<T>, i: nat, xs: seq<T>, x: T)
    requires i <= |s|
    ensures InsertEach(s, i, xs + [x]) == Inserted(InsertEach(s, i, xs), i, x)
    decreases xs
  {
    if xs == [] {
      assert [x][1..] == [];
    } else {
      assert (xs + [x])[1..] == xs[1..] + [x];
      InsertEachSnoc(Inserted(s, i, xs[0]), i, xs[1..], x);
    }
  }

  /** One more element inserted in order goes right after the ones inserted before it. */
  lemma {:induction false} InsertInOrderSnoc<T>(s: seq<T>, i: nat, xs: seq<T>, x: T)
    requires i <= |s|
    ensures InsertInOrder(s, i, xs + [x]) == Inserted(InsertInOrder(s, i, xs), i + |xs|, x)
    decreases xs
  {
    if xs == [] {
      assert [x][1..] == [];
    } else {
      assert (xs + [x])[1..] == xs[1..] + [x];
      InsertInOrderSnoc(Inserted(s, i, xs[0]), i + 1, xs[1..], x);
    }
  }

  /** The first `k + 1` elements inserted at one index: the (k+1)-th goes in front of the rest. */
  lemma InsertEachPrefix<T>(s: seq<T>, i: nat, xs: seq<T>, k: nat)
    requires i <= |s| && k < |xs|
    ensures InsertEach(s, i, xs[..k + 1]) == Inserted(InsertEach(s, i, xs[..k]), i, xs[k])
  {
    assert xs[..k + 1] == xs[..k] + [xs[k]];
    InsertEachSnoc(s, i, xs[..k], xs[k]);
  }

  /** The first `k + 1` elements inserted in order: the (k+1)-th goes to index `i + k`. */
  lemma InsertInOrderPrefix<T>(s: seq<T>, i: nat, xs: seq<T>, k: nat)
    requires i <= |s| && k < |xs|
    ensures InsertInOrder(s, i, xs[..k + 1]) == Inserted(InsertInOrder(s, i, xs[..k]), i + k, xs[k])
  {
    assert xs[..k + 1] == xs[..k] + [xs[k]];
    InsertInOrderSnoc(s, i, xs[..k], xs[k]);
  }
}
