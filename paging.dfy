/**
 * Index arithmetic of the paged sequence: a logical index `i` lives in row `i / COLS`,
 * column `i % COLS`; a list with `rows` rows has room for `rows * COLS` elements.
 */
module Paging {

  /** The fixed row width every list is created with (DEFAULT_COLS). */
  const COLS: nat := 32

  function Row(i: nat): nat
  {
    i / COLS
  }

  function Col(i: nat): (c: nat)
    ensures c < COLS
  {
    i % COLS
  }

  /** Number of element slots held by `rows` rows. */
  function Capacity(rows: nat): nat
  {
    rows * COLS
  }

  /** Every index below the capacity falls into an allocated row. */
  lemma RowInRange(i: nat, rows: nat)
    requires i < Capacity(rows)
    ensures Row(i) < rows
  {
  }

  /** Row and column together determine the index: distinct indices never share a slot. */
  lemma SlotInjective(i: nat, j: nat)
    requires i != j
    ensures Row(i) != Row(j) || Col(i) != Col(j)
  {
    assert i == Row(i) * COLS + Col(i);
    assert j == Row(j) * COLS + Col(j);
  }

  /** Rows allocated after `n` appends to an empty list: one row per started block of COLS. */
  function RowsNeeded(n: nat): nat
  {
    (n + COLS - 1) / COLS
  }

  /**
   * The growth rule of append/insert — add a row exactly when the list is full — keeps the
   * row count at RowsNeeded(len) for a list that has only grown.
   */
  lemma GrowthStep(n: nat)
    ensures n <= Capacity(RowsNeeded(n))
    ensures RowsNeeded(n + 1) == if n == Capacity(RowsNeeded(n)) then RowsNeeded(n) + 1 else RowsNeeded(n)
  {
  }
}
