/**
 * The reference-count protocol shared by every heap container: a signed 64-bit counter that
 * `incrc` raises by one and `decrc` lowers by one without going below zero.
 */
module RefCount {

  function Incremented(count: int): (r: int)
    ensures r > count
  {
    count + 1
  }

  /** `decrc`: subtract one, then clamp a negative result to zero. */
  function Decremented(count: int): (r: int)
    ensures r >= 0
    ensures count > 0 ==> r == count - 1
    ensures count <= 0 ==> r == 0
  {
    var lowered := count - 1;
    if lowered < 0 then 0 else lowered
  }

  /** A decrement undoes an increment on any count the protocol can reach. */
  lemma DecrementUndoesIncrement(count: int)
    requires count >= 0
    ensures Decremented(Incremented(count)) == count
  {
  }

  /**
   * The heap cell holding a container's count. Every alias of a list points to the same cell,
   * so an update through one alias is seen by all.
   */
  class Counter {
    var count: int

    constructor (initial: int)
      ensures count == initial
    {
      count := initial;
    }

    method Inc()
      modifies this
      ensures count == Incremented(old(count))
    {
      count := count + 1;
    }

    method Dec()
      modifies this
      ensures count == Decremented(old(count))
    {
      count := count - 1;
      if count < 0 {
        count := 0;
      }
    }
  }
}
