/**
 * The bump allocator every allocation of the current engine revision comes
 * from. Addresses are byte offsets (`nat`); the bytes themselves are not
 * modelled, only the cursor that hands them out.
 */
module Arena {

  class ArenaAllocator {
    var base: nat
    var total: nat
    var current: nat

    /** The cursor stays inside the buffer it was given. */
    ghost predicate Valid()
      reads this
    {
      base <= current <= base + total
    }

    /** `ArenaAllocator()`: the empty arena. */
    constructor Empty()
      ensures Valid()
      ensures base == 0 && total == 0 && current == 0
    {
      base, total, current := 0, 0, 0;
    }

    /** `ArenaAllocator(memory, size)`: an arena over `size` bytes at `memory`. */
    constructor (memory: nat, size: nat)
      ensures Valid()
      ensures base == memory && total == size && current == memory
    {
      base, total, current := memory, size, memory;
    }

    /** A member-wise copy, as `allocator = arenaAllocator` makes in `init`. */
    constructor Copy(other: ArenaAllocator)
      requires other.Valid()
      ensures Valid()
      ensures base == other.base && total == other.total && current == other.current
    {
      base, total, current := other.base, other.total, other.current;
    }

    /**
     * `alloc<T>(n)` with `sizeof(T) == elemSize`: returns the cursor and moves it
     * past `elemSize * n` bytes. The overflow assertion of the source (a strict
     * `<` against the end of the buffer) is the precondition.
     */
    method Alloc(elemSize: nat, n: nat) returns (ptr: nat)
      requires Valid()
      requires current + elemSize * n < base + total
      modifies this
      ensures Valid()
      ensures ptr == old(current)
      ensures current == old(current) + elemSize * n
      ensures base == old(base) && total == old(total)
    {
      var size := elemSize * n;
      ptr := current;
      current := current + size;
    }
  }

  /**
   * The addresses that successive `Alloc` calls of these byte sizes return,
   * the cursor starting at `from`: each one is the start plus the bytes of
   * the requests before it.
   */
  function Addresses(from: nat, sizes: seq<nat>): (ptrs: seq<nat>)
    ensures |ptrs| == |sizes|
    ensures forall i | 0 <= i < |sizes| :: ptrs[i] == from + Sum(sizes[..i])
    decreases |sizes|
  {
    if sizes == [] then []
    else
      assert forall i | 1 <= i <= |sizes| :: sizes[..i][1..] == sizes[1..][..i - 1];
      [from] + Addresses(from + sizes[0], sizes[1..])
  }

  /** Total number of bytes in a sequence of requests. */
  function Sum(sizes: seq<nat>): nat
  {
    if sizes == [] then 0 else sizes[0] + Sum(sizes[1..])
  }

  /** Every request of the sequence passes the overflow assertion when its turn comes. */
  predicate Fits(from: nat, limit: nat, sizes: seq<nat>)
    decreases |sizes|
  {
    sizes == [] || (from + sizes[0] < limit && Fits(from + sizes[0], limit, sizes[1..]))
  }

  /** The cursor never moves backwards: each address lies between the start and the final cursor. */
  lemma {:induction false} AddressesMonotone(from: nat, sizes: seq<nat>, i: nat)
    requires i < |sizes|
    ensures from <= Addresses(from, sizes)[i]
    ensures Addresses(from, sizes)[i] + sizes[i] <= from + Sum(sizes)
    decreases i
  {
    if i > 0 {
      AddressesMonotone(from + sizes[0], sizes[1..], i - 1);
    }
  }

  /** Successive allocations are disjoint: each region ends before the next one starts. */
  lemma {:induction false} AddressesDisjoint(from: nat, sizes: seq<nat>, i: nat, j: nat)
    requires i < j < |sizes|
    ensures Addresses(from, sizes)[i] + sizes[i] <= Addresses(from, sizes)[j]
    decreases i
  {
    if i == 0 {
      AddressesMonotone(from + sizes[0], sizes[1..], j - 1);
    } else {
      AddressesDisjoint(from + sizes[0], sizes[1..], i - 1, j - 1);
    }
  }

  /** When every request passes the assertion, every region lies strictly inside the buffer. */
  lemma {:induction false} AddressesWithin(from: nat, limit: nat, sizes: seq<nat>, i: nat)
    requires Fits(from, limit, sizes)
    requires i < |sizes|
    ensures Addresses(from, sizes)[i] + sizes[i] < limit
    decreases i
  {
    if i > 0 {
      AddressesWithin(from + sizes[0], limit, sizes[1..], i - 1);
    }
  }
}
