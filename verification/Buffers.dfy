/** src/telemetry/buffer_pool.cpp: one aligned slot per outstanding request,
    handed out from a stack of free slot numbers. */
module Buffers {
  import opened Types
  import opened Sequences
  import opened Arithmetic

  datatype PoolError =
    ZeroCapacity | CapacityTooLarge | SizeOverflow | BadAlignment | EmptyStorage | UnalignedSize

  /** Positive power of two, by halving. */
  predicate IsPowerOfTwo(n: nat) {
    n == 1 || (n > 0 && n % 2 == 0 && IsPowerOfTwo(n / 2))
  }

  /** Bitwise conjunction of two machine words. */
  function BitAnd(a: nat, b: nat): nat {
    if a == 0 || b == 0 then 0
    else (if a % 2 == 1 && b % 2 == 1 then 1 else 0) + 2 * BitAnd(a / 2, b / 2)
  }

  /** The bit trick of the source decides what its messages promise:
      `a != 0 && (a & (a - 1)) == 0` holds of the positive powers of two only. */
  lemma {:induction false} BitTrickIsPowerOfTwo(a: nat)
    requires a > 0
    ensures BitAnd(a, a - 1) == 0 <==> IsPowerOfTwo(a)
  {
    if a == 1 {
    } else if a % 2 == 0 {
      BitTrickIsPowerOfTwo(a / 2);
      assert (a - 1) / 2 == a / 2 - 1;
    } else {
      BitAndSelf(a / 2);
      assert (a - 1) / 2 == a / 2 && a / 2 > 0;
    }
  }

  lemma {:induction false} BitAndSelf(a: nat)
    ensures BitAnd(a, a) == a
  {
    if a > 0 {
      BitAndSelf(a / 2);
    }
  }

  /** CheckCapacity, TotalSize and the AlignedBuffer constructor, in the order
      in which the pool constructor reaches them. */
  function PoolSize(alignment: nat, blockSize: nat, capacity: nat): Result<nat, PoolError>
    requires capacity <= U64_MAX && blockSize <= U64_MAX && alignment <= U64_MAX
  {
    if capacity == 0 then Failure(ZeroCapacity)
    else if capacity > U32_MAX then Failure(CapacityTooLarge)
    else if blockSize != 0 && capacity > U64_MAX / blockSize then Failure(SizeOverflow)
    else if alignment == 0 || BitAnd(alignment, alignment - 1) != 0 then Failure(BadAlignment)
    else if blockSize * capacity == 0 then Failure(EmptyStorage)
    else if blockSize * capacity % alignment != 0 then Failure(UnalignedSize)
    else Success(blockSize * capacity)
  }

  /** The division-based overflow test is exact: for a block size that is a positive
      multiple of a power-of-two alignment, the pool is rejected exactly when the
      slot count is out of range or the product does not fit in 64 bits. */
  lemma PoolSizeExact(alignment: nat, blockSize: nat, capacity: nat)
    requires 0 < blockSize <= U64_MAX && 0 < alignment <= U64_MAX && capacity <= U64_MAX
    requires IsPowerOfTwo(alignment) && blockSize % alignment == 0
    ensures PoolSize(alignment, blockSize, capacity).Success?
       <==> 0 < capacity <= U32_MAX && blockSize * capacity <= U64_MAX
    ensures PoolSize(alignment, blockSize, capacity).Success?
        ==> PoolSize(alignment, blockSize, capacity).value == blockSize * capacity
    ensures 0 < capacity <= U32_MAX && blockSize * capacity > U64_MAX
        ==> PoolSize(alignment, blockSize, capacity) == Failure(SizeOverflow)
  {
    BitTrickIsPowerOfTwo(alignment);
    DivisionTest(blockSize, capacity, U64_MAX);
    if capacity > 0 {
      MultipleTimes(blockSize, capacity, alignment);
      MulMonotone(blockSize, 0, capacity);
    }
  }

  /** Every slot lies inside the allocation at an aligned address, and two slots
      that are not the same one share no byte. */
  ghost predicate SlotsLegal(base: nat, alignment: nat, blockSize: nat, capacity: nat)
    requires alignment > 0
  {
    && (forall s: nat {:trigger SlotAddress(base, blockSize, s)} :: s < capacity ==>
          && SlotAddress(base, blockSize, s) % alignment == 0
          && base <= SlotAddress(base, blockSize, s)
          && SlotAddress(base, blockSize, s) + blockSize <= base + blockSize * capacity)
    && (forall s: nat, t: nat {:trigger SlotAddress(base, blockSize, s), SlotAddress(base, blockSize, t)} ::
          s < t < capacity ==> SlotAddress(base, blockSize, s) + blockSize <= SlotAddress(base, blockSize, t))
  }

  function SlotAddress(base: nat, blockSize: nat, slot: nat): nat {
    base + slot * blockSize
  }

  lemma SlotsAreLegal(base: nat, alignment: nat, blockSize: nat, capacity: nat)
    requires alignment > 0 && blockSize % alignment == 0 && base % alignment == 0
    ensures SlotsLegal(base, alignment, blockSize, capacity)
  {
    forall s: nat {:trigger SlotAddress(base, blockSize, s)} | s < capacity
      ensures SlotAddress(base, blockSize, s) % alignment == 0
      ensures base <= SlotAddress(base, blockSize, s)
      ensures SlotAddress(base, blockSize, s) + blockSize <= base + blockSize * capacity
    {
      MultipleTimes(blockSize, s, alignment);
      SumOfMultiples(base, s * blockSize, alignment);
      MulMonotone(blockSize, s, capacity);
    }
    forall s: nat, t: nat {:trigger SlotAddress(base, blockSize, s), SlotAddress(base, blockSize, t)} | s < t < capacity
      ensures SlotAddress(base, blockSize, s) + blockSize <= SlotAddress(base, blockSize, t)
    {
      MulMonotone(blockSize, s, t);
    }
  }

  class BufferPool {
    const base: nat        // address of the aligned allocation
    const blockSize: nat
    const capacity: nat
    var freeSlots: seq<nat>
    var inUse: seq<bool>   // the debug-build record behind the double-release assert

    ghost predicate Valid()
      reads this
    {
      && 0 < capacity <= U32_MAX
      && NoDup(freeSlots)
      && |inUse| == capacity
      && (forall s :: s in freeSlots ==> s < capacity)
      && (forall s: nat :: s < capacity ==> (inUse[s] <==> s !in freeSlots))
    }

    /** `base` is what aligned_alloc returned; the fill with random bytes is not modelled. */
    constructor (base: nat, blockSize: nat, capacity: nat)
      requires 0 < capacity <= U32_MAX
      ensures Valid()
      ensures this.base == base && this.blockSize == blockSize && this.capacity == capacity
      ensures |freeSlots| == capacity && Elems(freeSlots) == Range(capacity)
      ensures Descending(capacity, freeSlots)
    {
      this.base := base;
      this.blockSize := blockSize;
      this.capacity := capacity;
      freeSlots := [];
      inUse := [];
      new;
      var i := capacity;
      while i > 0
        invariant 0 <= i <= capacity
        invariant |freeSlots| == capacity - i
        invariant forall k :: 0 <= k < |freeSlots| ==> freeSlots[k] == capacity - 1 - k
        modifies this`freeSlots
      {
        freeSlots := freeSlots + [i - 1];
        i := i - 1;
      }
      inUse := seq(capacity, _ => false);
      forall s: nat | s < capacity ensures s in freeSlots {
        assert freeSlots[capacity - 1 - s] == s;
      }
    }

    method Acquire() returns (slot: nat)
      requires Valid() && freeSlots != []
      modifies this
      ensures Valid()
      ensures old(freeSlots) == freeSlots + [slot]
      ensures slot < capacity && slot !in freeSlots
    {
      slot := freeSlots[|freeSlots| - 1];
      assert freeSlots == freeSlots[..|freeSlots| - 1] + [slot];
      ghost var before := freeSlots;
      freeSlots := freeSlots[..|freeSlots| - 1];
      assert forall s :: s in before <==> s in freeSlots || s == slot;
      assert slot in before;
      inUse := inUse[slot := true];
    }

    /** An out-of-range slot is ignored; releasing a slot that is free is the
        double release the source asserts against. */
    method Release(slot: nat)
      requires Valid()
      requires slot < capacity ==> slot !in freeSlots
      modifies this
      ensures Valid()
      ensures freeSlots == if slot < capacity then old(freeSlots) + [slot] else old(freeSlots)
    {
      if slot >= capacity {
        return;
      }
      inUse := inUse[slot := false];
      freeSlots := freeSlots + [slot];
    }

    function Data(slot: nat): (p: Option<nat>)
    {
      if slot >= capacity then None else Some(SlotAddress(base, blockSize, slot))
    }
  }
}
