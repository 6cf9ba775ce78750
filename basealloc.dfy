/**
 * `BlockAllocator<blockSizeT>`, the typed adapter `StlAllocator<T>` and the
 * allocating `operator new`. Each allocator method is proved to move the
 * object's fields exactly as the state machine of module Arena does.
 */
module BaseAlloc {
  import opened CTypes
  import A = Arena
  import ArenaProps

  /** The bump-pointer arena. `blockSize` is the template argument `blockSizeT`. */
  class BlockAllocator {
    const blockSize: nat
    var blocks: seq<A.Block>
    var currentBlockFree: nat
    var currentPtr: nat
    var lastAllocated: Option<nat>
    /** The regions handed out before the most recent allocation and still live. */
    ghost var older: seq<A.Region>

    ghost function State(): (s: A.State)
      reads this
    {
      A.State(blockSize, blocks, currentBlockFree, currentPtr, lastAllocated, older)
    }

    ghost predicate Valid()
      reads this
    {
      A.Valid(State())
    }

    /** The block list starts with `initialBlockMemory` null entries; `m_lastAllocated`
        is left uninitialised. */
    constructor (B: nat)
      requires 0 < B <= SIZE_MAX
      ensures Valid() && State() == A.Init(B)
    {
      blockSize := B;
      blocks := seq(A.INITIAL_BLOCK_MEMORY, _ => A.Null);
      currentBlockFree := 0;
      currentPtr := NULL;
      lastAllocated := None;
      older := [];
    }

    /**
     * `allocate(size)`: bump the cursor when the request fits, otherwise append a
     * block from the system. `sys` is what `::operator new` returns; None is
     * `bad_alloc`, as is a block size that does not fit in a size_t.
     */
    method Allocate(size: SizeT, sys: Option<nat>) returns (p: Option<nat>)
      requires Valid() && 0 < size && A.SystemFresh(State(), size, sys)
      modifies this
      ensures Valid()
      ensures State() == A.Allocate(old(State()), size, sys).state
      ensures p == A.Allocate(old(State()), size, sys).result
    {
      ArenaProps.AllocateKeepsValid(State(), size, sys);
      if currentBlockFree >= size {
        older := A.Live(State());
        lastAllocated := Some(currentPtr);
        currentPtr := currentPtr + size;
        currentBlockFree := currentBlockFree - size;
        p := lastAllocated;
      } else {
        var capacity := A.GrowthCapacity(blockSize, size);
        if capacity.None? || sys.None? {
          return None;
        }
        older := A.Live(State());
        blocks := blocks + [A.Raw(sys.value, capacity.value)];
        currentBlockFree := capacity.value - size;
        currentPtr := blocks[|blocks| - 1].base + size;
        lastAllocated := Some(blocks[|blocks| - 1].base);
        p := lastAllocated;
      }
    }

    /** `deallocate(ptr)`: roll the cursor back when `ptr` is the last pointer returned. */
    method Deallocate(ptr: nat)
      requires Valid() && A.CanDeallocate(State(), ptr)
      modifies this
      ensures Valid() && State() == A.Deallocate(old(State()), ptr)
    {
      ArenaProps.DeallocateKeepsValid(State(), ptr);
      if ptr == lastAllocated.value {
        currentBlockFree := currentBlockFree + (currentPtr - lastAllocated.value);
        currentPtr := lastAllocated.value;
      }
    }

    /** `deallocateAll()`. `released` lists the pointers given to `::operator delete`. */
    method DeallocateAll() returns (released: seq<nat>)
      requires Valid()
      modifies this
      ensures Valid() && State() == A.DeallocateAll(old(State()))
      ensures released == A.Released(old(blocks))
    {
      released := DeleteBlocks();
    }

    /** The destructor: releases the blocks as `deallocateAll` does. */
    method Destroy() returns (released: seq<nat>)
      requires Valid()
      modifies this
      ensures Valid() && State() == A.DeallocateAll(old(State()))
      ensures released == A.Released(old(blocks))
    {
      released := DeleteBlocks();
    }

    /** `deleteBlocks()`: free every entry of the block list in order, then clear it and
        reset the cursor. The marker is not touched. */
    method DeleteBlocks() returns (released: seq<nat>)
      requires Valid()
      modifies this
      ensures Valid() && State() == A.DeallocateAll(old(State()))
      ensures released == A.Released(old(blocks))
    {
      released := [];
      var i := 0;
      while i < |blocks|
        invariant 0 <= i <= |blocks|
        invariant released == A.Released(blocks[..i])
      {
        assert blocks[..i + 1] == blocks[..i] + [blocks[i]];
        released := released + [A.BaseOf(blocks[i])];
        i := i + 1;
      }
      assert blocks[..i] == blocks;
      blocks := [];
      currentBlockFree := 0;
      currentPtr := NULL;
      older := [];
    }
  }

  /** `sizeof(T)`: at least one byte. */
  type ElemSize = n: nat | 0 < n <= SIZE_MAX witness 1

  /** The byte count `cnt * sizeof(T)` that the adapter requests, in size_t arithmetic. */
  function RequestBytes(cnt: SizeT, elemSize: ElemSize): (r: SizeT)
    ensures r == cnt * elemSize <==> cnt * elemSize <= SIZE_MAX
  {
    if cnt * elemSize <= SIZE_MAX then
      A.DivModUnique(cnt * elemSize, SIZE_RANGE, 0, cnt * elemSize);
      (cnt * elemSize) % SIZE_RANGE
    else
      (cnt * elemSize) % SIZE_RANGE
  }

  /** Up to `max_size()` elements the byte count an adapter requests does not wrap around. */
  lemma RequestBytesExact(a: StlAllocator, cnt: SizeT)
    requires cnt <= a.MaxSize()
    ensures RequestBytes(cnt, a.elemSize) == cnt * a.elemSize
  {
    A.MulMono(cnt, a.MaxSize(), a.elemSize);
    A.DivModUnique(cnt * a.elemSize, SIZE_RANGE, 0, cnt * a.elemSize);
  }

  /**
   * `StlAllocator<T>`: a non-owning reference to an allocator (possibly null) and
   * the element size `sizeof(T)`. Rebinding to another element type gives another
   * adapter over the same allocator.
   */
  class StlAllocator {
    const base: BlockAllocator?
    const elemSize: ElemSize

    /** `StlAllocator(BaseAllocator* = nullptr)`. */
    constructor FromPointer(p: BlockAllocator?, elemSize: ElemSize)
      ensures base == p && this.elemSize == elemSize
    {
      base := p;
      this.elemSize := elemSize;
    }

    /** `StlAllocator(BaseAllocator&)`: always bound. */
    constructor FromReference(a: BlockAllocator, elemSize: ElemSize)
      ensures base == a && this.elemSize == elemSize
    {
      base := a;
      this.elemSize := elemSize;
    }

    /** The copy constructor: goes through `baseAllocator()`, so the source must be bound. */
    constructor Copy(other: StlAllocator)
      requires other.base != null
      ensures base == other.base && elemSize == other.elemSize && Equals(other)
    {
      base := other.BaseAllocator();
      elemSize := other.elemSize;
    }

    /** The rebinding constructor from an adapter for another element type. */
    constructor Rebind(other: StlAllocator, elemSize: ElemSize)
      requires other.base != null
      ensures base == other.base && this.elemSize == elemSize && Equals(other)
    {
      base := other.BaseAllocator();
      this.elemSize := elemSize;
    }

    /** `baseAllocator()`: asserts the reference is bound. */
    function BaseAllocator(): (a: BlockAllocator)
      requires base != null
      ensures a == base
    {
      base
    }

    /** `allocate(cnt)`: forwards `cnt * sizeof(T)` bytes to the bound allocator. */
    method Allocate(cnt: SizeT, sys: Option<nat>) returns (p: Option<nat>)
      requires base != null && base.Valid()
      requires 0 < RequestBytes(cnt, elemSize)
      requires A.SystemFresh(base.State(), RequestBytes(cnt, elemSize), sys)
      modifies base
      ensures base.Valid()
      ensures base.State() == A.Allocate(old(base.State()), RequestBytes(cnt, elemSize), sys).state
      ensures p == A.Allocate(old(base.State()), RequestBytes(cnt, elemSize), sys).result
    {
      p := base.Allocate(RequestBytes(cnt, elemSize), sys);
    }

    /** `deallocate(p, n)`: forwards a non-null `p`; the count is ignored. */
    method Deallocate(p: nat, n: SizeT)
      requires base != null && base.Valid()
      requires p != NULL ==> A.CanDeallocate(base.State(), p)
      modifies base
      ensures base.Valid()
      ensures base.State() == if p == NULL then old(base.State()) else A.Deallocate(old(base.State()), p)
    {
      if p != NULL {
        base.Deallocate(p);
      }
    }

    /** `max_size()`: the largest element count whose byte size fits in a size_t. */
    function MaxSize(): (r: SizeT)
      ensures r * elemSize <= SIZE_MAX < (r + 1) * elemSize
    {
      var r := SIZE_MAX / elemSize;
      assert SIZE_MAX == r * elemSize + SIZE_MAX % elemSize;
      assert (r + 1) * elemSize == r * elemSize + elemSize;
      r
    }

    /** `operator==`: the same allocator object, by identity, so storage from one can be
        given back through the other. */
    predicate Equals(other: StlAllocator)
      ensures Equals(other) && base != null ==> other.base != null && other.BaseAllocator() == BaseAllocator()
    {
      base == other.base
    }

    /** `operator!=`. */
    predicate NotEquals(other: StlAllocator)
      ensures NotEquals(other) <==> !other.Equals(this)
    {
      !Equals(other)
    }
  }

  /** Adapter equality is an equivalence, `!=` is its negation, and it holds exactly
      when both adapters refer to the same allocator object. */
  lemma AdapterEquality(a: StlAllocator, b: StlAllocator, c: StlAllocator)
    ensures a.Equals(a)
    ensures a.Equals(b) ==> b.Equals(a)
    ensures a.Equals(b) && b.Equals(c) ==> a.Equals(c)
    ensures a.NotEquals(b) <==> !a.Equals(b)
    ensures a.Equals(b) <==> a.base == b.base
  {
  }

  /** `operator new(size, BaseAllocator&)`: storage from the given allocator. */
  method AllocatorNew(size: SizeT, alloc: BlockAllocator, sys: Option<nat>) returns (p: Option<nat>)
    requires alloc.Valid() && 0 < size && A.SystemFresh(alloc.State(), size, sys)
    modifies alloc
    ensures alloc.Valid()
    ensures alloc.State() == A.Allocate(old(alloc.State()), size, sys).state
    ensures p == A.Allocate(old(alloc.State()), size, sys).result
  {
    p := alloc.Allocate(size, sys);
  }
}
