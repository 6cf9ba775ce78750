/**
 * `RaspiStillBufferT<bufferSizeT>`: a fixed-capacity, append-only byte buffer
 * whose storage is one allocation from a `BlockAllocator`.
 */
module Capture {
  import opened CTypes
  import A = Arena
  import ArenaProps
  import opened BaseAlloc

  /** The default template argument `bufferSizeT`, the capacity of `RaspiStillBuffer`. */
  const DEFAULT_BUFFER_SIZE: nat := 5242880

  /** The template argument `blockSizeT` of the allocator in `main`. */
  const MAIN_BLOCK_SIZE: nat := 102400

  /** In `main`, the first buffer does not fit in the empty arena, which grows by one
      block of 52 times the block size, placed wherever the system puts it: the buffer
      gets the block's start, with 81920 bytes to spare. */
  lemma DefaultBufferGrowth(base: nat)
    requires 0 < base
    ensures A.GrowthCapacity(MAIN_BLOCK_SIZE, DEFAULT_BUFFER_SIZE) == Some(52 * MAIN_BLOCK_SIZE)
    ensures var t := A.Allocate(A.Init(MAIN_BLOCK_SIZE), DEFAULT_BUFFER_SIZE, Some(base));
      t.result == Some(base) && |t.state.blocks| == A.INITIAL_BLOCK_MEMORY + 1 &&
      t.state.blocks[A.INITIAL_BLOCK_MEMORY] == A.Raw(base, 52 * MAIN_BLOCK_SIZE) &&
      t.state.free == 81920
  {
    A.DivModUnique(DEFAULT_BUFFER_SIZE, MAIN_BLOCK_SIZE, 51, 20480);
  }

  /** The concatenation of the appended chunks, in order. */
  function Flatten(chunks: seq<seq<Byte>>): (bytes: seq<Byte>) {
    if chunks == [] then [] else chunks[0] + Flatten(chunks[1..])
  }

  lemma {:induction false} FlattenAppend(chunks: seq<seq<Byte>>, c: seq<Byte>)
    ensures Flatten(chunks + [c]) == Flatten(chunks) + c
  {
    if chunks == [] {
      assert chunks + [c] == [c];
      assert Flatten([c]) == c + Flatten([]);
    } else {
      assert (chunks + [c])[1..] == chunks[1..] + [c];
      FlattenAppend(chunks[1..], c);
    }
  }

  class StillBuffer {
    /** `m_alloc`. */
    const alloc: BlockAllocator
    /** `bufferSizeT`. */
    const capacity: nat
    /** `m_buffer` as the address the allocator returned; null once moved from. */
    var addr: nat
    /** The bytes stored at `m_buffer`; null exactly when `addr` is. */
    var data: array?<Byte>
    /** `m_current - m_buffer`. */
    var used: nat
    /** The byte chunks appended so far. */
    ghost var chunks: seq<seq<Byte>>

    /** The bytes before the write cursor are the appended chunks, in order, and the
        cursor never passes the capacity. */
    ghost predicate Valid()
      reads this, data
    {
      0 < capacity <= UINT32_MAX && used <= capacity &&
      (addr == NULL <==> data == null) &&
      (data == null ==> used == 0 && chunks == []) &&
      (data != null ==> data.Length == capacity && data[..used] == Flatten(chunks))
    }

    ghost function Contents(): (bytes: seq<Byte>)
      reads this, data
      requires Valid()
    {
      Flatten(chunks)
    }

    /** The buffer over `capacity` bytes the allocator returned at `addr`, empty. */
    constructor Own(alloc: BlockAllocator, capacity: nat, addr: nat)
      requires 0 < capacity <= UINT32_MAX && addr != NULL
      ensures Valid() && this.alloc == alloc && this.capacity == capacity && this.addr == addr
      ensures used == 0 && Contents() == [] && data != null && fresh(data)
    {
      this.alloc := alloc;
      this.capacity := capacity;
      this.addr := addr;
      data := new Byte[capacity];
      used := 0;
      chunks := [];
    }

    /**
     * The constructor `RaspiStillBufferT(BaseAllocator&)`: exactly `capacity` bytes
     * from `alloc`, write cursor at the start. When the allocator throws, so does
     * the constructor: None.
     */
    static method Create(alloc: BlockAllocator, capacity: nat, sys: Option<nat>)
      returns (b: Option<StillBuffer>)
      requires alloc.Valid() && 0 < capacity <= UINT32_MAX
      requires A.SystemFresh(alloc.State(), capacity, sys)
      modifies alloc
      ensures alloc.Valid()
      ensures alloc.State() == A.Allocate(old(alloc.State()), capacity, sys).state
      ensures b.Some? <==> A.Allocate(old(alloc.State()), capacity, sys).result.Some?
      ensures b.Some? ==>
        fresh(b.value) && b.value.Valid() && b.value.alloc == alloc &&
        b.value.capacity == capacity && b.value.used == 0 && b.value.Contents() == [] &&
        b.value.addr == A.Allocate(old(alloc.State()), capacity, sys).result.value &&
        b.value.data != null && fresh(b.value.data)
    {
      ArenaProps.AllocateReturnsFreshRegion(alloc.State(), capacity, sys);
      var p := alloc.Allocate(capacity, sys);
      if p.None? {
        return None;
      }
      var buffer := new StillBuffer.Own(alloc, capacity, p.value);
      b := Some(buffer);
    }

    /** The copy constructor: a fresh, empty buffer of the same capacity from the same
        allocator. No byte of `other` is copied. */
    static method CopyOf(other: StillBuffer, sys: Option<nat>) returns (b: Option<StillBuffer>)
      requires other.Valid() && other.alloc.Valid()
      requires A.SystemFresh(other.alloc.State(), other.capacity, sys)
      modifies other.alloc
      ensures other.alloc.Valid()
      ensures other.alloc.State() == A.Allocate(old(other.alloc.State()), other.capacity, sys).state
      ensures b.Some? <==> A.Allocate(old(other.alloc.State()), other.capacity, sys).result.Some?
      ensures b.Some? ==>
        fresh(b.value) && b.value.Valid() && b.value.alloc == other.alloc &&
        b.value.capacity == other.capacity && b.value.used == 0 && b.value.Contents() == [] &&
        b.value.addr == A.Allocate(old(other.alloc.State()), other.capacity, sys).result.value &&
        b.value.data != null && fresh(b.value.data)
    {
      b := Create(other.alloc, other.capacity, sys);
    }

    /** The move constructor: takes over storage and cursor; `other` is left without
        storage, so its destructor releases nothing. */
    constructor Move(other: StillBuffer)
      requires other.Valid()
      modifies other
      ensures Valid() && alloc == other.alloc && capacity == other.capacity
      ensures addr == old(other.addr) && data == old(other.data) && used == old(other.used)
      ensures Contents() == old(other.Contents())
      ensures other.Valid() && other.addr == NULL && other.data == null && other.used == 0
    {
      alloc := other.alloc;
      capacity := other.capacity;
      addr := other.addr;
      data := other.data;
      used := other.used;
      chunks := other.chunks;
      new;
      other.addr := NULL;
      other.data := null;
      other.used := 0;
      other.chunks := [];
    }

    /** The destructor: gives the storage back to the allocator if this buffer still
        owns it. */
    method Destroy()
      requires Valid() && alloc.Valid()
      requires addr != NULL ==> A.CanDeallocate(alloc.State(), addr)
      modifies alloc
      ensures alloc.Valid()
      ensures alloc.State() == if addr != NULL then A.Deallocate(old(alloc.State()), addr) else old(alloc.State())
    {
      if addr != NULL {
        alloc.Deallocate(addr);
      }
    }

    /**
     * `append(buffer, length)` with `src` the `length` bytes at `buffer`: throws
     * `bad_alloc` (false) when they would run past the capacity, otherwise copies
     * them at the write cursor and advances it. A buffer without storage cannot
     * take a copy: only a chunk too long to fit may be offered to it.
     */
    method Append(src: seq<Byte>) returns (ok: bool)
      requires Valid() && |src| <= UINT32_MAX
      requires data != null || used + |src| > capacity
      modifies this`used, this`chunks, data
      ensures Valid() && data == old(data) && addr == old(addr)
      ensures ok <==> old(used) + |src| <= capacity
      ensures ok ==>
        used == old(used) + |src| && chunks == old(chunks) + [src] &&
        data[..old(used)] == old(data[..used]) && data[old(used)..used] == src &&
        (forall k :: used <= k < capacity ==> data[k] == old(data[k]))
      ensures !ok ==> used == old(used) && chunks == old(chunks) && (data != null ==> data[..] == old(data[..]))
      ensures Contents() == if ok then old(Contents()) + src else old(Contents())
    {
      if used + |src| > capacity {
        return false;
      }
      var buf, at := data, used;
      var i := 0;
      while i < |src|
        invariant 0 <= i <= |src| && buf == data && at == used && chunks == old(chunks)
        invariant forall k :: 0 <= k < at ==> buf[k] == old(buf[k])
        invariant forall k :: 0 <= k < i ==> buf[at + k] == src[k]
        invariant forall k :: at + i <= k < buf.Length ==> buf[k] == old(buf[k])
      {
        buf[at + i] := src[i];
        i := i + 1;
      }
      assert buf[..at] == old(buf[..at]);
      assert buf[at..at + |src|] == src;
      assert buf[..at + |src|] == buf[..at] + buf[at..at + |src|];
      FlattenAppend(chunks, src);
      chunks := chunks + [src];
      used := used + |src|;
      ok := true;
    }

    /** `operator<<`: the bytes written to the stream, exactly `used` of them from the
        start of the buffer, which are the appended chunks in order. */
    method Write() returns (out: seq<Byte>)
      requires Valid()
      ensures |out| == used && out == Contents()
      ensures data != null ==> out == data[..used]
    {
      if data == null {
        out := [];
      } else {
        out := data[..used];
      }
    }
  }
}
