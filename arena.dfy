/**
 * The bump-pointer arena behind `BlockAllocator<blockSizeT>`, as a state
 * machine over values. A pointer is a natural number (0 is null); a block is
 * the address and size of one region obtained from `::operator new`.
 *
 * Besides the allocator's own fields, the state carries `older`: the regions
 * handed out before the most recent allocation and not released since. The
 * region of the most recent allocation is always `[last, cursor)` in the newest
 * block (allocation sets the cursor to its end, rollback sets it to its start),
 * so `Live` below is every region a caller may still use.
 */
module Arena {
  import opened CTypes

  /** `initialBlockMemory`: the constructor resizes the block list to this many null entries. */
  const INITIAL_BLOCK_MEMORY: nat := 10

  /** One entry of `m_blocks`: a null pointer, or a block of `capacity` bytes at `base`. */
  datatype Block = Null | Raw(base: nat, capacity: nat)

  /** `len` bytes from `start`, inside the block with index `block` of the block list. */
  datatype Region = Region(block: nat, start: nat, len: nat)

  /**
   * The allocator's fields: the template argument `blockSizeT`, `m_blocks`,
   * `m_currentBlockFree`, `m_currentPtr` and `m_lastAllocated` (None while it is
   * uninitialised), plus the regions handed out before the last allocation.
   */
  datatype State = State(
    blockSize: nat,
    blocks: seq<Block>,
    free: nat,
    cursor: nat,
    last: Option<nat>,
    older: seq<Region>)

  /** The result of `allocate`: the new state, and the pointer returned (None when it threw). */
  datatype Step = Step(state: State, result: Option<nat>)

  function End(b: Block): (e: nat)
    requires b.Raw?
  {
    b.base + b.capacity
  }

  function RegionEnd(r: Region): (e: nat) {
    r.start + r.len
  }

  /** Two blocks share no byte. */
  predicate BlocksApart(a: Block, b: Block)
    requires a.Raw? && b.Raw?
  {
    End(a) <= b.base || End(b) <= a.base
  }

  /** Two regions share no byte. */
  predicate Apart(r1: Region, r2: Region) {
    RegionEnd(r1) <= r2.start || RegionEnd(r2) <= r1.start
  }

  /** The newest entry of the block list is a real block: the cursor points into it. */
  predicate HasCurrent(s: State) {
    |s.blocks| > 0 && s.blocks[|s.blocks| - 1].Raw?
  }

  function Newest(s: State): (b: Block)
    requires HasCurrent(s)
  {
    s.blocks[|s.blocks| - 1]
  }

  // ---------------------------------------------------------------------------
  // The invariant
  // ---------------------------------------------------------------------------

  /** Every real block is non-null, a positive multiple of the block size that fits
      in a size_t, and no two real blocks overlap. */
  ghost predicate BlocksOk(blockSize: nat, blocks: seq<Block>)
    requires blockSize > 0
  {
    (forall i :: 0 <= i < |blocks| && blocks[i].Raw? ==>
       0 < blocks[i].base && blockSize <= blocks[i].capacity <= SIZE_MAX &&
       blocks[i].capacity % blockSize == 0) &&
    (forall i, j :: 0 <= i < j < |blocks| && blocks[i].Raw? && blocks[j].Raw? ==>
       BlocksApart(blocks[i], blocks[j]))
  }

  /** Once a real block exists, cursor plus free space is the end of the newest block
      and the marker lies between its start and the cursor; before that (and after a
      bulk release) cursor and free space are zero and nothing is handed out. */
  ghost predicate CursorOk(s: State) {
    if HasCurrent(s) then
      s.last.Some? && Newest(s).base <= s.last.value <= s.cursor &&
      s.cursor + s.free == End(Newest(s))
    else
      s.cursor == NULL && s.free == 0 && s.older == []
  }

  /** A non-empty region inside the real block it names. */
  ghost predicate Inside(blocks: seq<Block>, r: Region) {
    r.block < |blocks| && blocks[r.block].Raw? &&
    blocks[r.block].base <= r.start && RegionEnd(r) <= End(blocks[r.block]) && 0 < r.len
  }

  /** The earlier live regions lie in real blocks, end before the marker when they are
      in the newest block, and do not overlap one another. */
  ghost predicate OlderOk(s: State) {
    (forall k :: 0 <= k < |s.older| ==> Inside(s.blocks, s.older[k])) &&
    (forall k :: 0 <= k < |s.older| && s.older[k].block == |s.blocks| - 1 ==>
       s.last.Some? && RegionEnd(s.older[k]) <= s.last.value) &&
    (forall i, j :: 0 <= i < j < |s.older| ==> Apart(s.older[i], s.older[j]))
  }

  ghost predicate Valid(s: State) {
    0 < s.blockSize <= SIZE_MAX && BlocksOk(s.blockSize, s.blocks) && CursorOk(s) && OlderOk(s)
  }

  // ---------------------------------------------------------------------------
  // Live regions
  // ---------------------------------------------------------------------------

  /** The region of the most recent allocation, when it is still live and non-empty. */
  function MarkerRegion(s: State): (m: seq<Region>) {
    if HasCurrent(s) && s.last.Some? && s.last.value < s.cursor then
      [Region(|s.blocks| - 1, s.last.value, s.cursor - s.last.value)]
    else
      []
  }

  /** Every region returned by `allocate` and neither rolled back nor bulk-released. */
  function Live(s: State): (live: seq<Region>) {
    s.older + MarkerRegion(s)
  }

  // ---------------------------------------------------------------------------
  // Block growth
  // ---------------------------------------------------------------------------

  /** `(1 + size / B) * B` is the least multiple of B strictly above `size`. */
  lemma RoundUp(B: nat, size: nat)
    requires B > 0
    ensures var r := (1 + size / B) * B; r % B == 0 && size < r <= size + B
  {
    var q, m := size / B, size % B;
    assert size == q * B + m;
    assert (1 + q) * B == q * B + B;
    DivModUnique((1 + q) * B, B, 1 + q, 0);
  }

  /** Euclidean division is determined by quotient and remainder. */
  lemma DivModUnique(x: int, B: int, q: int, r: int)
    requires B > 0 && 0 <= r < B && x == q * B + r
    ensures x / B == q && x % B == r
  {
    var q', r' := x / B, x % B;
    assert x == q' * B + r';
    if q' > q {
      MulMono(q + 1, q', B);
      assert false;
    } else if q' < q {
      MulMono(q' + 1, q, B);
      assert false;
    }
  }

  lemma MulMono(a: int, b: int, B: int)
    requires a <= b && B > 0
    ensures a * B <= b * B
  {
    assert b * B - a * B == (b - a) * B;
  }

  /**
   * Capacity of the block that `allocate(size)` appends, `max(B, (1 + size / B) * B)`
   * with the size_t product wrapping around, exactly as written.
   */
  function GrowthCapacityAsWritten(B: nat, size: SizeT): (c: SizeT)
    requires 0 < B <= SIZE_MAX
    ensures B <= c
    ensures (1 + size / B) * B <= SIZE_MAX ==> c % B == 0 && size < c <= size + B
  {
    RoundUp(B, size);
    var rounded := ((1 + size / B) * B) % SIZE_RANGE;
    assert (1 + size / B) * B <= SIZE_MAX ==> rounded == (1 + size / B) * B by {
      if (1 + size / B) * B <= SIZE_MAX {
        DivModUnique((1 + size / B) * B, SIZE_RANGE, 0, (1 + size / B) * B);
      }
    }
    if B >= rounded then B else rounded
  }

  /**
   * Capacity of the block that `allocate(size)` appends, with the wrap-around
   * treated as an allocation failure (None). The `max` with B is kept, though
   * the rounded value is never below B.
   */
  function GrowthCapacity(B: nat, size: SizeT): (c: Option<SizeT>)
    requires 0 < B <= SIZE_MAX
    ensures c.Some? ==> c.value % B == 0 && size < c.value <= size + B
    ensures c.None? ==> size > SIZE_MAX - B
  {
    RoundUp(B, size);
    var rounded := (1 + size / B) * B;
    if rounded > SIZE_MAX then None
    else if B >= rounded then Some(B)
    else Some(rounded)
  }

  // ---------------------------------------------------------------------------
  // Operations
  // ---------------------------------------------------------------------------

  /** The state right after the constructor: ten null entries, no cursor, no marker. */
  function Init(B: nat): (s: State)
    requires 0 < B <= SIZE_MAX
    ensures Valid(s) && !HasCurrent(s) && Live(s) == []
    ensures |s.blocks| == INITIAL_BLOCK_MEMORY && forall i :: 0 <= i < |s.blocks| ==> s.blocks[i].Null?
  {
    State(B, seq(INITIAL_BLOCK_MEMORY, _ => Null), 0, NULL, None, [])
  }

  /** `b` is a non-null block sharing no byte with any real block of `blocks`. */
  ghost predicate FreshBlock(blocks: seq<Block>, b: Block)
    requires b.Raw?
  {
    0 < b.base && forall i :: 0 <= i < |blocks| && blocks[i].Raw? ==> BlocksApart(blocks[i], b)
  }

  /**
   * What `::operator new` guarantees: when `allocate(size)` takes the growth
   * branch and the system returns `sys`, that block is fresh.
   */
  ghost predicate SystemFresh(s: State, size: SizeT, sys: Option<nat>)
    requires 0 < s.blockSize <= SIZE_MAX
  {
    sys.Some? && s.free < size && GrowthCapacity(s.blockSize, size).Some? ==>
      FreshBlock(s.blocks, Raw(sys.value, GrowthCapacity(s.blockSize, size).value))
  }

  /**
   * `allocate(size)`. `sys` is what `::operator new` returns when the growth
   * branch calls it: None when it throws `bad_alloc`, which leaves everything
   * as it was.
   */
  function Allocate(s: State, size: SizeT, sys: Option<nat>): (t: Step)
    requires Valid(s) && 0 < size
    ensures t.result.Some? <==> s.free >= size || (GrowthCapacity(s.blockSize, size).Some? && sys.Some?)
    ensures t.result.None? ==> t.state == s
    ensures t.result.Some? ==>
      t.state.last == t.result && t.state.cursor == t.result.value + size &&
      t.state.older == Live(s) && t.state.blockSize == s.blockSize
  {
    if s.free >= size then
      Step(s.(free := s.free - size, cursor := s.cursor + size, last := Some(s.cursor), older := Live(s)),
           Some(s.cursor))
    else
      match GrowthCapacity(s.blockSize, size)
      case None => Step(s, None)
      case Some(capacity) =>
        match sys
        case None => Step(s, None)
        case Some(base) =>
          Step(s.(blocks := s.blocks + [Raw(base, capacity)], free := capacity - size,
                  cursor := base + size, last := Some(base), older := Live(s)),
               Some(base))
  }

  /** What `deallocate(ptr)` needs to be defined: the marker was set, and when it is
      `ptr`, it still points into a block the allocator owns. */
  predicate CanDeallocate(s: State, ptr: nat) {
    s.last.Some? && (ptr == s.last.value ==> HasCurrent(s))
  }

  /** `deallocate(ptr)`: rolls the cursor back to the marker when `ptr` is the marker. */
  function Deallocate(s: State, ptr: nat): (t: State)
    requires Valid(s) && CanDeallocate(s, ptr)
    ensures t.blockSize == s.blockSize && t.blocks == s.blocks && t.last == s.last && t.older == s.older
    ensures t.cursor + t.free == s.cursor + s.free && t.cursor <= s.cursor
    ensures ptr != s.last.value ==> t == s
  {
    if ptr == s.last.value then
      s.(free := s.free + (s.cursor - s.last.value), cursor := s.last.value)
    else
      s
  }

  /** `deleteBlocks()`, behind `deallocateAll()` and the destructor: the marker is kept. */
  function DeallocateAll(s: State): (t: State)
    ensures t.blocks == [] && !HasCurrent(t) && Live(t) == []
    ensures t.blockSize == s.blockSize && t.last == s.last
    ensures Valid(s) ==> Valid(t)
  {
    s.(blocks := [], free := 0, cursor := NULL, older := [])
  }

  /** The pointer `::operator delete` receives for one entry of the block list. */
  function BaseOf(b: Block): (p: nat) {
    match b
    case Null => NULL
    case Raw(base, _) => base
  }

  /** The pointers handed to `::operator delete`, in order, when `blocks` is released. */
  function Released(blocks: seq<Block>): (r: seq<nat>)
    ensures |r| == |blocks|
    ensures forall i :: 0 <= i < |blocks| && blocks[i].Raw? ==> r[i] == blocks[i].base
    ensures forall i :: 0 <= i < |blocks| && blocks[i].Null? ==> r[i] == NULL
  {
    seq(|blocks|, i requires 0 <= i < |blocks| => BaseOf(blocks[i]))
  }
}
