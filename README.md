# Arena allocator of raspberry-alarm, in Dafny

This project models the memory core of the raspberry-alarm camera program and
proves properties of it:

- `BlockAllocator<blockSizeT>` (`basealloc.h`) is a bump-pointer arena. It bumps a
  cursor inside its newest block while a request fits. Otherwise it appends a
  block of `max(B, (1 + size / B) * B)` bytes. It can undo only the most recent
  allocation, and `deallocateAll` releases every block at once.
- `StlAllocator<T>` (`basealloc.h`) is the typed adapter that standard containers
  use. It holds a non-owning pointer to an allocator.
- `operator new(size, BaseAllocator&)` (`basealloc.h`) asks an allocator for storage.
- `RaspiStillBufferT<bufferSizeT>` (`capture.cpp`) is an append-only byte buffer.
  Its storage is one allocation from the arena.

Layout:

- `ctypes.dfy` (module `CTypes`): `size_t`, bytes, null, `Option`.
- `arena.dfy` (module `Arena`): the arena as a state machine over values.
  The state holds the allocator's fields and the ghost list of earlier live
  regions. `Allocate`, `Deallocate` and `DeallocateAll` are functions on that
  state. `Valid` is the invariant.
- `arena_props.dfy` (module `ArenaProps`): the lemmas about that state machine.
- `basealloc.dfy` (module `BaseAlloc`): the classes `BlockAllocator` and
  `StlAllocator`, and `AllocatorNew`. Each method of `BlockAllocator` updates the
  object's fields in place and is proved to match the state machine exactly
  (`State() == Arena.Allocate(old(State()), …)`).
- `capture.dfy` (module `Capture`): the class `StillBuffer`, over an `array` of bytes.

Modelling choices:

- A pointer is a natural number, and 0 is null.
- `::operator new` is an input `sys: Option<nat>`. `None` means it threw
  `bad_alloc`. Otherwise it is the address of the new block. The one
  requirement on it is what `::operator new` guarantees: the block is non-null
  and overlaps no block the arena still owns (`Arena.SystemFresh`).
- `m_lastAllocated` is an `Option`, with `None` while it is uninitialised.
- Every region handed out and not yet released is tracked (`Arena.Live`). This
  is how "returned regions never overlap" is stated.
- A thrown `bad_alloc` is a `None` or `false` result, and the state is left as it was.

Two behaviours of the code worth noting:

- The block list starts with ten null entries. The constructor calls
  `resize(10)`, not `reserve`.
- `deallocateAll` does not reset the last-allocation marker. After it, the
  arena behaves as freshly constructed for the next `allocate`, except that
  the ten null entries are gone (`ArenaProps.AllocateAfterReset`).

## Model

| member | source | states |
|---|---|---|
| `Arena.Init` | basealloc.h:27-32 | the constructed arena satisfies the invariant, has ten null block entries, no current block and nothing live |
| `BaseAlloc.BlockAllocator.constructor` | basealloc.h:29-32 | the fields start as `Arena.Init`: ten null entries, no free space, null cursor, marker unset |
| `Arena.GrowthCapacityAsWritten` | basealloc.h:49 | the block size as the code computes it is never below B, and wherever the product fits in a `size_t` it is a multiple of B strictly above `size` and at most `size + B` |
| `Arena.Allocate` | basealloc.h:37-56 | `allocate` succeeds exactly when the request fits or both the block size and the system block can be had; on failure the state is unchanged; on success the result becomes the marker, the cursor ends `size` bytes past it, and the earlier live regions are kept |
| `Arena.Deallocate` | basealloc.h:61-68 | `deallocate` keeps the block list, the marker and the earlier regions; it only moves the cursor back, never forward, and cursor plus free space stays the same; a pointer other than the marker changes nothing |
| `Arena.DeallocateAll` | basealloc.h:71-79 | after `deleteBlocks` the block list is empty, there is no current block, nothing is live, the marker and block size are kept, and the invariant still holds |
| `Arena.Released` | basealloc.h:73-75 | one pointer per entry of the block list, in order: each real block's start, and null for a null entry |
| `Arena.GrowthCapacity` | basealloc.h:49 | the block appended for `size` is a multiple of B, strictly larger than `size` and at most `size + B`; it is missing only when `size` is within B of `SIZE_MAX` |
| `ArenaProps.GrowthCapacityIsLeast` | basealloc.h:49 | no multiple of B that exceeds `size` is smaller than the growth capacity |
| `ArenaProps.ExactMultipleGetsExtraBlock` | basealloc.h:49 | a request that is an exact multiple of B gets a block of `size + B` bytes |
| `ArenaProps.AsWrittenBlockSmallerThanRequest` | basealloc.h:49-52 | as written, B = 4096 and `size = SIZE_MAX` wrap the product around and append a 4096-byte block |
| `ArenaProps.AsWrittenAgreesWithoutWrap` | basealloc.h:49 | whenever the product fits in a `size_t`, the corrected capacity equals the code's |
| `ArenaProps.LiveDisjoint` | basealloc.h:37-56 | in a valid state every live region lies inside a real block, and no two live regions overlap |
| `ArenaProps.AllocateKeepsValid` | basealloc.h:37-56 | `allocate` keeps the invariant: real blocks are disjoint multiples of B, and cursor plus free space is the end of the newest block |
| `ArenaProps.FastPathKeepsValid` | basealloc.h:40-45 | the fast path keeps the invariant: the block list is unchanged, and every earlier live region in the newest block ends before the new marker |
| `ArenaProps.GrowthKeepsValid` | basealloc.h:47-55 | the growth path keeps the invariant: the new block is apart from every owned block, and every earlier live region lies in an older block |
| `ArenaProps.AllocateReturnsFreshRegion` | basealloc.h:37-56 | a successful `allocate(size)` returns a non-null pointer to `size` bytes inside the newest block; they overlap no live region, and they join the live regions |
| `ArenaProps.AllocateFits` | basealloc.h:40-45 | when `size` fits, the old cursor is returned and becomes the marker; the cursor advances and the free space shrinks by `size`; the block list is unchanged |
| `ArenaProps.AllocateGrows` | basealloc.h:47-55 | when `size` does not fit, exactly one block of the growth capacity is appended and its start returned; the earlier list is unchanged; between 1 and B bytes of the new block stay free |
| `ArenaProps.AllocateFailsCleanly` | basealloc.h:49-50 | `allocate` throws exactly when the request does not fit and no block can be had, and a throwing call changes no field |
| `ArenaProps.FastPathSpacing` | basealloc.h:42-45 | two allocations that fit return addresses exactly the first size apart |
| `ArenaProps.DeallocateKeepsValid` | basealloc.h:61-68 | `deallocate` keeps the invariant |
| `ArenaProps.DeallocateRollsBack` | basealloc.h:63-67 | deallocating the marker moves the cursor back to it, gives its bytes back to the free space, and releases exactly the most recent region |
| `ArenaProps.DeallocateOnlyUndoesLast` | basealloc.h:61-68 | a pointer other than the marker changes nothing, and deallocating the marker twice is the same as once |
| `ArenaProps.LifoUndo` | basealloc.h:37-68 | after `p = allocate(n); deallocate(p)` the live regions are those before the allocation, and a new `allocate(n)` returns `p` and reaches the same state without asking the system; on the fast path cursor and free space are restored |
| `ArenaProps.NonLifoDeallocateIgnored` | basealloc.h:61-68 | after two allocations, deallocating the first pointer changes nothing |
| `ArenaProps.AllocateAfterReset` | basealloc.h:71-79 | after `deallocateAll` nothing is live, there is no current block and the marker is kept; the next `allocate` grows the arena and acts as on a fresh allocator, without the ten null entries |
| `ArenaProps.ReleaseAllOnce` | basealloc.h:71-76 | releasing the block list hands each real block to `::operator delete` exactly once, and otherwise only null |
| `ArenaProps.GrowthScenario4096` | basealloc.h:37-56 | with B = 4096: `allocate(100)` returns the first block's start; `allocate(5000)` appends an 8192-byte block and returns its start; `allocate(50)` returns offset 5000 in that block |
| `BaseAlloc.BlockAllocator.Allocate` | basealloc.h:37-56 | the fields and the result move exactly as `Arena.Allocate`, and the invariant is kept |
| `BaseAlloc.BlockAllocator.Deallocate` | basealloc.h:61-68 | the fields move exactly as `Arena.Deallocate`, and the invariant is kept |
| `BaseAlloc.BlockAllocator.DeallocateAll` | basealloc.h:58-59 | the block list is emptied, free space and cursor become zero and null, the marker is kept, and every entry goes to `::operator delete` in order |
| `BaseAlloc.BlockAllocator.Destroy` | basealloc.h:34-35 | the destructor releases as `deallocateAll` does |
| `BaseAlloc.BlockAllocator.DeleteBlocks` | basealloc.h:71-79 | the loop passes every entry of the block list to `::operator delete` in order, then clears the list and resets free space and cursor |
| `BaseAlloc.RequestBytes` | basealloc.h:132 | the byte count `cnt * sizeof(T)` computed in `size_t` is the exact product precisely when that product fits in a `size_t` |
| `BaseAlloc.RequestBytesExact` | basealloc.h:132 | up to the adapter's `max_size()` elements, the byte count `cnt * sizeof(T)` it requests does not wrap around |
| `BaseAlloc.StlAllocator.FromPointer` | basealloc.h:105-107 | the adapter holds the given allocator pointer, which may be null |
| `BaseAlloc.StlAllocator.FromReference` | basealloc.h:108-110 | the adapter is bound to the given allocator |
| `BaseAlloc.StlAllocator.Copy` | basealloc.h:111-113 | a copy needs a bound source, holds the same allocator and compares equal to the source |
| `BaseAlloc.StlAllocator.Rebind` | basealloc.h:114-117 | an adapter for another element type needs a bound source, holds the same allocator and compares equal to it |
| `BaseAlloc.StlAllocator.BaseAllocator` | basealloc.h:152-156 | `baseAllocator()` needs a bound adapter and returns its allocator |
| `BaseAlloc.StlAllocator.Allocate` | basealloc.h:128-133 | needs a bound adapter and forwards `cnt * sizeof(T)` bytes (size_t arithmetic) to the allocator's `allocate` |
| `BaseAlloc.StlAllocator.Deallocate` | basealloc.h:134-139 | needs a bound adapter; forwards a non-null pointer to the allocator's `deallocate` and ignores the count; null changes nothing |
| `BaseAlloc.StlAllocator.MaxSize` | basealloc.h:141-142 | `max_size()` is the largest element count whose byte size fits in a `size_t`: that many elements of `sizeof(T)` bytes fit, one more does not |
| `BaseAlloc.StlAllocator.Equals` | basealloc.h:147-148 | two equal adapters, when bound, hand out storage from the very same allocator object |
| `BaseAlloc.StlAllocator.NotEquals` | basealloc.h:149-150 | `!=` holds exactly when the other adapter does not compare equal to this one |
| `BaseAlloc.AdapterEquality` | basealloc.h:147-150 | adapter equality holds exactly when both adapters refer to the same allocator object; it is an equivalence relation, and `!=` is its negation |
| `BaseAlloc.AllocatorNew` | basealloc.h:162-163 | `operator new(size, allocator)` is the allocator's `allocate(size)` |
| `Capture.DefaultBufferGrowth` | capture.cpp:88-90 | in `main` (B = 102400) the default 5242880-byte buffer makes the freshly built arena append one block of 52 × 102400 bytes after the ten null entries; the buffer gets that block's start, and 81920 bytes of it stay free |
| `Capture.FlattenAppend` | capture.cpp:32-37 | appending a chunk extends the concatenation of all chunks by exactly that chunk |
| `Capture.StillBuffer.Create` | capture.cpp:17-19 | the buffer obtains exactly `bufferSizeT` bytes from the allocator and starts empty; it throws exactly when the allocator does |
| `Capture.StillBuffer.CopyOf` | capture.cpp:24-26 | a copy is a fresh empty buffer of the same capacity from the same allocator, holding the address its own `allocate` returned; no byte is copied |
| `Capture.StillBuffer.Move` | capture.cpp:27-31 | the new buffer takes over address, bytes and cursor; the source is left without storage and empty |
| `Capture.StillBuffer.Destroy` | capture.cpp:20-23 | the destructor hands the storage to the allocator's `deallocate` only while the buffer owns it |
| `Capture.StillBuffer.Append` | capture.cpp:32-37 | throws exactly when `used + length > bufferSizeT`, and then changes nothing; otherwise it writes the chunk at offset `used`, keeps every other byte and advances `used` by its length; the bytes before `used` stay the concatenation of all chunks |
| `Capture.StillBuffer.Write` | capture.cpp:40-42 | the stream receives exactly `used` bytes from the buffer's start: the appended chunks in order |

## Findings

| source | as written | input that shows it | evidently intended | confidence | as-written member | corrected member |
|---|---|---|---|---|---|---|
| basealloc.h:49 | `(1 + size / blockSizeT) * blockSizeT` is computed in `size_t` and wraps around | `blockSizeT` = 4096, `size` = `SIZE_MAX`: the product wraps to 0, so a 4096-byte block is appended for a request of `SIZE_MAX` bytes | a request whose rounded block size does not fit in a `size_t` fails with `bad_alloc`, like any request the system cannot serve | not executed; the arithmetic is proved, the input is absurd in practice | `ArenaProps.AsWrittenBlockSmallerThanRequest` | `Arena.GrowthCapacity` |

## Left out

- `BaseAllocator` (basealloc.h:14-21) is not a separate type. The interface is not modelled because the model has no traits. The adapter, `AllocatorNew` and the buffer hold a `BlockAllocator` directly, its only implementation in the repository. For the same reason, the interface's default no-op `deallocate` (basealloc.h:19) is not modelled.
- `Arena.Allocate` and `BaseAlloc.BlockAllocator.Allocate`: for every `size` whose product `(1 + size / B) * B` exceeds `SIZE_MAX`, they follow the corrected growth rule and throw, not the code as written. These are at most B sizes, all above `SIZE_MAX - B` (`Arena.GrowthCapacity`); for B = 4096 they are the 4096 sizes from `SIZE_MAX - 4095` to `SIZE_MAX`. `BaseAlloc.StlAllocator.Allocate`, `BaseAlloc.AllocatorNew` and `Capture.StillBuffer.Create` go through `Arena.Allocate` and inherit this.
- `size_t` and `ptrdiff_t` are taken to be 64 bits wide, as on an LP64 target (`CTypes.SIZE_MAX`); 32-bit targets are not modelled. On a 32-bit target `SIZE_MAX` is 2^32 - 1, so the finding's input changes. Also, the guard of `append` (capture.cpp:33) adds `m_current - m_buffer` and the `uint32_t` length in 32-bit unsigned arithmetic, which wraps: with 1 byte used and a length of 0xFFFFFFFF the sum is 0, the guard passes and `memcpy` overruns. `Capture.StillBuffer.Append`'s `ok <==> used + length <= capacity` holds under the 64-bit reading only.
- Pointers are unbounded naturals. Pointer arithmetic overflow is not modelled. The arena does not model the bytes stored in its blocks.
- The buffer keeps its bytes in its own array. The aliasing between that array and the arena block it came from is not modelled.
- Failure inside `push_back` is not modelled (basealloc.h:50), and neither is vector reallocation. Only `::operator new` throwing is modelled.
- `construct`, `destroy` and `address` (basealloc.h:125-126, 144-145) are left out. They manage object lifetime in storage that is already allocated, and never allocate or free.
- The template `operator=` (basealloc.h:118-123) is left out. It returns `this` instead of `*this`, so it does not compile once instantiated. Its intent is to rebind the adapter to the other adapter's allocator.
- The adapter's element type is reduced to its size `sizeof(T)`. `operator==` is stated between any two adapters, not only between adapters of one element type.
- The undefined paths are excluded by preconditions. These are deallocating before the first allocation (the marker is uninitialised), and deallocating the stale marker after `deallocateAll` (`Arena.CanDeallocate`). For the buffer, `append` of a chunk that fits into a moved-from buffer is excluded: `memcpy` to null.
- The buffer constructor throws when the allocator does. Dafny constructors cannot fail, so the constructor is the static method `Create`, which returns `None` in that case. The same holds for the copy constructor, `CopyOf`.
- `BaseAlloc.BlockAllocator.DeallocateAll` and `Destroy` return the pointers given to `::operator delete`, to record the calls. The source returns nothing.
- The deleted assignment operators of the buffer (capture.cpp:38-39) are left out. There is nothing to model.
- The camera driver (`RaspiStillImage`, the static callback pointer, `omxcam_still_start` and `omxcam_still_stop`, capture.cpp:51-86) is foreign code driving a callback, and is left out. So is the file output in `main` and in `operator<<` (capture.cpp:88-95, 40-41); only the bytes handed to the stream are modelled.
- Threading is left out: nothing is synchronised. The unused headers are left out too.
