/** Properties of the arena state machine of module Arena. */
module ArenaProps {
  import opened CTypes
  import opened Arena

  // ---------------------------------------------------------------------------
  // Block growth
  // ---------------------------------------------------------------------------

  /** The growth capacity is the least multiple of B strictly above the request:
      no multiple of B that still exceeds `size` is smaller. */
  lemma GrowthCapacityIsLeast(B: nat, size: SizeT, k: nat)
    requires 0 < B <= SIZE_MAX && GrowthCapacity(B, size).Some?
    requires k * B > size
    ensures GrowthCapacity(B, size).value <= k * B
  {
    var q := size / B;
    assert size == q * B + size % B;
    if k <= q {
      MulMono(k, q, B);
      assert false;
    }
    MulMono(q + 1, k, B);
  }

  /** The quirk of the rounding: a request of an exact multiple of B gets one whole
      extra block size on top. */
  lemma ExactMultipleGetsExtraBlock(B: nat, size: SizeT)
    requires 0 < B <= SIZE_MAX && size % B == 0 && GrowthCapacity(B, size).Some?
    ensures GrowthCapacity(B, size).value == size + B
  {
    var q := size / B;
    assert size == q * B;
    assert (1 + q) * B == q * B + B;
  }

  /** As written, the size_t product wraps for a request of SIZE_MAX bytes and block
      size 4096: the appended block has 4096 bytes, far fewer than requested. */
  lemma AsWrittenBlockSmallerThanRequest()
    ensures GrowthCapacityAsWritten(4096, SIZE_MAX) == 4096 < SIZE_MAX
    ensures GrowthCapacity(4096, SIZE_MAX).None?
  {
    DivModUnique(SIZE_MAX, 4096, 0xF_FFFF_FFFF_FFFF, 4095);
  }

  /** Where the product does not wrap, the corrected capacity is the one the code computes. */
  lemma AsWrittenAgreesWithoutWrap(B: nat, size: SizeT)
    requires 0 < B <= SIZE_MAX && GrowthCapacity(B, size).Some?
    ensures GrowthCapacity(B, size).value == GrowthCapacityAsWritten(B, size)
  {
    var rounded := (1 + size / B) * B;
    DivModUnique(rounded, SIZE_RANGE, 0, rounded);
  }

  // ---------------------------------------------------------------------------
  // Live regions never overlap
  // ---------------------------------------------------------------------------

  /** Every live region lies inside a real block, and no two live regions overlap. */
  lemma LiveDisjoint(s: State)
    requires Valid(s)
    ensures forall k :: 0 <= k < |Live(s)| ==> Inside(s.blocks, Live(s)[k])
    ensures forall i, j :: 0 <= i < j < |Live(s)| ==> Apart(Live(s)[i], Live(s)[j])
  {
    var live := Live(s);
    if MarkerRegion(s) != [] {
      var n := |s.blocks| - 1;
      var m := MarkerRegion(s)[0];
      assert live[|s.older|] == m;
      forall k | 0 <= k < |s.older|
        ensures Apart(s.older[k], m)
      {
        var r := s.older[k];
        assert Inside(s.blocks, r);
        if r.block != n {
          assert BlocksApart(s.blocks[r.block], s.blocks[n]);
        }
      }
      forall i, j | 0 <= i < j < |live|
        ensures Apart(live[i], live[j])
      {
        if j == |s.older| {
          assert live[i] == s.older[i];
        } else {
          assert live[i] == s.older[i] && live[j] == s.older[j];
        }
      }
    } else {
      assert live == s.older;
    }
  }

  // ---------------------------------------------------------------------------
  // allocate
  // ---------------------------------------------------------------------------

  /** `allocate` keeps the invariant: in particular cursor plus free space is again
      the end of the newest block. */
  lemma AllocateKeepsValid(s: State, size: SizeT, sys: Option<nat>)
    requires Valid(s) && 0 < size && SystemFresh(s, size, sys)
    ensures Valid(Allocate(s, size, sys).state)
  {
    if s.free >= size {
      FastPathKeepsValid(s, size, sys);
    } else if Allocate(s, size, sys).result.Some? {
      GrowthKeepsValid(s, size, sys);
    }
  }

  /** The fast path: the marker's region joins the earlier ones, and all of them end
      at or before the new marker. */
  lemma FastPathKeepsValid(s: State, size: SizeT, sys: Option<nat>)
    requires Valid(s) && 0 < size <= s.free
    ensures Valid(Allocate(s, size, sys).state)
  {
    var t := Allocate(s, size, sys).state;
    LiveDisjoint(s);
    assert t.blocks == s.blocks && HasCurrent(s);
    forall k | 0 <= k < |t.older| && t.older[k].block == |t.blocks| - 1
      ensures RegionEnd(t.older[k]) <= s.cursor
    {
      if k < |s.older| {
        assert t.older[k] == s.older[k];
      } else {
        assert t.older[k] == MarkerRegion(s)[0];
      }
    }
  }

  /** The growth path: the fresh block is apart from the others, and every live region
      lies in an earlier block. */
  lemma GrowthKeepsValid(s: State, size: SizeT, sys: Option<nat>)
    requires Valid(s) && 0 < size && s.free < size && SystemFresh(s, size, sys)
    requires Allocate(s, size, sys).result.Some?
    ensures Valid(Allocate(s, size, sys).state)
  {
    var t := Allocate(s, size, sys).state;
    LiveDisjoint(s);
    var capacity := GrowthCapacity(s.blockSize, size).value;
    var b := Raw(sys.value, capacity);
    assert t.blocks == s.blocks + [b];
    assert FreshBlock(s.blocks, b);
    forall k | 0 <= k < |t.older|
      ensures Inside(t.blocks, t.older[k]) && t.older[k].block < |s.blocks|
    {
      assert Inside(s.blocks, t.older[k]);
    }
  }

  /** A successful `allocate(size)` returns a non-null pointer to `size` bytes in the
      newest block (so earlier blocks are never allocated from again) that overlap no
      region still live, and that region joins the live ones. */
  lemma AllocateReturnsFreshRegion(s: State, size: SizeT, sys: Option<nat>)
    requires Valid(s) && 0 < size && SystemFresh(s, size, sys)
    ensures var t := Allocate(s, size, sys);
      t.result.Some? ==>
        var r := Region(|t.state.blocks| - 1, t.result.value, size);
        t.result.value != NULL && Inside(t.state.blocks, r) &&
        (forall k :: 0 <= k < |Live(s)| ==> Apart(Live(s)[k], r)) &&
        Live(t.state) == Live(s) + [r]
  {
    var t := Allocate(s, size, sys);
    if t.result.Some? {
      var r := Region(|t.state.blocks| - 1, t.result.value, size);
      LiveDisjoint(s);
      AllocateKeepsValid(s, size, sys);
      assert MarkerRegion(t.state) == [r];
      if s.free >= size {
        var n := |s.blocks| - 1;
        forall k | 0 <= k < |Live(s)|
          ensures Apart(Live(s)[k], r)
        {
          var l := Live(s)[k];
          if l.block != n {
            assert l.block < n by { assert Inside(s.blocks, l); }
            assert BlocksApart(s.blocks[l.block], s.blocks[n]);
          } else if k < |s.older| {
            assert l == s.older[k];
          }
        }
      } else {
        var b := t.state.blocks[|s.blocks|];
        assert FreshBlock(s.blocks, b);
        forall k | 0 <= k < |Live(s)|
          ensures Apart(Live(s)[k], r)
        {
          var l := Live(s)[k];
          assert Inside(s.blocks, l);
          assert BlocksApart(s.blocks[l.block], b);
        }
      }
    }
  }

  /** When the request fits, `allocate` returns the cursor, advances it by `size`,
      takes `size` bytes off the free space and leaves the block list alone. */
  lemma AllocateFits(s: State, size: SizeT, sys: Option<nat>)
    requires Valid(s) && 0 < size <= s.free
    ensures var t := Allocate(s, size, sys);
      t.result == Some(s.cursor) && t.state.last == Some(s.cursor) &&
      t.state.cursor == s.cursor + size && t.state.free == s.free - size &&
      t.state.blocks == s.blocks && HasCurrent(s)
  {
  }

  /** When the request does not fit and the system supplies a block, exactly one block
      is appended: the least multiple of B above `size`; the call returns its start,
      and between 1 and B bytes of it stay free. */
  lemma AllocateGrows(s: State, size: SizeT, sys: Option<nat>)
    requires Valid(s) && 0 < size && s.free < size
    requires Allocate(s, size, sys).result.Some?
    ensures var t := Allocate(s, size, sys).state;
      var b := t.blocks[|t.blocks| - 1];
      |t.blocks| == |s.blocks| + 1 && t.blocks[..|s.blocks|] == s.blocks && b.Raw? &&
      Allocate(s, size, sys).result == Some(b.base) && sys == Some(b.base) &&
      b.capacity % s.blockSize == 0 && size < b.capacity &&
      Some(b.capacity) == GrowthCapacity(s.blockSize, size) &&
      t.free == b.capacity - size && 1 <= t.free <= s.blockSize &&
      t.cursor == b.base + size
  {
    var t := Allocate(s, size, sys).state;
    assert t.blocks[..|s.blocks|] == s.blocks;
  }

  /** `allocate` throws exactly when the request does not fit and no block can be
      obtained, and a throwing `allocate` changes nothing. */
  lemma AllocateFailsCleanly(s: State, size: SizeT, sys: Option<nat>)
    requires Valid(s) && 0 < size
    ensures var t := Allocate(s, size, sys);
      (t.result.None? <==> s.free < size && (sys.None? || GrowthCapacity(s.blockSize, size).None?)) &&
      (t.result.None? ==> t.state == s)
  {
  }

  /** Allocations that fit are laid out back to back: the second returns the first
      plus the first's size. */
  lemma FastPathSpacing(s: State, n1: SizeT, n2: SizeT)
    requires Valid(s) && 0 < n1 && 0 < n2 && n1 + n2 <= s.free
    ensures var t1 := Allocate(s, n1, None);
      Valid(t1.state) && t1.result == Some(s.cursor) &&
      Allocate(t1.state, n2, None).result == Some(s.cursor + n1)
  {
    AllocateKeepsValid(s, n1, None);
  }

  // ---------------------------------------------------------------------------
  // deallocate
  // ---------------------------------------------------------------------------

  lemma DeallocateKeepsValid(s: State, ptr: nat)
    requires Valid(s) && CanDeallocate(s, ptr)
    ensures Valid(Deallocate(s, ptr))
  {
  }

  /** Deallocating the marker gives back the bytes of the most recent allocation and
      nothing else: the cursor returns to the marker and that region stops being live. */
  lemma DeallocateRollsBack(s: State)
    requires Valid(s) && HasCurrent(s)
    ensures CanDeallocate(s, s.last.value)
    ensures var u := Deallocate(s, s.last.value);
      u.cursor == s.last.value && u.free == s.free + (s.cursor - s.last.value) &&
      u.blocks == s.blocks && Live(s) == Live(u) + MarkerRegion(s) && MarkerRegion(u) == []
  {
  }

  /** Any pointer but the marker is ignored, and deallocating the marker a second time
      changes nothing more. */
  lemma DeallocateOnlyUndoesLast(s: State, ptr: nat)
    requires Valid(s) && CanDeallocate(s, ptr)
    ensures ptr != s.last.value ==> Deallocate(s, ptr) == s
    ensures ptr == s.last.value ==>
      CanDeallocate(Deallocate(s, ptr), ptr) &&
      Deallocate(Deallocate(s, ptr), ptr) == Deallocate(s, ptr)
  {
  }

  /** LIFO undo, on the fast path and the growth path alike: after `p = allocate(n);
      deallocate(p)` the live regions are those before the allocation, and the next
      `allocate(n)` returns `p` again (without asking the system for memory) and
      reaches exactly the state the first one reached. On the fast path cursor and
      free space are restored as well. */
  lemma LifoUndo(s: State, n: SizeT, sys: Option<nat>)
    requires Valid(s) && 0 < n && SystemFresh(s, n, sys)
    requires Allocate(s, n, sys).result.Some?
    ensures var t := Allocate(s, n, sys);
      var p := t.result.value;
      Valid(t.state) && CanDeallocate(t.state, p) &&
      var u := Deallocate(t.state, p);
      Valid(u) && Live(u) == Live(s) && u.blocks == t.state.blocks &&
      Allocate(u, n, None) == t &&
      (s.free >= n ==> u.cursor == s.cursor && u.free == s.free && u.blocks == s.blocks)
  {
    var t := Allocate(s, n, sys);
    AllocateKeepsValid(s, n, sys);
    var u := Deallocate(t.state, t.result.value);
    assert MarkerRegion(u) == [];
    assert Live(u) == t.state.older;
  }

  /** Deallocating anything but the most recent allocation reclaims nothing: after
      `p1 = allocate(n1); p2 = allocate(n2)`, `deallocate(p1)` leaves the state alone. */
  lemma NonLifoDeallocateIgnored(s: State, n1: SizeT, sys1: Option<nat>, n2: SizeT, sys2: Option<nat>)
    requires Valid(s) && 0 < n1 && 0 < n2 && SystemFresh(s, n1, sys1)
    requires Allocate(s, n1, sys1).result.Some?
    requires Valid(Allocate(s, n1, sys1).state)
    requires SystemFresh(Allocate(s, n1, sys1).state, n2, sys2)
    requires Allocate(Allocate(s, n1, sys1).state, n2, sys2).result.Some?
    ensures var t1 := Allocate(s, n1, sys1);
      var t2 := Allocate(t1.state, n2, sys2);
      Valid(t2.state) && CanDeallocate(t2.state, t1.result.value) &&
      t1.result != t2.result &&
      Deallocate(t2.state, t1.result.value) == t2.state
  {
    var t1 := Allocate(s, n1, sys1);
    var t2 := Allocate(t1.state, n2, sys2);
    AllocateReturnsFreshRegion(s, n1, sys1);
    AllocateReturnsFreshRegion(t1.state, n2, sys2);
    AllocateKeepsValid(t1.state, n2, sys2);
    var r1 := Region(|t1.state.blocks| - 1, t1.result.value, n1);
    assert Live(t1.state)[|Live(s)|] == r1;
  }

  // ---------------------------------------------------------------------------
  // deallocateAll
  // ---------------------------------------------------------------------------

  /** After `deallocateAll` nothing is live and there is no current block, so the next
      `allocate` of any positive size takes the growth branch; it then behaves as on a
      freshly constructed allocator, except that the ten initial null entries are gone. */
  lemma AllocateAfterReset(s: State, n: SizeT, sys: Option<nat>)
    requires Valid(s) && 0 < n
    ensures var r := DeallocateAll(s);
      Valid(r) && !HasCurrent(r) && Live(r) == [] && r.last == s.last
    ensures var t := Allocate(DeallocateAll(s), n, sys);
      var f := Allocate(Init(s.blockSize), n, sys);
      t.result == f.result &&
      (t.result.Some? ==>
         |t.state.blocks| == 1 && t.state.blocks == f.state.blocks[INITIAL_BLOCK_MEMORY..] &&
         t.state.free == f.state.free && t.state.cursor == f.state.cursor &&
         t.state.last == f.state.last && t.state.older == f.state.older == [])
  {
  }

  /** `deleteBlocks` hands every real block to `::operator delete` exactly once and
      otherwise only null pointers: nothing leaks and nothing is freed twice. */
  lemma ReleaseAllOnce(s: State)
    requires Valid(s)
    ensures var rel := Released(s.blocks);
      |rel| == |s.blocks| &&
      (forall i :: 0 <= i < |s.blocks| ==>
         if s.blocks[i].Raw? then rel[i] == s.blocks[i].base && rel[i] != NULL else rel[i] == NULL) &&
      (forall i, j :: 0 <= i < j < |rel| && rel[i] != NULL ==> rel[i] != rel[j])
  {
    var rel := Released(s.blocks);
    forall i, j | 0 <= i < j < |rel| && rel[i] != NULL
      ensures rel[i] != rel[j]
    {
      if s.blocks[j].Raw? {
        assert BlocksApart(s.blocks[i], s.blocks[j]);
      }
    }
  }

  // ---------------------------------------------------------------------------
  // A worked example
  // ---------------------------------------------------------------------------

  /** With B = 4096: `allocate(100)` returns the start of a first block; `allocate(5000)`
      does not fit in the 3996 bytes left, so an 8192-byte block is appended and its
      start returned; `allocate(50)` then lands at offset 5000 of that block. The system
      blocks are placed at 4096 and 65536. */
  lemma GrowthScenario4096()
    ensures var s0 := Init(4096);
      var t1 := Allocate(s0, 100, Some(4096));
      t1.result == Some(4096) && t1.state.free == 3996 && Valid(t1.state) &&
      var t2 := Allocate(t1.state, 5000, Some(65536));
      t2.result == Some(65536) && Valid(t2.state) &&
      t2.state.blocks[|t2.state.blocks| - 1] == Raw(65536, 8192) &&
      Allocate(t2.state, 50, None).result == Some(65536 + 5000)
  {
    var s0 := Init(4096);
    DivModUnique(100, 4096, 0, 100);
    AllocateKeepsValid(s0, 100, Some(4096));
    var t1 := Allocate(s0, 100, Some(4096));
    DivModUnique(5000, 4096, 1, 904);
    assert GrowthCapacity(4096, 5000) == Some(8192);
    assert FreshBlock(t1.state.blocks, Raw(65536, 8192));
    AllocateKeepsValid(t1.state, 5000, Some(65536));
  }
}
