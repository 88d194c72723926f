/** Where `Alloc` may place a region in the 64 KB virtual heap, and requests on which the allocator's checks fall
    short. */
module HeapLaws {
  import opened Options
  import opened Bits
  import opened Arithmetic
  import opened FreeIndex
  import opened FreeSearch
  import opened PageTable
  import opened Geometry
  import opened Layout
  import opened BaseHeaps
  import opened PhysicalHeaps

  // ----- the thread stacks at 0x70000000

  /** The virtual heap of 64 KB pages at 0x40000000; its first stack page is page 0x3000. */
  function StackHeap(sysShift: nat): Geometry {
    Geometry(GuestVirtual, 0x4000_0000, 0x3F00, 16, 0, sysShift)
  }

  const STACK_PAGE: nat := 0x3000

  lemma {:induction false} StackHeapValid(s: nat)
    requires 12 <= s <= 16
    ensures StackHeap(s).Valid() && StackHeap(s).Size() == 0x3F00_0000
  {
    assert Shl(0x3F00, 4) == 0x3F000 && Shl(0x3F00, 8) == 0x3F_0000 && Shl(0x3F00, 12) == 0x3F0_0000;
    assert Shl(0x3F00, 16) == 0x3F00_0000;
    LowZero(16);
  }

  /** Aligning to a power of two finds the multiple at or above the address. */
  lemma {:induction false} AlignIs(value: uint32, aligned: nat, k: nat)
    requires k < 32 && value + Pow2(k) <= U32 && Low(aligned, k) == 0 && value <= aligned < value + Pow2(k)
    ensures 0 < Pow2(k) < U32 && Align(value, Pow2(k)) == aligned
  {
    AlignPow2(value, k);
    ShiftAligned(aligned, k);
    ShiftUnique(Shr(aligned, k), value + Pow2(k) - 1 - aligned, k);
  }

  /** Rounding a power of two up to another gives the larger one. */
  lemma {:induction false} RoundedPow2(k: nat, n: nat)
    requires k < 32 && n < 32
    ensures Pow2(k) + Pow2(n) <= U32 && Pow2(k) < U32 && RoundUp(Pow2(k), n) == Pow2(Max(k, n))
  {
    Pow2Small(k);
    Pow2Small(n);
    if k >= n {
      ShlPow2(n, k - n);
      ShlAligned(Pow2(k - n), n);
      RoundUpBounds(Pow2(k), n);
    } else {
      Pow2Mono(k, n);
      ShlPow2(n, 0);
      ShiftUnique(1, Pow2(k) - 1, n);
    }
  }

  /** `Alloc` with a power-of-two alignment on this heap never places a region that meets the stacks. */
  ghost predicate KeepsClearOfStacks(s: nat, k: nat, topDown: bool)
    requires 12 <= s <= 16 && k < 32
  {
    StackHeapValid(s);
    RoundedPow2(k, 16);
    var g := StackHeap(s);
    forall free: seq<bool>, count: nat, found: nat {:trigger StackResult(s, free, count, k, topDown, found)} ::
      |free| == g.pages && count > 0 && StackResult(s, free, count, k, topDown, found) ==> found + count <= STACK_PAGE
  }

  /** The search for `count` pages on this heap settles on page `found`. */
  ghost predicate StackResult(s: nat, free: seq<bool>, count: nat, k: nat, topDown: bool, found: nat)
    requires 12 <= s <= 16 && k < 32
  {
    StackHeapValid(s);
    RoundedPow2(k, 16);
    var g := StackHeap(s);
    var alignment := RoundUp(Pow2(k), 16);
    RoundedPow2(Max(k, 16), 16);
    SearchResult(free, Runs(free), LowPage(g, g.base, alignment), HighPage(g, AllocHigh(g), alignment), count,
                 Stride(g, alignment), topDown, Some(found))
  }

  lemma {:induction false} StackAligned(j: nat)
    ensures j <= 28 ==> Low(0x7000_0000, j) == 0
    ensures j <= 30 ==> Low(0x4000_0000, j) == 0
    ensures j <= 31 ==> Low(0x8000_0000, j) == 0
  {
    BigUnits();
    ShiftIsDiv(0x7000_0000, 28);
    ShiftIsDiv(0x4000_0000, 30);
    ShiftIsDiv(0x8000_0000, 31);
    if j <= 28 { LowCoarser(0x7000_0000, j, 28); }
    if j <= 30 { LowCoarser(0x4000_0000, j, 30); }
    if j <= 31 { LowCoarser(0x8000_0000, j, 31); }
  }

  lemma {:induction false} BigUnits()
    ensures Pow2(28) == 0x1000_0000 && Pow2(29) == 0x2000_0000 && Pow2(30) == 0x4000_0000 && Pow2(31) == 0x8000_0000
  {
    Pow2Values();
  }

  lemma {:induction false} StackUnits(j: nat)
    requires 16 <= j < 32
    ensures 0x1_0000 <= Pow2(j) <= 0x8000_0000
    ensures j >= 29 ==> Pow2(j) >= 0x2000_0000
    ensures j >= 31 ==> Pow2(j) == 0x8000_0000
  {
    Pow2Small(j);
    Pow2Values();
    Pow2Mono(16, j);
    BigUnits();
    if j >= 29 { Pow2Mono(29, j); }
  }

  /** From `2^29` on the aligned high address leaves the heap. */
  lemma {:induction false} AlignedHigh(j: nat)
    requires 16 <= j < 32
    ensures 0 < Pow2(j) < U32 && Align(0x6FFF_FFFF, Pow2(j)) == if j <= 28 then 0x7000_0000 else 0x8000_0000
  {
    StackAligned(j);
    StackUnits(j);
    AlignIs(0x6FFF_FFFF, if j <= 28 then 0x7000_0000 else 0x8000_0000, j);
  }

  lemma {:induction false} AlignedLow(j: nat)
    requires 16 <= j < 32
    ensures 0 < Pow2(j) < U32 && Align(0x4000_0000, Pow2(j)) == if j <= 30 then 0x4000_0000 else 0x8000_0000
  {
    StackAligned(j);
    StackUnits(j);
    AlignIs(0x4000_0000, if j <= 30 then 0x4000_0000 else 0x8000_0000, j);
  }

  lemma {:induction false} StackPages()
    ensures Shr(0x3000_0000, 16) == 0x3000 && Shr(0x3EFF_FFFF, 16) == 0x3EFF && Shr(0x4000_0000, 16) == 0x4000
    ensures Shr(0, 16) == 0
  {
    Pow2Values();
    ShiftIs(0x3000_0000, 16, 0x1_0000, 0x3000, 0);
    ShiftIs(0x3EFF_FFFF, 16, 0x1_0000, 0x3EFF, 0xFFFF);
    ShiftIs(0x4000_0000, 16, 0x1_0000, 0x4000, 0);
    LowZero(16);
  }

  lemma {:induction false} StackHighPage(s: nat, k: nat)
    requires 12 <= s <= 16 && k < 32
    ensures StackHeap(s).Valid() && Pow2(k) + Pow2(16) <= U32 && Pow2(k) < U32
    ensures HighPage(StackHeap(s), AllocHigh(StackHeap(s)), Pow2(k)) == if Max(k, 16) <= 28 then STACK_PAGE else 0x3EFF
  {
    StackHeapValid(s);
    RoundedPow2(k, 16);
    AlignedHigh(Max(k, 16));
    StackPages();
    var g := StackHeap(s);
    assert AllocHigh(g) == 0x6FFF_FFFF;
  }

  lemma {:induction false} StackLowPage(s: nat, k: nat)
    requires 12 <= s <= 16 && k < 32
    ensures StackHeap(s).Valid() && Pow2(k) + Pow2(16) <= U32 && Pow2(k) < U32
    ensures LowPage(StackHeap(s), 0x4000_0000, Pow2(k)) == if Max(k, 16) <= 30 then 0 else 0x3EFF
  {
    StackHeapValid(s);
    RoundedPow2(k, 16);
    AlignedLow(Max(k, 16));
    StackPages();
  }

  lemma {:induction false} StackStride(s: nat, k: nat)
    requires 12 <= s <= 16 && k < 32
    ensures StackHeap(s).Valid() && Pow2(k) + Pow2(16) <= U32 && Pow2(k) < U32
    ensures Stride(StackHeap(s), Pow2(k)) == Pow2(Max(k, 16) - 16)
  {
    StackHeapValid(s);
    RoundedPow2(k, 16);
    ShlPow2(16, Max(k, 16) - 16);
    ShlAligned(Pow2(Max(k, 16) - 16), 16);
  }

  /** A result lies between the bounds of the search. */
  lemma {:induction false} ResultInside(free: seq<bool>, m: map<nat, nat>, low: nat, high: nat, count: nat, stride: nat,
                                        topDown: bool, found: nat)
    requires stride > 0 && SearchResult(free, m, low, high, count, stride, topDown, Some(found))
    ensures low <= found && found + count <= HighBound(high, stride, topDown) <= high
  {
  }

  /** With the bounds the search has, a result stays below the stacks. */
  lemma {:induction false} ResultBelow(s: nat, free: seq<bool>, count: nat, k: nat, topDown: bool, found: nat)
    requires 12 <= s <= 16 && k < 32 && count > 0 && StackResult(s, free, count, k, topDown, found)
    requires topDown || !(29 <= k <= 30)
    ensures found + count <= STACK_PAGE
  {
    StackBounds(s, free, count, k, topDown, found);
    if topDown && k >= 29 {
      CoarseStrides(k - 16);
      FloorBelow(Pow2(k - 16));
    }
  }

  lemma {:induction false} StackBounds(s: nat, free: seq<bool>, count: nat, k: nat, topDown: bool, found: nat)
    requires 12 <= s <= 16 && k < 32 && StackResult(s, free, count, k, topDown, found)
    ensures found >= if Max(k, 16) <= 30 then 0 else 0x3EFF
    ensures Max(k, 16) <= 28 ==> found + count <= STACK_PAGE
    ensures Max(k, 16) > 28 ==> found + count <= HighBound(0x3EFF, Pow2(Max(k, 16) - 16), topDown) <= 0x3EFF
  {
    RoundedPow2(k, 16);
    StackHighPage(s, Max(k, 16));
    StackLowPage(s, Max(k, 16));
    StackStride(s, Max(k, 16));
    ResultInside(free, Runs(free), if Max(k, 16) <= 30 then 0 else 0x3EFF,
                 if Max(k, 16) <= 28 then STACK_PAGE else 0x3EFF, count, Pow2(Max(k, 16) - 16), topDown, found);
  }

  lemma {:induction false} CoarseStrides(n: nat)
    requires 13 <= n <= 15
    ensures Pow2(n) == if n == 13 then 0x2000 else if n == 14 then 0x4000 else 0x8000
  {
    Pow2Values();
  }

  lemma {:induction false} FloorBelow(stride: nat)
    requires stride == 0x2000 || stride == 0x4000 || stride == 0x8000
    ensures FloorTo(0x3EFF, stride) <= 0x2000
  {
  }

  /** Some pages are taken, the rest of the heap is free. */
  function FreeFrom(taken: nat): (free: seq<bool>)
    requires taken < 0x3F00
    ensures |free| == 0x3F00 && RunStart(free, taken) && Runs(free) == map[taken := 0x3F00 - taken]
  {
    var free := seq(0x3F00, p => p >= taken);
    RunEndIs(free, taken, 0x3F00);
    RunsFromKeys(free, map[taken := 0x3F00 - taken]);
    free
  }

  /** Bottom-up searches with an alignment of 512 MB or 1 GB do place regions on the stacks. */
  lemma {:induction false} ResultAbove(s: nat, k: nat)
    requires 12 <= s <= 16 && 29 <= k <= 30
    ensures var (taken, count) := if k == 29 then (0x2000, 0x1001) else (0, 0x3001);
            StackResult(s, FreeFrom(taken), count, k, false, taken) && taken + count > STACK_PAGE
  {
    RoundedPow2(k, 16);
    StackHighPage(s, k);
    StackLowPage(s, k);
    StackStride(s, k);
    CoarseStrides(k - 16);
    var (taken, count) := if k == 29 then (0x2000, 0x1001) else (0, 0x3001);
    LowestWindow(taken, count, Pow2(k - 16));
  }

  lemma {:induction false} LowestWindow(taken: nat, count: nat, stride: nat)
    requires 0 < count && taken + count <= 0x3EFF && stride > 0 && taken % stride == 0
    ensures var free := FreeFrom(taken);
            SearchResult(free, Runs(free), 0, 0x3EFF, count, stride, false, Some(taken))
  {
    var free := FreeFrom(taken);
    assert Reaches(Runs(free), taken, taken, count, 0);
    forall w: nat | Window(free, w, count, stride, 0, 0x3EFF) ensures w >= taken {
      assert free[w];
    }
  }

  /** `Alloc` on the 64 KB virtual heap keeps clear of the thread stacks, for every size and table, exactly when it
      searches from the top or the alignment is neither 512 MB nor 1 GB. */
  lemma {:induction false} AllocKeepsClearOfStacks(s: nat, k: nat, topDown: bool)
    requires 12 <= s <= 16 && k < 32
    ensures KeepsClearOfStacks(s, k, topDown) <==> topDown || !(29 <= k <= 30)
  {
    StackHeapValid(s);
    RoundedPow2(k, 16);
    if topDown || !(29 <= k <= 30) {
      forall free: seq<bool>, count: nat, found: nat
        | |free| == 0x3F00 && count > 0 && StackResult(s, free, count, k, topDown, found)
        ensures found + count <= STACK_PAGE
      {
        ResultBelow(s, free, count, k, topDown, found);
      }
    } else {
      ResultAbove(s, k);
    }
  }

  // ----- requests of no pages

  /** The search for a kernel stack: page by page from the first stack page up. */
  lemma {:induction false} KernelStackSearch(s: nat, alignment: uint32)
    requires 12 <= s <= 16 && alignment <= 0x1_0000
    ensures StackHeap(s).Valid() && alignment + Pow2(16) <= U32 && RoundUp(alignment, 16) == 0x1_0000
    ensures LowPage(StackHeap(s), 0x7000_0000, alignment) == STACK_PAGE
    ensures HighPage(StackHeap(s), 0x7F00_0000, alignment) == 0x3EFF && Stride(StackHeap(s), alignment) == 1
  {
    StackHeapValid(s);
    Pow2Values();
    RoundUpBounds(alignment, 16);
    OneUnit(alignment);
    StackAligned(16);
    ShiftIs(0x7F00_0000, 16, 0x1_0000, 0x7F00, 0);
    AlignIs(0x7000_0000, 0x7000_0000, 16);
    AlignIs(0x7F00_0000, 0x7F00_0000, 16);
    StackPages();
    ShiftIs(0x1_0000, 16, 0x1_0000, 1, 0);
  }

  /** Nothing above zero and up to 64 KB rounds up to more than 64 KB. */
  lemma {:induction false} OneUnit(alignment: uint32)
    requires alignment <= 0x1_0000
    ensures RoundUp(alignment, 16) == 0x1_0000
  {
    Pow2Values();
    if alignment > 0 {
      ShiftIs(alignment + 0xFFFF, 16, 0x1_0000, 1, alignment - 1);
      ShlIsTimes(1, 16);
    }
  }

  /** A search for a stack of no pages settles on the first stack page if that is free; it splits a free block exactly
      if the page before is free too. */
  lemma {:induction false} EmptyStackSearch(s: nat, t: Table, size: uint32, alignment: uint32, found: Option<nat>)
    requires 12 <= s <= 16 && |t| == 0x3F00 && alignment <= 0x1_0000 && PageCount(size, 16) == 0
    requires StackHeap(s).Valid() && alignment + Pow2(16) <= U32
    requires RangeFound(StackHeap(s), t, 0x7000_0000, 0x7F00_0000, size, alignment, false, found)
    ensures IsFree(t[STACK_PAGE]) ==> found == Some(STACK_PAGE)
    ensures found.Some? && Splits(FreeBits(t), found.value) <==> IsFree(t[STACK_PAGE - 1]) && IsFree(t[STACK_PAGE])
  {
    KernelStackSearch(s, alignment);
    EmptySearch(FreeBits(t), STACK_PAGE, 0x3EFF, false, found);
  }

  /** Looks for a stack of `size` bytes, which may be no pages at all. */
  method ReserveStack(heap: BaseHeap, s: nat, size: uint32, alignment: uint32, hostOk: bool)
    returns (r: Outcome, address: uint32)
    requires 12 <= s <= 16 && heap.g == StackHeap(s) && heap.Valid() && alignment <= 0x1_0000
    modifies heap, heap.pageTable, heap.host
    ensures heap.Shape() && heap.Drift() == old(heap.Drift())
    ensures PageCount(size, 16) == 0 && IsFree(old(heap.Table())[STACK_PAGE]) ==>
              r == (if SkipsHostCommit(heap.g) || hostOk then Done else Failed)
    ensures PageCount(size, 16) == 0 ==> heap.Table() == old(heap.Table())
    ensures heap.Valid() <==> (r == Done && PageCount(size, 16) == 0 ==>
                                 !(IsFree(old(heap.Table())[STACK_PAGE - 1]) && IsFree(old(heap.Table())[STACK_PAGE])))
  {
    KernelStackSearch(s, alignment);
    ghost var t := heap.Table();
    ghost var found;
    r, address, found := heap.AllocRange(0x7000_0000, 0x7F00_0000, size, alignment, ReserveCommit,
                                         Protection(true, true, false, false), false, hostOk);
    if PageCount(size, 16) == 0 {
      EmptyStackSearch(s, t, size, alignment, found);
      if r == Done {
        PinnedNothing(t, found.value, true, Protection(true, true, false, false));
      }
    }
  }

  lemma {:induction false} PinnedNothing(t: Table, first: nat, commit: bool, protect: Protection)
    ensures Pinned(t, first, 0, true, commit, protect) == t
  {
    assert Pinned(t, first, 0, true, commit, protect) == t;
  }

  /** `MmCreateKernelStack`. A stack of no pages is granted and splits the free block around the first stack page. */
  method CreateKernelStack(heap: BaseHeap, s: nat, stackSize: uint32, hostOk: bool)
    returns (r: Outcome, stackEnd: uint32)
    requires 12 <= s <= 16 && heap.g == StackHeap(s) && heap.Valid()
    modifies heap, heap.pageTable, heap.host
    ensures heap.Shape() && heap.Drift() == old(heap.Drift())
    ensures PageCount(Align(stackSize, 0x1000), 16) == 0 && IsFree(old(heap.Table())[STACK_PAGE]) ==>
              r == (if SkipsHostCommit(heap.g) || hostOk then Done else Failed)
    ensures PageCount(Align(stackSize, 0x1000), 16) == 0 ==> heap.Table() == old(heap.Table())
    ensures heap.Valid() <==> (r == Done && PageCount(Align(stackSize, 0x1000), 16) == 0 ==>
                                 !(IsFree(old(heap.Table())[STACK_PAGE - 1]) && IsFree(old(heap.Table())[STACK_PAGE])))
  {
    var alignment := if And(stackSize, 0xF000) != 0 then 0x1000 else 0x1_0000;
    var address;
    r, address := ReserveStack(heap, s, Align(stackSize, 0x1000), alignment, hostOk);
    stackEnd := Add32(address, stackSize);
  }

  /** The sizes above `0xFFFF0000` make stacks of no pages. */
  lemma {:induction false} EmptyStackSize(stackSize: uint32)
    requires stackSize > 0xFFFF_0000 && stackSize <= 0xFFFF_F000
    ensures PageCount(Align(stackSize, 0x1000), 16) == 0
  {
    Pow2Values();
    AlignNotBelow(stackSize, 0x1000);
    PageCountZero(Align(stackSize, 0x1000), 16);
  }

  // ----- alignments that round to zero

  lemma {:induction false} LargePage()
    ensures Pow2(16) == 0x1_0000 && PageCount(0x1_0000, 16) == 1
  {
    Pow2Values();
    RoundedPow2(16, 16);
    ShiftIs(0x1_0000, 16, 0x1_0000, 1, 0);
  }

  /** The whole heap is searched, whatever the bounds: they are aligned to zero. */
  lemma {:induction false} UnstridedBounds(s: nat, low: uint32, high: uint32)
    requires 12 <= s <= 16
    ensures StackHeap(s).Valid() && 0xFFFF_FFFF + Pow2(16) > U32
    ensures LowPage(StackHeap(s), low, 0xFFFF_FFFF) == 0 && HighPage(StackHeap(s), high, 0xFFFF_FFFF) == 0x3EFF
  {
    StackHeapValid(s);
    LargePage();
    RoundUpWraps(0xFFFF_FFFF, 16);
    ShiftIs(0xC000_0000, 16, 0x1_0000, 0xC000, 0);
    LowZero(16);
  }

  /** An upward search of the empty heap for one page with the largest alignment divides by zero. */
  lemma {:induction false} LargestAlignmentTraps(s: nat, t: Table)
    requires 12 <= s <= 16 && |t| == 0x3F00 && forall p :: 0 <= p < |t| ==> IsFree(t[p])
    ensures StackHeap(s).Valid() && 0xFFFF_FFFF + Pow2(16) > U32
    ensures UnstridedOutcome(StackHeap(s), t, 0x4000_0000, 0x7EFF_FFFF, 0x1_0000, 0xFFFF_FFFF, false) == Trap
  {
    UnstridedBounds(s, 0x4000_0000, 0x7EFF_FFFF);
    LargePage();
    RunEndIs(FreeBits(t), 0, 0x3F00);
    assert RunStart(FreeBits(t), 0) && 0 in Runs(FreeBits(t));
  }

  /** In a view every request with that alignment does once the parent has its pages. */
  lemma {:induction false} LargestAlignmentTrapsPin(g: Geometry, t: Table, parentAddress: uint32, q: Request,
                                                    hostFails: bool)
    requires g.Valid() && q.alignment == 0xFFFF_FFFF
    ensures var r := q.Rounded(g);
            r.alignment == 0 && PinOutcome(g, t, parentAddress, r.size, r.alignment, r.kind, hostFails) == Trap
  {
    Pow2Small(g.pageShift);
    Pow2Mono(12, g.pageShift);
    Pow2Values();
    RoundUpWraps(0xFFFF_FFFF, g.pageShift);
  }

  // ----- fixed ranges that end behind the table

  /** On the 64 KB virtual heap a fixed request for the last page and one more passes the range check. */
  lemma {:induction false} FixedRequestOverruns(s: nat, t: Table, kind: AllocationType)
    requires 12 <= s <= 16 && |t| == 0x3F00
    ensures StackHeap(s).Valid() && StackHeap(s).PageOf(0x7EFF_0000) == 0x3EFF && 0x1_0000 + Pow2(16) <= U32
    ensures FixedCount(0x2_0000, 0x1_0000, 16) == 2
    ensures FixedOutcome(t, 0x3EFF, 2, kind, false) == Overrun
  {
    StackHeapValid(s);
    TwoLargePages();
    ShiftIs(0x3EFF_0000, 16, 0x1_0000, 0x3EFF, 0);
    assert Sub32(0x7EFF_0000, 0x4000_0000) == 0x3EFF_0000;
  }

  /** Two pages of 64 KB. */
  lemma {:induction false} TwoLargePages()
    ensures Pow2(16) == 0x1_0000 && FixedCount(0x2_0000, 0x1_0000, 16) == 2
  {
    Pow2Values();
    ShiftIs(0x2_0000, 16, 0x1_0000, 2, 0);
    ShiftIs(0x1_0000, 16, 0x1_0000, 1, 0);
    RoundUpBounds(0x1_0000, 16);
    RoundUpBounds(0x2_0000, 16);
    AlignIs(0x2_0000, 0x2_0000, 16);
  }

  /** Two pages in 4 KB pages, for requests of 8 KB aligned to 8 KB. */
  lemma {:induction false} TwoPages()
    ensures RoundUp(0x2000, 12) == 0x2000 && Align(0x2000, 0x2000) == 0x2000 && Shr(0x2000, 12) == 2
    ensures PageCount(0x2000, 12) == 2 && FixedCount(0x2000, 0x2000, 12) == 2 && Pow2(12) == 0x1000
  {
    EightKb();
    RoundedPow2(13, 12);
    AlignIs(0x2000, 0x2000, 13);
    ShiftIsDiv(0x2000, 12);
  }

  lemma {:induction false} EightKb()
    ensures Pow2(12) == 0x1000 && Pow2(13) == 0x2000 && Low(0x2000, 13) == 0
  {
    Pow2Values();
    assert Pow2(13) == 2 * Pow2(12);
    ShiftIsDiv(0x2000, 13);
  }

  lemma {:induction false} LastViewPages()
    ensures Shr(0x1FCF_F000, 12) == 0x1FCFF && Shr(0x1FD0_2000, 12) == 0x1FD02 && Shl(0x1FD00, 12) == 0x1FD0_0000
  {
    Pow2Values();
    ShiftIsDiv(0x1FCF_F000, 12);
    ShiftIsDiv(0x1FD0_2000, 12);
    ShlIsTimes(0x1FD00, 12);
  }

  /** Pinning 8 KB at the end of the view passes every check and ends on the page after the table. */
  lemma {:induction false} LastPinOverruns(s: nat, t: Table, kind: AllocationType)
    requires 12 <= s <= 16 && |t| == 0x1FD00
    ensures LastView(0x1000, s).Valid() && 0x2000 + Pow2(12) <= U32
    ensures PinOutcome(LastView(0x1000, s), t, 0x1FD0_0000, 0x2000, 0x2000, kind, false) == Overrun
  {
    LastViewValid(0x1000, s);
    PhysicalMemoryValid(s);
    TwoPages();
    LastViewPages();
    var g := LastView(0x1000, s);
    assert ViewAddress(g, 0x1FD0_0000) == 0xFFCF_F000;
    assert g.PageOf(0xFFCF_F000) == 0x1FCFF;
  }

  lemma {:induction false} LastSearch(s: nat)
    requires 12 <= s <= 16
    ensures PhysicalMemory(s).Valid() && 0x2000 + Pow2(12) <= U32
    ensures HighPage(PhysicalMemory(s), 0x1FD0_0FFF, 0x2000) == 0x1FD02 && Stride(PhysicalMemory(s), 0x2000) == 2
    ensures LowPage(PhysicalMemory(s), 0x1000, 0x2000) == 2
  {
    LastViewValid(0x1000, s);
    PhysicalMemoryValid(s);
    TwoPages();
    EightKb();
    LastViewPages();
    ShiftIsDiv(0x1FD0_2000, 13);
    AlignIs(0x1FD0_0FFF, 0x1FD0_2000, 13);
    AlignIs(0x1000, 0x2000, 13);
  }

  /** The first 8 KB allocation aligned to 8 KB that searches all of the view, with everything free, settles there. */
  lemma {:induction false} FirstAllocationOverruns(s: nat, p: Table, t: Table, kind: AllocationType, found: Option<nat>)
    requires 12 <= s <= 16 && |p| == 0x20000 && (forall i :: 0 <= i < |p| ==> IsFree(p[i])) && |t| == 0x1FD00
    requires PhysicalMemory(s).Valid() && LastView(0x1000, s).Valid() && 0x2000 + Pow2(12) <= U32
    requires RangeFound(PhysicalMemory(s), p, 0x1000, 0x1FD0_0FFF, 0x2000, 0x2000, true, found)
    ensures found == Some(0x1FD00)
    ensures AddressOf(PhysicalMemory(s), 0x1FD00) == 0x1FD0_0000
    ensures PinOutcome(LastView(0x1000, s), t, 0x1FD0_0000, 0x2000, 0x2000, kind, false) == Overrun
  {
    LastPinOverruns(s, t, kind);
    LastSearch(s);
    TwoPages();
    LastViewPages();
    var free := FreeBits(p);
    assert HighBound(0x1FD02, 2, true) == 0x1FD02;
    assert Window(free, 0x1FD00, 2, 2, 2, HighBound(0x1FD02, 2, true));
    BestWindow(free, 2, 0x1FD02, 2, 2, true, found, 0x1FD00);
  }
}
