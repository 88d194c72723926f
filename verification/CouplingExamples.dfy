/** Requests after which a table is not partitioned, a view and its parent are not coupled, or a counter is wrong. */
module CouplingExamples {
  import opened Options
  import opened Bits
  import opened Arithmetic
  import opened FreeIndex
  import opened FreeSearch
  import opened PageTable
  import opened Geometry
  import opened Layout
  import opened BaseHeaps
  import opened HeapLaws
  import opened PhysicalHeaps
  import opened Coupling
  import opened PhysicalSteps
  import opened EmulatorRuns
  import opened SaveRestore

  // ----- one heap

  lemma {:induction false} FreeTableRegions(n: nat)
    ensures Regions(FreeTable(n)) && FreeBits(FreeTable(n)) == seq(n, _ => true)
    ensures n > 0 ==> Runs(FreeBits(FreeTable(n))) == map[0 := n]
  {
    RegionsFrom(FreeTable(n));
    if n > 0 {
      RunEndIs(FreeBits(FreeTable(n)), 0, n);
      RunsFromKeys(FreeBits(FreeTable(n)), map[0 := n]);
    }
  }

  /** A reservation with commit of the middle page of a region of three is let through and cuts the region. */
  lemma {:induction false} CommitCutsRegion(protect: Protection)
    ensures var t := Pinned(FreeTable(5), 1, 3, true, true, protect);
            && Regions(t) && FixedOutcome(t, 2, 1, ReserveCommit, false) == Done
            && !Regions(Pinned(t, 2, 1, Reserves(t, 2, 1, ReserveCommit), true, protect))
  {
    var t := Pinned(FreeTable(5), 1, 3, true, true, protect);
    FreeTableRegions(5);
    CoveredPinKeepsRegions(FreeTable(5), 1, 3, true, protect);
    PinKeepsRegions(t, 2, 1, true, protect);
    assert t[2].base == 1;
  }

  /** The same table once the middle page is released again: releasing the first page then gives that one back twice. */
  lemma {:induction false} CutRegionReleasedTwice(g: Geometry, protect: Protection)
    ensures var t := Cleared(Pinned(Pinned(FreeTable(5), 1, 3, true, true, protect), 2, 1, true, true, protect), 2, 1);
            && Entries(t) && ReleaseOutcome(g, t, 1) == Done && !SafeRelease(g, t, 1)
            && FreeIn(t, 1, 1 + t[1].count) == 1
  {
    var t := Cleared(Pinned(Pinned(FreeTable(5), 1, 3, true, true, protect), 2, 1, true, true, protect), 2, 1);
    assert t[1].base == 1 && t[1].count == 3 && !IsFree(t[1]) && IsFree(t[2]) && !IsFree(t[3]);
    assert FreeIn(t, 1, 2) == 0 && FreeIn(t, 1, 3) == 1;
  }

  /** A free page 0 of a heap that is not at address 0 passes the test for a region start. */
  lemma {:induction false} FreePageZeroOverruns(g: Geometry)
    requires g.Valid() && g.base != 0
    ensures ReleaseOutcome(g, FreeTable(g.pages), 0) == Overrun
  {
  }

  // ----- sizes that parent and view round differently

  /** Numbers about requests aligned to 128 KB. */
  lemma {:induction false} LargeAlignment()
    ensures Pow2(17) == 0x2_0000 && 0x2_0000 + Pow2(12) <= U32 && 0x2_0000 + Pow2(16) <= U32
    ensures RoundUp(0x2_0000, 12) == 0x2_0000 && RoundUp(0x2_0000, 16) == 0x2_0000
    ensures Shr(0x2_0000, 12) == 0x20 && Shr(0x2_0000, 16) == 2
  {
    Pow2Values();
    assert Pow2(17) == 2 * Pow2(16);
    RoundedPow2(17, 12);
    RoundedPow2(17, 16);
    ShiftIs(0x2_0000, 12, 0x1000, 0x20, 0);
    ShiftIs(0x2_0000, 16, 0x1_0000, 2, 0);
  }

  lemma {:induction false} LargeAligned()
    ensures Align(0, 0x2_0000) == 0 && Align(0x1_0000, 0x2_0000) == 0x2_0000
    ensures Align(0x1FFF_FFFF, 0x2_0000) == 0x2000_0000
  {
    LargeAlignment();
    LowZero(17);
    ShiftIs(0x2_0000, 17, 0x2_0000, 1, 0);
    ShiftIs(0x2000_0000, 17, 0x2_0000, 0x1000, 0);
    AlignIs(0, 0, 17);
    AlignIs(0x1_0000, 0x2_0000, 17);
    AlignIs(0x1FFF_FFFF, 0x2000_0000, 17);
  }

  /** Aligning a size next to the end of the word wraps around to zero. */
  lemma {:induction false} WrappedAlign()
    ensures Align(0xFFFF_0000, 0x2_0000) == 0
  {
    LargeAlignment();
    AlignIsMasked(0xFFFF_0000, 0x2_0000);
    AndHighMask(0xFFFF, 17, 32);
    ShiftIs(0xFFFF, 17, 0x2_0000, 0, 0xFFFF);
    LowZero(17);
    ShlPow2(17, 0);
  }

  /** A view and its parent with nothing allocated. */
  function FreeMachine(g: Geometry, parent: Geometry): Machine
    requires parent.pageShift <= g.pageShift
  {
    Machine(FreeTable(parent.pages), [View(MappingOf(g, parent), FreeTable(g.pages))])
  }

  lemma {:induction false} FreeMachineCoupled(g: Geometry, parent: Geometry)
    requires LaidOut(g, parent)
    ensures Coupled(FreeMachine(g, parent))
    ensures Shows(FreeMachine(g, parent), 0, g, parent, FreeTable(parent.pages), FreeTable(g.pages))
  {
    FreshIsCoupled(FreeMachine(g, parent));
  }

  /** The heap once the pages `[page, page + count)` are reserved. */
  function Reserved(g: Geometry, page: nat, count: nat, protect: Protection): Snapshot {
    FreeHeap(g).(table := Pinned(FreeTable(g.pages), page, count, true, false, protect))
  }

  /** An upward search of a free parent from address 0 on finds page 0. */
  lemma {:induction false} FindsPageZero(parent: Geometry, high: uint32, q: Request)
    requires parent.Valid() && q.alignment + Pow2(parent.pageShift) <= U32 && PageCount(q.size, parent.pageShift) > 0
    requires LowPage(parent, 0, q.alignment) == 0
    requires PageCount(q.size, parent.pageShift) <= HighPage(parent, high, q.alignment)
    ensures RangeFound(parent, FreeTable(parent.pages), 0, high, q.size, q.alignment, false, Some(0))
  {
    FreeTableRegions(parent.pages);
    assert Reaches(Runs(FreeBits(FreeTable(parent.pages))), 0, 0, PageCount(q.size, parent.pageShift), 0);
  }

  /** A fixed reservation of free pages goes through. */
  lemma {:induction false} ReservesFree(g: Geometry, page: nat, count: nat, protect: Protection)
    requires g.Valid() && count > 0 && page + count <= g.pages
    ensures FixedOutcome(FreeTable(g.pages), page, count, Reserve, false) == Done
    ensures !SomeTaken(FreeTable(g.pages), page, page + count)
    ensures BaseHeaps.Pins(g, FreeTable(g.pages), FreeHeap(g).host, Reserved(g, page, count, protect).table,
                           FreeHeap(g).host, page, count, Reserve, protect)
  {
  }

  /** The lowest allocation that a free view allows, without its alignment being refused. */
  lemma {:induction false} LowestAllocation(g: Geometry, parent: Geometry, high: uint32, q: Request)
    requires LaidOut(g, parent) && q.Fits(g, parent) && q.kind == Reserve && PhysicalOffset(g) == 0
    requires LowPage(parent, 0, q.alignment) == 0
    requires PageCount(q.size, parent.pageShift) <= HighPage(parent, high, q.alignment)
    requires q.alignment > 0 && g.base % q.alignment == 0 && g.hostOffset == 0
    requires FixedCount(q.size, q.alignment, g.pageShift) <= g.pages
    ensures AllocatedIn(g, parent, FreeHeap(g), Reserved(g, 0, FixedCount(q.size, q.alignment, g.pageShift), q.protect),
                        FreeHeap(parent), Reserved(parent, 0, PageCount(q.size, parent.pageShift), q.protect),
                        0, high, q, false, true, true, Done, g.base, Some(0))
  {
    FindsPageZero(parent, high, q);
    FixedCountPositive(q.size, q.alignment, g.pageShift);
    ShlPow2(parent.pageShift, 0);
    LowZero(g.pageShift);
    assert AddressOf(parent, 0) == 0 && ViewAddress(g, 0) == g.base && g.PageOf(g.base) == 0;
    ReservesFree(g, 0, FixedCount(q.size, q.alignment, g.pageShift), q.protect);
    ReservesFree(parent, 0, PageCount(q.size, parent.pageShift), q.protect);
  }

  /** The view allocates `q` at its lowest page with the parent's lowest pages, and the two are coupled no longer. */
  ghost predicate AllocationUncouples(g: Geometry, parent: Geometry, high: uint32, q: Request)
    requires LaidOut(g, parent) && q.Fits(g, parent)
  {
    var v' := Reserved(g, 0, FixedCount(q.size, q.alignment, g.pageShift), q.protect);
    var p' := Reserved(parent, 0, PageCount(q.size, parent.pageShift), q.protect);
    && Coupled(FreeMachine(g, parent))
    && AllocatedIn(g, parent, FreeHeap(g), v', FreeHeap(parent), p', 0, high, q, false, true, true, Done, g.base,
                   Some(0))
    && !Coupled(Machine(p'.table, [View(MappingOf(g, parent), v'.table)]))
  }

  lemma {:induction false} LowestUncouples(g: Geometry, parent: Geometry, high: uint32, q: Request)
    requires LaidOut(g, parent) && q.Fits(g, parent) && q.kind == Reserve && PhysicalOffset(g) == 0
    requires LowPage(parent, 0, q.alignment) == 0 && Low(q.alignment, g.pageShift) == 0
    requires PageCount(q.size, parent.pageShift) <= HighPage(parent, high, q.alignment)
    requires q.alignment > 0 && g.base % q.alignment == 0 && g.hostOffset == 0
    requires FixedCount(q.size, q.alignment, g.pageShift) <= g.pages
    requires ParentBytes(parent, q) != PinnedBytes(g, q)
    ensures AllocationUncouples(g, parent, high, q)
  {
    var m := FreeMachine(g, parent);
    var v' := Reserved(g, 0, FixedCount(q.size, q.alignment, g.pageShift), q.protect);
    var p' := Reserved(parent, 0, PageCount(q.size, parent.pageShift), q.protect);
    FreeMachineCoupled(g, parent);
    LowestAllocation(g, parent, high, q);
    AllocationCouples(m, 0, g, parent, FreeHeap(g), v', FreeHeap(parent), p', 0, high, q, false, true, true, Done,
                      g.base, Some(0));
    assert m.views[0 := View(MappingOf(g, parent), v'.table)] == [View(MappingOf(g, parent), v'.table)];
  }

  /** A request of 64 KB aligned to 128 KB: the parent reserves 64 KB, the view of 64 KB pages 128 KB. */
  function UnevenRequest(protect: Protection): Request {
    Request(0x1_0000, 0x2_0000, Reserve, protect)
  }

  lemma {:induction false} UnevenAllocationUncouples(protect: Protection)
    ensures LaidOut(MiddleView(12), PhysicalMemory(12))
    ensures UnevenRequest(protect).Fits(MiddleView(12), PhysicalMemory(12))
    ensures AllocationUncouples(MiddleView(12), PhysicalMemory(12), 0x1FFF_FFFF, UnevenRequest(protect))
  {
    MiddleViewFits();
    PhysicalMemoryValid(12);
    UnevenUncouples(MiddleView(12), PhysicalMemory(12), UnevenRequest(protect));
  }

  lemma {:induction false} UnevenUncouples(g: Geometry, parent: Geometry, q: Request)
    requires LaidOut(g, parent) && parent.pageShift == 12 && g.pageShift == 16 && parent.pages == 0x20000
    requires parent.Size() == 0x2000_0000 && g.base == 0xA000_0000 && g.hostOffset == 0 && g.pages == 0x2000
    requires q.size == 0x1_0000 && q.alignment == 0x2_0000 && q.kind == Reserve
    ensures q.Fits(g, parent) && AllocationUncouples(g, parent, 0x1FFF_FFFF, q)
  {
    UnevenFits(g, parent, q);
    UnevenBounds(parent);
    UnevenSizes(g, parent, q);
    LowestUncouples(g, parent, 0x1FFF_FFFF, q);
  }

  lemma {:induction false} UnevenFits(g: Geometry, parent: Geometry, q: Request)
    requires parent.Valid() && parent.pageShift == 12 && g.pageShift == 16
    requires q.size == 0x1_0000 && q.alignment == 0x2_0000
    ensures q.Fits(g, parent) && Low(q.alignment, g.pageShift) == 0
  {
    LargeAlignment();
    RoundedPow2(16, 12);
    Pow2Values();
    ShiftIs(0x1_0000, 12, 0x1000, 0x10, 0);
    ShiftIs(0x2_0000, 16, 0x1_0000, 2, 0);
  }

  lemma {:induction false} UnevenBounds(parent: Geometry)
    requires parent.Valid() && parent.pageShift == 12 && parent.base == 0 && parent.pages == 0x20000
    requires parent.Size() == 0x2000_0000 && 0x2_0000 + Pow2(parent.pageShift) <= U32
    ensures LowPage(parent, 0, 0x2_0000) == 0 && HighPage(parent, 0x1FFF_FFFF, 0x2_0000) == 0x1FFFF
  {
    LargeAlignment();
    LargeAligned();
    Pow2Values();
    ShiftIs(0x1FFF_FFFF, 12, 0x1000, 0x1FFFF, 0xFFF);
    LowZero(12);
  }

  lemma {:induction false} UnevenSizes(g: Geometry, parent: Geometry, q: Request)
    requires LaidOut(g, parent) && parent.pageShift == 12 && g.pageShift == 16 && q.Fits(g, parent)
    requires q.size == 0x1_0000 && q.alignment == 0x2_0000
    ensures PageCount(q.size, parent.pageShift) == 0x10 && FixedCount(q.size, q.alignment, g.pageShift) == 2
    ensures ParentBytes(parent, q) == 0x1_0000 && PinnedBytes(g, q) == 0x2_0000
  {
    LargeAlignment();
    LargeAligned();
    RoundedPow2(16, 12);
    Pow2Values();
    ShiftIs(0x1_0000, 12, 0x1000, 0x10, 0);
    ShiftIs(0x2_0000, 16, 0x1_0000, 2, 0);
  }

  // ----- fixed sizes whose alignment wraps around to zero

  /** The view allocates `q` at its first page, a fixed address, and is coupled with the parent no longer. */
  ghost predicate FixedUncouples(g: Geometry, parent: Geometry, q: Request)
    requires LaidOut(g, parent) && q.Fits(g, parent)
  {
    var v' := Reserved(g, 0, FixedCount(q.size, q.alignment, g.pageShift), q.protect);
    var p' := Reserved(parent, 0, FixedCount(q.size, q.alignment, parent.pageShift), q.protect);
    && Coupled(FreeMachine(g, parent))
    && FixedIn(g, parent, FreeHeap(g), v', FreeHeap(parent), p', 0, q, true, true, Done)
    && !Coupled(Machine(p'.table, [View(MappingOf(g, parent), v'.table)]))
  }

  lemma {:induction false} FirstPageFixed(g: Geometry, parent: Geometry, q: Request)
    requires LaidOut(g, parent) && q.Fits(g, parent) && q.kind == Reserve && PhysicalOffset(g) == 0
    requires q.alignment > 0 && g.base % q.alignment == 0 && g.hostOffset == 0
    requires FixedCount(q.size, q.alignment, g.pageShift) <= g.pages
    requires FixedCount(q.size, q.alignment, parent.pageShift) <= parent.pages
    ensures FixedIn(g, parent, FreeHeap(g), Reserved(g, 0, FixedCount(q.size, q.alignment, g.pageShift), q.protect),
                    FreeHeap(parent), Reserved(parent, 0, FixedCount(q.size, q.alignment, parent.pageShift), q.protect),
                    0, q, true, true, Done)
  {
    FixedCountPositive(q.size, q.alignment, g.pageShift);
    FixedCountPositive(q.size, q.alignment, parent.pageShift);
    LowZero(g.pageShift);
    LowZero(parent.pageShift);
    assert ViewAddress(g, 0) == g.base && g.PageOf(g.base) == 0 && parent.PageOf(0) == 0;
    ReservesFree(g, 0, FixedCount(q.size, q.alignment, g.pageShift), q.protect);
    ReservesFree(parent, 0, FixedCount(q.size, q.alignment, parent.pageShift), q.protect);
  }

  lemma {:induction false} FirstPageUncouples(g: Geometry, parent: Geometry, q: Request)
    requires LaidOut(g, parent) && q.Fits(g, parent) && q.kind == Reserve && PhysicalOffset(g) == 0
    requires q.alignment > 0 && g.base % q.alignment == 0 && g.hostOffset == 0 && Low(q.alignment, g.pageShift) == 0
    requires FixedCount(q.size, q.alignment, g.pageShift) <= g.pages
    requires FixedCount(q.size, q.alignment, parent.pageShift) <= parent.pages
    requires Align(q.size, q.alignment) == 0 && g.pageShift != parent.pageShift
    ensures FixedUncouples(g, parent, q)
  {
    var m := FreeMachine(g, parent);
    var v' := Reserved(g, 0, FixedCount(q.size, q.alignment, g.pageShift), q.protect);
    var p' := Reserved(parent, 0, FixedCount(q.size, q.alignment, parent.pageShift), q.protect);
    FreeMachineCoupled(g, parent);
    FirstPageFixed(g, parent, q);
    LowZero(parent.pageShift);
    FixedCouples(m, 0, g, parent, FreeHeap(g), v', FreeHeap(parent), p', 0, q, true, true, Done);
    assert m.views[0 := View(MappingOf(g, parent), v'.table)] == [View(MappingOf(g, parent), v'.table)];
  }

  /** A size that aligns to zero: parent and view take one page each, of 4 KB and of 64 KB. */
  function WrappingRequest(protect: Protection): Request {
    Request(0xFFFF_0000, 0x2_0000, Reserve, protect)
  }

  lemma {:induction false} WrappingFixedUncouples(protect: Protection)
    ensures LaidOut(MiddleView(12), PhysicalMemory(12))
    ensures WrappingRequest(protect).Fits(MiddleView(12), PhysicalMemory(12))
    ensures FixedUncouples(MiddleView(12), PhysicalMemory(12), WrappingRequest(protect))
  {
    MiddleViewFits();
    PhysicalMemoryValid(12);
    WrappingUncouples(MiddleView(12), PhysicalMemory(12), WrappingRequest(protect));
  }

  lemma {:induction false} WrappingUncouples(g: Geometry, parent: Geometry, q: Request)
    requires LaidOut(g, parent) && parent.pageShift == 12 && g.pageShift == 16
    requires g.base == 0xA000_0000 && g.hostOffset == 0
    requires q.size == 0xFFFF_0000 && q.alignment == 0x2_0000 && q.kind == Reserve
    ensures q.Fits(g, parent) && FixedUncouples(g, parent, q)
  {
    LargeAlignment();
    WrappedAlign();
    Pow2Small(12);
    Pow2Mono(12, 16);
    PageCountZero(q.size, parent.pageShift);
    OnePageForNone(g.pageShift);
    OnePageForNone(parent.pageShift);
    FirstPageUncouples(g, parent, q);
  }

  // ----- a failed pin at page 0 of the parent

  /** The parent's first pages were taken for an allocation at address 0 that the host refused to the view. */
  ghost predicate LeaksPageZero(g: Geometry, parent: Geometry, q: Request)
    requires LaidOut(g, parent) && q.Fits(g, parent)
  {
    var count := FixedCount(q.size, q.alignment, parent.pageShift);
    var p' := Pinned(FreeTable(parent.pages), 0, count, true, true, q.protect);
    && FixedIn(g, parent, FreeHeap(g), FreeHeap(g), FreeHeap(parent), FreeHeap(parent).(table := p'), 0, q, true, false,
               Failed)
    && p'[0].reserved
  }

  lemma {:induction false} FailedPinLeaks(g: Geometry, parent: Geometry, q: Request)
    requires LaidOut(g, parent) && q.Fits(g, parent) && q.kind == ReserveCommit && PhysicalOffset(g) == 0
    requires q.alignment > 0 && g.base % q.alignment == 0 && g.hostOffset == 0 && !SkipsHostCommit(g)
    requires FixedCount(q.size, q.alignment, g.pageShift) <= g.pages
    requires FixedCount(q.size, q.alignment, parent.pageShift) <= parent.pages
    ensures LeaksPageZero(g, parent, q)
  {
    var count := FixedCount(q.size, q.alignment, parent.pageShift);
    FixedCountPositive(q.size, q.alignment, g.pageShift);
    FixedCountPositive(q.size, q.alignment, parent.pageShift);
    LowZero(g.pageShift);
    LowZero(parent.pageShift);
    assert ViewAddress(g, 0) == g.base && g.PageOf(g.base) == 0 && parent.PageOf(0) == 0;
    assert FixedPinned(FreeTable(parent.pages), 0, count, q)
           == Pinned(FreeTable(parent.pages), 0, count, true, true, q.protect);
  }

  /** The first 64 KB of the view of 64 KB pages. */
  function FirstPageRequest(protect: Protection): Request {
    Request(0x1_0000, 0x1_0000, ReserveCommit, protect)
  }

  lemma {:induction false} FirstPageLeaks(protect: Protection)
    ensures LaidOut(MiddleView(12), PhysicalMemory(12))
    ensures FirstPageRequest(protect).Fits(MiddleView(12), PhysicalMemory(12))
    ensures LeaksPageZero(MiddleView(12), PhysicalMemory(12), FirstPageRequest(protect))
  {
    MiddleViewFits();
    PhysicalMemoryValid(12);
    FirstLeaks(MiddleView(12), PhysicalMemory(12), FirstPageRequest(protect));
  }

  lemma {:induction false} FirstLeaks(g: Geometry, parent: Geometry, q: Request)
    requires LaidOut(g, parent) && parent.pageShift == 12 && g.pageShift == 16 && !SkipsHostCommit(g)
    requires g.base == 0xA000_0000 && g.hostOffset == 0 && parent.pages == 0x20000
    requires q.size == 0x1_0000 && q.alignment == 0x1_0000 && q.kind == ReserveCommit
    ensures q.Fits(g, parent) && LeaksPageZero(g, parent, q)
  {
    FirstPageCounts(g, parent, q);
    FailedPinLeaks(g, parent, q);
  }

  lemma {:induction false} FirstPageCounts(g: Geometry, parent: Geometry, q: Request)
    requires parent.Valid() && parent.pageShift == 12 && g.pageShift == 16
    requires q.size == 0x1_0000 && q.alignment == 0x1_0000
    ensures q.Fits(g, parent)
    ensures FixedCount(q.size, q.alignment, g.pageShift) == 1
    ensures FixedCount(q.size, q.alignment, parent.pageShift) == 0x10
  {
    Pow2Values();
    RoundedPow2(16, 12);
    RoundedPow2(16, 16);
    ShiftIs(0x1_0000, 12, 0x1000, 0x10, 0);
    ShiftIs(0x1_0000, 16, 0x1_0000, 1, 0);
    AlignIs(0x1_0000, 0x1_0000, 16);
  }

  // ----- a release through another view

  /** View `a` owns a region of one page; nothing else is allocated in either view. */
  function OneRegion(a: Geometry, b: Geometry, parent: Geometry, page: nat, protect: Protection): Machine
    requires parent.pageShift <= a.pageShift && parent.pageShift <= b.pageShift
  {
    var mapping := MappingOf(a, parent);
    Machine(Pinned(FreeTable(parent.pages), mapping.ParentPage(page), Shl(1, mapping.shift), true, false, protect),
            [View(mapping, Pinned(FreeTable(a.pages), page, 1, true, false, protect)),
             View(MappingOf(b, parent), FreeTable(b.pages))])
  }

  /** The address names the region's first parent page through view `b`, and not the first page of `b`. */
  predicate SameRegion(a: Geometry, b: Geometry, parent: Geometry, page: nat, address: uint32) {
    && LaidOut(a, parent) && LaidOut(b, parent) && page < a.pages && b.base <= address < b.base + b.Size()
    && MappingOf(a, parent).ParentPage(page) == parent.PageOf(Physical(b, address)) > 0
    && MappingOf(a, parent).ParentPage(page + 1) <= parent.pages
    && b.PageOf(address) > 0
  }

  lemma {:induction false} OneRegionCoupled(a: Geometry, b: Geometry, parent: Geometry, page: nat, protect: Protection)
    requires LaidOut(a, parent) && LaidOut(b, parent) && page < a.pages
    requires MappingOf(a, parent).ParentPage(page + 1) <= parent.pages
    ensures Coupled(OneRegion(a, b, parent, page, protect))
  {
    var mapping := MappingOf(a, parent);
    var m := Machine(FreeTable(parent.pages),
                     [View(mapping, FreeTable(a.pages)), View(MappingOf(b, parent), FreeTable(b.pages))]);
    var m' := OneRegion(a, b, parent, page, protect);
    FreshIsCoupled(m);
    ShlAdd(page, 1, mapping.shift);
    assert m'.views == m.views[0 := View(mapping, Pinned(FreeTable(a.pages), page, 1, true, false, protect))];
    assert Coupling.Pins(m, m', 0, page, 1, false, protect);
    PinKeepsCoupled(m, m', 0, page, 1, false, protect);
  }

  lemma {:induction false} OneRegionBacks(a: Geometry, b: Geometry, parent: Geometry, page: nat, protect: Protection)
    requires LaidOut(a, parent) && LaidOut(b, parent) && page < a.pages
    requires 0 < MappingOf(a, parent).ParentPage(page) && MappingOf(a, parent).ParentPage(page + 1) <= parent.pages
    ensures var (m, x) := (OneRegion(a, b, parent, page, protect), MappingOf(a, parent).ParentPage(page));
            ReleaseOutcome(parent, m.parent, x) == Done && Backs(m.views[0], x)
  {
    var m, x := OneRegion(a, b, parent, page, protect), MappingOf(a, parent).ParentPage(page);
    ShlAdd(page, 1, MappingOf(a, parent).shift);
    ShlMono(0, 1, MappingOf(a, parent).shift);
    ShlPow2(MappingOf(a, parent).shift, 0);
    assert m.parent[x].base == x && m.parent[x].reserved;
    assert m.views[0].table[page].reserved && m.views[0].table[page].base == page;
  }

  lemma {:induction false} NotOwnedBy(m: Machine, b: Geometry, address: uint32)
    requires b.Valid() && |m.views| > 1 && m.views[1].table == FreeTable(b.pages) && b.PageOf(address) > 0
    ensures ReleaseOutcome(b, m.views[1].table, b.PageOf(address)) != Done
  {
  }

  /** A release through view `b` of a region that view `a` owns frees the parent's region and uncouples `a`. */
  lemma {:induction false} ForeignReleaseUncouples(a: Geometry, b: Geometry, parent: Geometry, page: nat,
                                                   address: uint32, protect: Protection)
    requires SameRegion(a, b, parent, page, address)
    ensures var m := OneRegion(a, b, parent, page, protect);
            && Coupled(m) && |m.views[1].table| == b.pages && |m.parent| == parent.pages
            && ReleaseOutcome(parent, m.parent, parent.PageOf(Physical(b, address))) == Done
            && !Coupled(AfterRelease(m, 1, b, parent, address))
  {
    var m := OneRegion(a, b, parent, page, protect);
    OneRegionCoupled(a, b, parent, page, protect);
    OneRegionBacks(a, b, parent, page, protect);
    NotOwnedBy(m, b, address);
    assert Shows(m, 1, b, parent, m.parent, m.views[1].table);
    assert Backs(m.views[0], parent.PageOf(Physical(b, address)));
    ReleaseCouples(m, 1, b, parent, address);
  }

  /** Page 0x100 of the 64 KB view, released at 0xC1000000 through the view of 16 MB pages. */
  lemma {:induction false} ForeignRelease()
    ensures SameRegion(MiddleView(12), LargeView(12), PhysicalMemory(12), 0x100, 0xC100_0000)
  {
    MiddleViewFits();
    LargeViewFits();
    MiddleViewValid(12);
    LargeViewValid(12);
    PhysicalMemoryValid(12);
    ForeignPage(MiddleView(12), LargeView(12), PhysicalMemory(12));
  }

  lemma {:induction false} ForeignPage(a: Geometry, b: Geometry, parent: Geometry)
    requires LaidOut(a, parent) && LaidOut(b, parent)
    requires parent.pageShift == 12 && a.pageShift == 16 && b.pageShift == 24
    requires PhysicalOffset(a) == 0 == PhysicalOffset(b) && a.pages == 0x2000 && parent.pages == 0x20000
    requires b.base == 0xC000_0000 && b.Size() == 0x2000_0000
    ensures SameRegion(a, b, parent, 0x100, 0xC100_0000)
  {
    Pow2Values();
    ShiftIs(0x100_0000, 12, 0x1000, 0x1000, 0);
    ShiftIs(0x100_0000, 24, 0x100_0000, 1, 0);
    LowZero(12);
    assert Pow2(4) == 16;
    ShlIsTimes(0x100, 4);
    ShlIsTimes(0x101, 4);
  }

  // ----- a reset and a restore

  /** Resetting the parent while a view owns a region uncouples them. */
  lemma {:induction false} ResetUncouples(a: Geometry, b: Geometry, parent: Geometry, page: nat, protect: Protection)
    requires LaidOut(a, parent) && LaidOut(b, parent) && page < a.pages
    requires MappingOf(a, parent).ParentPage(page + 1) <= parent.pages
    ensures var m := OneRegion(a, b, parent, page, protect);
            Coupled(m) && !Coupled(Machine(FreeTable(parent.pages), m.views))
  {
    var m := OneRegion(a, b, parent, page, protect);
    OneRegionCoupled(a, b, parent, page, protect);
    ClearedParentKeepsCoupled(m, FreeTable(parent.pages));
    assert m.views[0].table[page].reserved;
  }

  /** A stream with the record of one page that is reserved and not committed. */
  lemma {:induction false} OneRecord(d: Decoder, stream: seq<byte>, pageSize: nat)
    requires |stream| >= 8 && d(stream[0..8]).reserved && !d(stream[0..8]).committed
    ensures Holds(d, stream, 1, pageSize) && FreeRecords(d, stream, 1, pageSize) == 0
  {
    assert OffsetOf(d, stream, 0, pageSize) == 0;
    assert FreeRecords(d, stream, 0, pageSize) == 0;
  }

  /** Restoring a heap of one free page from a stream in which the page is reserved leaves a counter that is wrong. */
  lemma {:induction false} RestoreLeavesCounter(g: Geometry, image: Image, e: PageEntry)
    requires image.table == [FREE_ENTRY] && |image.memory| == 1 && Packable(e) && e.reserved && !e.committed
    ensures Holds(Unpack, Pack(e), 1, Pow2(g.pageShift))
    ensures DriftOf(1, image.table) == 0 && DriftOf(1, AfterPages(Unpack, g, image, Pack(e), 1).table) != 0
  {
    UnpackPack(e);
    assert Pack(e)[0..8] == Pack(e);
    OneRecord(Unpack, Pack(e), Pow2(g.pageShift));
    FreePagesBound(image.table);
    RestoredCounter(g, 1, image, Pack(e));
  }
}
