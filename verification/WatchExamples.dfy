/** Changes of protection after which a host access is not what the watches say, on every page of every view. */
module WatchExamples {
  import opened Options
  import opened Bits
  import opened Arithmetic
  import opened PageTable
  import opened Geometry
  import opened Layout
  import opened BaseHeaps
  import opened WatchLaws
  import opened PhysicalHeaps
  import opened PhysicalSteps
  import opened PhysicalRuns
  import opened EmulatorRuns

  const READ_WRITE := Protection(true, true, false, false)
  const WRITE_COMBINED := Protection(true, false, false, true)

  /** One page is allocated for reading and writing, and all its host pages are watched. */
  function WatchedPage(g: Geometry, page: nat): WatchLaws.State
    requires SmallPages(g)
  {
    HostCountPositive(g, 1);
    WatchEnabled(g, Allocated(g, FreeView(g).Watches(), page, 1, true, READ_WRITE), HostFirst(g, page),
                 HostFirst(g, page) + HostCount(g, 1) - 1)
  }

  lemma {:induction false} WatchedPageExact(g: Geometry, page: nat)
    requires SmallPages(g) && page < g.pages
    ensures var s := WatchedPage(g, page);
            && Exact(g, s) && Regions(s.table) && |s.table| == g.pages && |s.host| == |s.watched| == g.HostPages()
            && s.table[page].committed && s.table[page].currentProtect == READ_WRITE
  {
    var s := FreeView(g).Watches();
    FreeViewUntouched(g);
    UntouchedIsExact(FreeView(g));
    RegionsFrom(s.table);
    AllocateKeepsExact(g, s, page, 1, true, READ_WRITE);
    CoveredPinKeepsRegions(s.table, page, 1, true, READ_WRITE);
    HostCountPositive(g, 1);
    EnableKeepsExact(g, Allocated(g, s, page, 1, true, READ_WRITE), HostFirst(g, page),
                     HostFirst(g, page) + HostCount(g, 1) - 1);
  }

  /** Every host page of the page is watched. */
  lemma {:induction false} WatchedHostPage(g: Geometry, page: nat, i: nat)
    requires SmallPages(g) && page < g.pages && HostFirst(g, page) <= i < HostFirst(g, page) + HostCount(g, 1)
    ensures InHeap(g, i) && GuestPage(g, i) == page && i < |WatchedPage(g, page).watched|
    ensures WatchedPage(g, page).watched[i]
  {
    g.SmallHostPages(page);
    g.SmallHostPages(1);
    g.HostStretch(page, 1);
    HostFirstAdd(g, page, 0);
    GuestRange(g, i, page, 1);
  }

  /** A byte range in one page, from its start on. */
  lemma {:induction false} PageRange(g: Geometry, page: nat, size: uint32)
    requires SmallPages(g) && page < g.pages && 0 < size <= Pow2(g.pageShift)
    ensures ProtectRange(g, AddressOf(g, page), size) == Some((page, page))
  {
    ParentPageOf(g, page);
    g.PageOfInside(AddressOf(g, page));
    ShiftUnique(page, size - 1, g.pageShift);
  }

  /** Its first host page is that of the page, and its last one if it is a single byte. */
  lemma {:induction false} PageClipped(g: Geometry, page: nat, size: uint32)
    requires SmallPages(g) && page < g.pages && 0 < size
    ensures var pages := ClippedPages(g, g.base, AddressOf(g, page), size);
            && pages.Some? && pages.value.0 == HostFirst(g, page) <= pages.value.1
            && (size == 1 ==> pages.value.1 == HostFirst(g, page))
  {
    ParentPageOf(g, page);
    g.PageOfInside(AddressOf(g, page));
    ClippedInside(g, AddressOf(g, page), size);
    WatchedHostPage(g, page, FirstHostPage(g, page));
  }

  function FirstHostPage(g: Geometry, page: nat): (i: nat)
    requires SmallPages(g)
    ensures HostFirst(g, page) == i < HostFirst(g, page) + HostCount(g, 1)
  {
    HostCountPositive(g, 1);
    HostFirst(g, page)
  }

  lemma {:induction false} OnWholePage(g: Geometry, page: nat)
    requires SmallPages(g)
    ensures OnWholeHostPages(g, page, page)
  {
    g.SmallHostPages(page);
    g.SmallHostPages(1);
    LowCoarser(g.hostOffset, g.sysShift, g.pageShift);
  }

  /** The page gets another protection on both sides. */
  lemma {:induction false} PageReprotected(g: Geometry, s: WatchLaws.State, page: nat, size: uint32,
                                           protect: Protection)
    requires SmallPages(g) && page < g.pages && 0 < size <= Pow2(g.pageShift)
    requires |s.table| == g.pages && s.table[page].committed
    ensures ReprotectedIn(g, s, Reprotected(g, s, page, 1, protect), AddressOf(g, page), size, protect)
  {
    PageRange(g, page, size);
    OnWholePage(g, page);
  }

  /** The watches on the page are on memory the guest may write to. */
  lemma {:induction false} ArmedOnPage(g: Geometry, page: nat, last: nat)
    requires SmallPages(g) && page < g.pages && HostFirst(g, page) <= last
    ensures DropsArmedWatch(g, WatchedPage(g, page), HostFirst(g, page), last)
  {
    WatchedPageExact(g, page);
    WatchedHostPage(g, page, FirstHostPage(g, page));
  }

  /** Making a watched page write-combined without the write flag leaves its watches, and the host lets writes through.
      */
  lemma {:induction false} WriteCombineLeavesWatches(g: Geometry, page: nat, size: uint32)
    requires SmallPages(g) && page < g.pages && 0 < size <= Pow2(g.pageShift)
    ensures var (s, address) := (WatchedPage(g, page), AddressOf(g, page));
            && Exact(g, s) && Regions(s.table) && |s.table| == g.pages && |s.host| <= |s.watched|
            && var s' := Reprotected(g, AfterNotice(g, s, address, size, WRITE_COMBINED), page, 1, WRITE_COMBINED);
            && ReprotectedIn(g, AfterNotice(g, s, address, size, WRITE_COMBINED), s', address, size, WRITE_COMBINED)
            && !Exact(g, s')
  {
    var s := WatchedPage(g, page);
    WatchedPageExact(g, page);
    PageReprotected(g, s, page, size, WRITE_COMBINED);
    PageRange(g, page, size);
    WatchedHostPage(g, page, FirstHostPage(g, page));
    ProtectWatches(g, s, Reprotected(g, s, page, 1, WRITE_COMBINED), AddressOf(g, page), size, WRITE_COMBINED);
    assert WatchLeft(g, s, page, 1);
  }

  /** Where guest pages have several host pages, making part of a watched page writable drops the watches of that part
      only. */
  lemma {:induction false} PartOfPageLeavesWatches(g: Geometry, page: nat)
    requires SmallPages(g) && page < g.pages && HostCount(g, 1) > 1
    ensures var (s, address) := (WatchedPage(g, page), AddressOf(g, page));
            && Exact(g, s) && Regions(s.table) && |s.table| == g.pages && |s.host| <= |s.watched|
            && var s' := Reprotected(g, AfterNotice(g, s, address, 1, READ_WRITE), page, 1, READ_WRITE);
            && ReprotectedIn(g, AfterNotice(g, s, address, 1, READ_WRITE), s', address, 1, READ_WRITE)
            && !Exact(g, s')
  {
    var s := WatchedPage(g, page);
    var dropped := AfterNotice(g, s, AddressOf(g, page), 1, READ_WRITE);
    WatchedPageExact(g, page);
    PageRange(g, page, 1);
    PageClipped(g, page, 1);
    PageReprotected(g, dropped, page, 1, READ_WRITE);
    WatchedHostPage(g, page, HostFirst(g, page) + 1);
    ProtectWatches(g, s, Reprotected(g, dropped, page, 1, READ_WRITE), AddressOf(g, page), 1, READ_WRITE);
    assert dropped.watched[HostFirst(g, page) + 1];
    assert WatchLeft(g, dropped, page, 1);
  }

  /** A page of the 64 KB view has 16 host pages. */
  lemma {:induction false} HostPagesOfMiddleView()
    ensures MiddleView(12).Valid() && HostCount(MiddleView(12), 1) == 16
  {
    MiddleViewValid(12);
    Pow2Values();
    ShlPow2(16, 0);
    ShiftIs(0x1_0000, 12, 0x1000, 16, 0);
  }

  /** A change to a writable protection that the host refuses has dropped the watches all the same: the host still
      refuses writes, and no watch is left to allow them. */
  lemma {:induction false} FailedChangeDropsWatches(g: Geometry, page: nat, size: uint32)
    requires SmallPages(g) && page < g.pages && 0 < size <= Pow2(g.pageShift)
    ensures var (s, address) := (WatchedPage(g, page), AddressOf(g, page));
            && Exact(g, s) && |s.table| == g.pages && |s.host| <= |s.watched|
            && !Reprotectable(g, s.table, address, size, false)
            && !Exact(g, AfterNotice(g, s, address, size, READ_WRITE))
  {
    var s := WatchedPage(g, page);
    WatchedPageExact(g, page);
    PageRange(g, page, size);
    OnWholePage(g, page);
    PageClipped(g, page, size);
    FailedProtectWatches(g, s, AddressOf(g, page), size, READ_WRITE);
    ArmedOnPage(g, page, ClippedPages(g, g.base, AddressOf(g, page), size).value.1);
  }

  /** With host pages of 16 KB the first byte of the last view lies on a host page that starts before the view. */
  lemma {:induction false} EnableOverruns()
    ensures LastView(0x1000, 14).Valid()
    ensures EnableOutcome(LastView(0x1000, 14), ClippedPages(LastView(0x1000, 14), 0x1000, 0x1000, 1)) == Overrun
  {
    LastViewValid(0x1000, 14);
    EnableAtStart(LastView(0x1000, 14));
  }

  lemma {:induction false} EnableAtStart(g: Geometry)
    requires g.Valid() && 0 < g.hostOffset < Pow2(g.sysShift)
    ensures EnableOutcome(g, ClippedPages(g, 0x1000, 0x1000, 1)) == Overrun
  {
    ShlPow2(g.sysShift, 0);
    ShiftUnique(0, g.hostOffset, g.sysShift);
    g.SizePositive();
  }
}
