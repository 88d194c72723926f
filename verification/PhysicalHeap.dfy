/** A view of physical memory: a heap whose regions are pinned at the addresses a parent heap of physical pages hands
    out, with watches on its host pages. */
module PhysicalHeaps {
  import opened Options
  import opened Bits
  import opened Arithmetic
  import opened FreeIndex
  import opened PageTable
  import opened Geometry
  import opened BaseHeaps
  import opened WatchWords
  import opened WatchRange
  import opened WatchLaws

  /** An invalidation callback is told a physical range and whether exactly that range is unwatched. */
  type Callback = (nat, nat, bool) -> Answer

  /** One call of a callback. */
  datatype Notice = Notice(callback: nat, start: nat, length: nat, exact: bool)

  /** The physical address of a heap's first byte. */
  function PhysicalOffset(g: Geometry): uint32 {
    if g.base >= 0xE000_0000 then 0x1000 else 0
  }

  function WindowOf(g: Geometry): Window {
    Window(g, PhysicalOffset(g))
  }

  /** The host pages that hold the part of `[address, address + length)` that lies in the heap at `base`. */
  function ClippedPages(g: Geometry, base: uint32, address: uint32, length: uint32): (r: Option<(nat, nat)>)
    requires g.Valid()
    ensures r.Some? ==> Shr(g.hostOffset, g.sysShift) <= r.value.0 <= r.value.1 < g.HostPages()
  {
    if address < base && base - address >= length then None
    else
      var length' := if address < base then length - (base - address) else length;
      var relative := if address < base then 0 else address - base;
      if relative >= g.Size() || length' == 0 then None
      else
        var length'' := Min(length', g.Size() - relative);
        HostPagesOrdered(g, relative, length'');
        Some((Shr(relative + g.hostOffset, g.sysShift),
              Min(Shr(relative + length'' - 1 + g.hostOffset, g.sysShift), g.HostPages() - 1)))
  }

  lemma {:induction false} HostPagesOrdered(g: Geometry, relative: nat, length: nat)
    requires g.Valid() && length > 0 && relative + length <= g.Size()
    ensures Shr(g.hostOffset, g.sysShift) <= Shr(relative + g.hostOffset, g.sysShift)
            <= Shr(relative + length - 1 + g.hostOffset, g.sysShift) < g.HostPages()
  {
    ShrMono(g.hostOffset, relative + g.hostOffset, g.sysShift);
    ShrMono(relative + g.hostOffset, relative + length - 1 + g.hostOffset, g.sysShift);
    ShrMono(relative + length - 1 + g.hostOffset, g.Size() + g.hostOffset - 1, g.sysShift);
    g.HostPagesCover();
  }

  /** The answers of all callbacks to one notice. */
  function Answers(callbacks: seq<Callback>, start: nat, length: nat, exact: bool): seq<Answer> {
    seq(|callbacks|, k requires 0 <= k < |callbacks| => callbacks[k](start, length, exact))
  }

  function Notices(count: nat, start: nat, length: nat, exact: bool): seq<Notice> {
    seq(count, (k: nat) => Notice(k, start, length, exact))
  }

  predicate InView(g: Geometry, address: uint32)
    requires g.Valid()
  {
    g.base <= address < g.base + g.Size()
  }

  /** The physical address of an address of the view; for others the subtraction wraps around. */
  function Physical(g: Geometry, address: uint32): (r: uint32)
    requires WindowOf(g).Valid()
    ensures InView(g, address) ==> r == address - g.base + PhysicalOffset(g)
  {
    Add32(Sub32(address, g.base), PhysicalOffset(g))
  }

  /** The pages that are unwatched when a watch on `[first, last]` fires. */
  function UnwatchPages(w: Window, first: nat, last: nat, exact: bool, callbacks: seq<Callback>): (r: (nat, nat))
    requires w.Valid() && Shr(w.g.hostOffset, w.g.sysShift) <= first <= last < w.g.HostPages()
    ensures r.0 <= first && last <= r.1 < w.g.HostPages() && Shr(w.g.hostOffset, w.g.sysShift) <= r.0
  {
    if exact then (first, last)
    else
      var answers := Answers(callbacks, w.NoticeStart(first), NoticeLen(w, first, last), exact);
      UnwatchContainsRequest(w, first, last, answers, MAX_EXCESS_SHIFT);
      UnwatchStartsInHeap(w, FirstAddress(w.NoticeStart(first), Common(answers).0, MAX_EXCESS_SHIFT));
      (UnwatchFirst(w, w.NoticeStart(first), Common(answers).0, MAX_EXCESS_SHIFT),
       UnwatchLast(w, w.NoticeEnd(first, last), Common(answers).1, MAX_EXCESS_SHIFT))
  }

  function NoticeLen(w: Window, first: nat, last: nat): nat {
    Max(w.NoticeLength(first, last), 0)
  }

  lemma {:induction false} UnwatchStartsInHeap(w: Window, address: nat)
    ensures Shr(w.g.hostOffset, w.g.sysShift) <= ClampedPage(w, address)
  {
    ShrMono(w.g.hostOffset, Max(Min(Max(address - w.physical, 0), w.g.Size() - 1), 0) + w.g.hostOffset, w.g.sysShift);
  }

  /** The state after the watches on pages `[first, last]` fired. */
  function FiredState(g: Geometry, s: WatchLaws.State, first: nat, last: nat, exact: bool, unprotect: bool,
                      callbacks: seq<Callback>): WatchLaws.State
    requires WindowOf(g).Valid() && |s.host| <= |s.watched|
    requires Shr(g.hostOffset, g.sysShift) <= first <= last < g.HostPages()
  {
    var range := UnwatchPages(WindowOf(g), first, last, exact, callbacks);
    if unprotect then Triggered(g, s, range.0, range.1) else Unwatched(s, range.0, range.1)
  }

  predicate PagesIn(g: Geometry, pages: Option<(nat, nat)>) {
    pages.Some? ==> Shr(g.hostOffset, g.sysShift) <= pages.value.0 <= pages.value.1 < g.HostPages()
  }

  ghost predicate SomeWatched(s: WatchLaws.State, pages: Option<(nat, nat)>) {
    pages.Some? && exists i: nat :: pages.value.0 <= i <= pages.value.1 && i < |s.watched| && s.watched[i]
  }

  /** The state after the watches on a range fired: nothing changes unless a page of the range is watched. */
  ghost function Fired(g: Geometry, s: WatchLaws.State, pages: Option<(nat, nat)>, exact: bool, unprotect: bool,
                       callbacks: seq<Callback>): WatchLaws.State
    requires WindowOf(g).Valid() && |s.host| <= |s.watched| && PagesIn(g, pages)
  {
    if SomeWatched(s, pages) then FiredState(g, s, pages.value.0, pages.value.1, exact, unprotect, callbacks) else s
  }

  /** Every callback is told about a range with a watched page. */
  ghost function Told(g: Geometry, s: WatchLaws.State, pages: Option<(nat, nat)>, exact: bool, count: nat): seq<Notice>
  {
    if SomeWatched(s, pages)
    then Notices(count, WindowOf(g).NoticeStart(pages.value.0), NoticeLen(WindowOf(g), pages.value.0, pages.value.1),
                 exact)
    else []
  }

  /** Exactly a given range loses its watches. */
  function Invalidated(g: Geometry, s: WatchLaws.State, pages: Option<(nat, nat)>, unprotect: bool): WatchLaws.State
    requires PagesIn(g, pages) && |s.host| <= |s.watched|
  {
    if pages.None? then s
    else if unprotect then Triggered(g, s, pages.value.0, pages.value.1)
    else Unwatched(s, pages.value.0, pages.value.1)
  }

  /** Firing exactly a range is the same whether or not the call stops early because nothing is watched. */
  lemma {:induction false} FiredExactly(g: Geometry, s: WatchLaws.State, pages: Option<(nat, nat)>, unprotect: bool,
                                        callbacks: seq<Callback>)
    requires WindowOf(g).Valid() && PagesIn(g, pages) && |s.host| == g.HostPages() <= |s.watched|
    ensures Fired(g, s, pages, true, unprotect, callbacks) == Invalidated(g, s, pages, unprotect)
  {
    if pages.Some? && !SomeWatched(s, pages) {
      NothingToTrigger(g, s, pages.value.0, pages.value.1);
    }
  }

  /** What `EnableAccessCallbacks` answers. */
  function EnableOutcome(g: Geometry, pages: Option<(nat, nat)>): Outcome {
    if pages.Some? && Shl(pages.value.0, g.sysShift) < g.hostOffset then Overrun else Done
  }

  // ----- pinning

  /** The view's address of a parent address, as the code computes it. */
  function ViewAddress(g: Geometry, parentAddress: uint32): uint32
    requires g.base < U32
  {
    Sub32(Add32(g.base, parentAddress), PhysicalOffset(g))
  }

  /** The test that rejects an address which the view cannot align. */
  predicate Misaligned(g: Geometry, address: uint32, alignment: uint32)
    requires alignment > 0
  {
    Add32(address, g.hostOffset) % alignment != 0
  }

  /** What pinning a parent address in the view answers. An alignment of zero, which is what one next to the end of the
      word is rounded to, makes the test for it divide by zero. */
  function PinOutcome(g: Geometry, t: Table, parentAddress: uint32, size: uint32, alignment: uint32,
                      kind: AllocationType, hostFails: bool): Outcome
    requires g.Valid()
  {
    var address := ViewAddress(g, parentAddress);
    FixedCountPositive(size, alignment, g.pageShift);
    if alignment == 0 then Trap
    else if Misaligned(g, address, alignment) then Failed
    else FixedOutcome(t, g.PageOf(address), FixedCount(size, alignment, g.pageShift), kind, hostFails)
  }

  /** The parent's table after a pin failed: the region just allocated is released again, except at page 0. */
  function AfterRollback(parent: Geometry, t: Table, page: nat): Table
  {
    if ReleaseOutcome(parent, t, page) == Done then Cleared(t, page, t[page].count) else t
  }

  /** What an allocation answers when its pin did and a failed one is undone at `page` of the parent. */
  function PinAnswer(pin: Outcome, parent: Geometry, t: Table, page: nat): Outcome {
    if pin == Failed && ReleaseOutcome(parent, t, page) == Overrun then Overrun else pin
  }

  /** Releasing a region that was just taken from free pages restores the table. */
  lemma {:induction false} RollbackRestores(parent: Geometry, t: Table, page: nat, count: nat, commit: bool,
                                            protect: Protection)
    requires Entries(t) && count > 0 && page + count <= |t| && !SomeTaken(t, page, page + count)
    ensures AfterRollback(parent, Pinned(t, page, count, true, commit, protect), page) ==
              if parent.base == 0 && page == 0 then Pinned(t, page, count, true, commit, protect) else t
  {
    var t' := Pinned(t, page, count, true, commit, protect);
    assert t'[page].count == count && t'[page].base == page;
    forall p | page <= p < page + count ensures t[p] == FREE_ENTRY {
      assert IsFree(t[p]);
      assert EntryOk(t[p]);
    }
    assert Cleared(t', page, count) == t;
  }

  /** A region that was just pinned can be released. */
  lemma {:induction false} PinnedSafe(parent: Geometry, t: Table, page: nat, count: nat, commit: bool,
                                      protect: Protection)
    requires count > 0 && page + count <= |t|
    ensures SafeRelease(parent, Pinned(t, page, count, true, commit, protect), page)
    ensures ReleaseOutcome(parent, Pinned(t, page, count, true, commit, protect), page) != Overrun
  {
    var t' := Pinned(t, page, count, true, commit, protect);
    assert t'[page].count == count;
  }

  datatype Request = Request(size: uint32, alignment: uint32, kind: AllocationType, protect: Protection) {
    /** Sizes and alignments are rounded up to the view's page size before the parent sees them. */
    function Rounded(g: Geometry): Request
      requires g.Valid()
    {
      Request(RoundUp(size, g.pageShift), RoundUp(alignment, g.pageShift), kind, protect)
    }

    /** The request suits the page allocators of the view and of the parent. */
    predicate Fits(g: Geometry, parent: Geometry)
      requires parent.Valid()
    {
      && alignment + Pow2(g.pageShift) <= U32 && alignment + Pow2(parent.pageShift) <= U32
      && PageCount(size, parent.pageShift) > 0
    }
  }

  lemma {:induction false} RoundedFits(g: Geometry, parent: Geometry, q: Request)
    requires g.Valid() && parent.Valid() && parent.pageShift <= g.pageShift
    ensures q.Rounded(g).Fits(g, parent)
  {
    LastMultiple(RoundUp(q.alignment, g.pageShift), g.pageShift);
    Pow2Mono(parent.pageShift, g.pageShift);
    LastMultiple(RoundUp(q.size, g.pageShift), g.pageShift);
    PageCountZero(RoundUp(q.size, g.pageShift), parent.pageShift);
  }

  /** The bounds of a search are clipped to the view first. */
  function ClipLow(g: Geometry, address: uint32): uint32
    requires g.Valid()
  {
    g.SizePositive();
    Max(g.base, address)
  }

  function ClipHigh(g: Geometry, address: uint32): uint32
    requires g.Valid()
  {
    g.SizePositive();
    Min(g.LastAddress(), address)
  }

  function AddressOf(g: Geometry, page: nat): uint32
    requires g.Valid() && page < g.pages
  {
    PageAddress(g, page);
    g.base + Shl(page, g.pageShift)
  }

  /** A page address in the parent names its page. */
  lemma {:induction false} ParentPageOf(g: Geometry, page: nat)
    requires g.Valid() && page < g.pages
    ensures g.PageOf(AddressOf(g, page)) == page
  {
    PageAddress(g, page);
    ShlAligned(page, g.pageShift);
  }

  /** What an allocation in the parent and its pin in the view did; `found` is the parent page the search settled on.
      The view was `v`, the parent `p`. */
  ghost predicate AllocatedIn(g: Geometry, parent: Geometry, v: Snapshot, v': Snapshot, p: Snapshot, p': Snapshot,
                              low: uint32, high: uint32, q: Request, topDown: bool, parentOk: bool, viewOk: bool,
                              r: Outcome, address: uint32, found: Option<nat>)
    requires g.Valid() && parent.Valid() && q.Fits(g, parent)
  {
    && (found.Some? ==> found.value < parent.pages)
    && RangeFound(parent, p.table, low, high, q.size, q.alignment, topDown, found)
    && if found.None? || (q.kind != Reserve && !SkipsHostCommit(parent) && !parentOk)
       then r == Failed && address == 0 && v' == v && p' == p
       else AllocPinIn(g, parent, v, v', p, p', q, viewOk, r, address, found.value)
  }

  /** What became of it once the parent, which was `p`, had taken the pages at `page`. */
  ghost predicate AllocPinIn(g: Geometry, parent: Geometry, v: Snapshot, v': Snapshot, p: Snapshot, p': Snapshot,
                             q: Request, viewOk: bool, r: Outcome, address: uint32, page: nat)
    requires g.Valid() && parent.Valid() && q.Fits(g, parent) && page < parent.pages
  {
    var count := PageCount(q.size, parent.pageShift);
    && r == PinOutcome(g, v.table, AddressOf(parent, page), q.size, q.alignment, q.kind, !SkipsHostCommit(g) && !viewOk)
    && (r != Done ==> address == 0 && v' == v)
    && p'.table == (if r == Failed && page != 0 then p.table
                    else Pinned(p.table, page, count, true, q.kind != Reserve, q.protect))
    // A failure undoes everything, unless the region is at page 0 of the parent, which is never released.
    && (r == Failed && page != 0 ==> p'.(host := p.host) == p)
    && (r == Done ==>
          && address == ViewAddress(g, AddressOf(parent, page))
          && Takes(parent, p.table, p.host, p'.table, p'.host, page, count, q.kind, q.protect)
          && BaseHeaps.Pins(g, v.table, v.host, v'.table, v'.host, g.PageOf(address),
                            FixedCount(q.size, q.alignment, g.pageShift), q.kind, q.protect))
  }

  /** The parent's table after its own allocation. */
  function FixedPinned(t: Table, page: nat, count: nat, q: Request): Table
    requires page + count <= |t|
  {
    Pinned(t, page, count, Reserves(t, page, count, q.kind), q.kind != Reserve, q.protect)
  }

  /** A partitioned parent stays so: its own part of the allocation fails or swallows whole regions only. */
  ghost predicate FixedKeeps(parent: Geometry, t: Table, address: uint32, q: Request, parentOk: bool)
    requires parent.Valid() && q.alignment + Pow2(parent.pageShift) <= U32
  {
    FixedCountPositive(q.size, q.alignment, parent.pageShift);
    var page, count := parent.PageOf(address), FixedCount(q.size, q.alignment, parent.pageShift);
    FixedOutcome(t, page, count, q.kind, !SkipsHostCommit(parent) && !parentOk) == Done
    ==> KeepsPartition(t, page, count, q.kind)
  }

  /** What an allocation at a fixed address did in the parent and in the view. */
  ghost predicate FixedIn(g: Geometry, parent: Geometry, v: Snapshot, v': Snapshot, p: Snapshot, p': Snapshot,
                          address: uint32, q: Request, parentOk: bool, viewOk: bool, r: Outcome)
    requires g.Valid() && parent.Valid() && q.Fits(g, parent)
  {
    FixedCountPositive(q.size, q.alignment, parent.pageShift);
    var page, count := parent.PageOf(address), FixedCount(q.size, q.alignment, parent.pageShift);
    var first := FixedOutcome(p.table, page, count, q.kind, !SkipsHostCommit(parent) && !parentOk);
    if first != Done then r == first && v' == v && p' == p
    else FixedPinIn(g, parent, v, v', p, p', address, q, viewOk, r)
  }

  /** What became of it once the parent, which was `p`, had its own part. */
  ghost predicate FixedPinIn(g: Geometry, parent: Geometry, v: Snapshot, v': Snapshot, p: Snapshot, p': Snapshot,
                             address: uint32, q: Request, viewOk: bool, r: Outcome)
    requires g.Valid() && parent.Valid() && q.Fits(g, parent)
  {
    var page, count := parent.PageOf(address), FixedCount(q.size, q.alignment, parent.pageShift);
    && (r != Done ==> v' == v)
    && page + count <= |p.table|
    && (var t := FixedPinned(p.table, page, count, q);
        && r == PinAnswer(PinOutcome(g, v.table, address, q.size, q.alignment, q.kind, !SkipsHostCommit(g) && !viewOk),
                          parent, t, page)
        && p'.table == if r == Failed then AfterRollback(parent, t, page) else t)
    // A failure undoes everything if the range was free, unless it is at page 0 of the parent.
    && (r == Failed && page != 0 && !SomeTaken(p.table, page, page + count) ==> p'.(host := p.host) == p)
    && (r == Done ==>
          BaseHeaps.Pins(g, v.table, v.host, v'.table, v'.host, g.PageOf(ViewAddress(g, address)),
                         FixedCount(q.size, q.alignment, g.pageShift), q.kind, q.protect))
  }

  /** Giving back a fixed allocation of free pages restores the table. */
  lemma {:induction false} FixedRollback(parent: Geometry, t: Table, address: uint32, q: Request)
    requires parent.Valid() && q.alignment + Pow2(parent.pageShift) <= U32 && Entries(t)
    ensures var page, count := parent.PageOf(address), FixedCount(q.size, q.alignment, parent.pageShift);
            page + count <= |t| && !SomeTaken(t, page, page + count) && (parent.base != 0 || page != 0) ==>
              AfterRollback(parent, FixedPinned(t, page, count, q), page) == t
  {
    FixedCountPositive(q.size, q.alignment, parent.pageShift);
    var page, count := parent.PageOf(address), FixedCount(q.size, q.alignment, parent.pageShift);
    if page + count <= |t| && !SomeTaken(t, page, page + count) {
      assert IsFree(t[page]);
      RollbackRestores(parent, t, page, count, q.kind != Reserve, q.protect);
    }
  }

  /** A fixed allocation in the parent can be given back, also when it cut through regions: it gives back its own pages,
      or the region it committed exactly if that could be released before. */
  lemma {:induction false} FixedSafe(parent: Geometry, t: Table, page: nat, count: nat, q: Request)
    requires count > 0 && page + count <= |t|
    ensures SafeRelease(parent, FixedPinned(t, page, count, q), page)
            <==> Reserves(t, page, count, q.kind) || SafeRelease(parent, t, page)
  {
    var t' := FixedPinned(t, page, count, q);
    if Reserves(t, page, count, q.kind) {
      PinnedSafe(parent, t, page, count, q.kind != Reserve, q.protect);
    } else {
      assert t[page].reserved && t'[page].count == t[page].count && t'[page].base == t[page].base;
      assert forall p :: 0 <= p < |t| ==> IsFree(t[p]) == IsFree(t'[p]);
    }
  }

  /** Undoing a fixed allocation leaves index and counter of the parent right. */
  ghost predicate FixedUndone(parent: Geometry, t: Table, address: uint32, q: Request)
    requires parent.Valid()
  {
    var page, count := parent.PageOf(address), FixedCount(q.size, q.alignment, parent.pageShift);
    page + count <= |t| ==> Reserves(t, page, count, q.kind) || SafeRelease(parent, t, page)
  }

  /** The parent's own part of a fixed allocation succeeds and is undone. */
  ghost predicate FixedFails(parent: Geometry, t: Table, address: uint32, q: Request, parentOk: bool, r: Outcome)
    requires parent.Valid()
  {
    FixedCountPositive(q.size, q.alignment, parent.pageShift);
    r == Failed && FixedOutcome(t, parent.PageOf(address), FixedCount(q.size, q.alignment, parent.pageShift), q.kind,
                                !SkipsHostCommit(parent) && !parentOk) == Done
  }

  /** Whether the parent is still partitioned after a fixed allocation, with or without its rollback. */
  lemma {:induction false} FixedPartition(parent: Geometry, t: Table, page: nat, count: nat, q: Request)
    requires Regions(t) && count > 0 && page + count <= |t|
    ensures Regions(FixedPinned(t, page, count, q)) <==> KeepsPartition(t, page, count, q.kind)
    ensures Regions(AfterRollback(parent, FixedPinned(t, page, count, q), page))
            <==> KeepsPartition(t, page, count, q.kind)
  {
    var t' := FixedPinned(t, page, count, q);
    PinnedRegions(t, page, count, q.kind, q.protect);
    if KeepsPartition(t, page, count, q.kind) {
      if ReleaseOutcome(parent, t', page) == Done {
        ReleasedRegion(t', page);
      }
    } else if ReleaseOutcome(parent, t', page) == Done {
      CutStaysCut(t, page, count, q.kind != Reserve, q.protect);
    }
  }

  // ----- giving pages back

  function DecommittedState(g: Geometry, s: WatchLaws.State, address: uint32, size: uint32): WatchLaws.State
    requires g.Valid() && |s.host| <= |s.watched|
  {
    var range := DecommitRange(g, address, size);
    var s1 := Invalidated(g, s, ClippedPages(g, g.base, address, size), true);
    s1.(table := Decommitted(s.table, range.0, range.1))
  }

  /** The size of the region at a page, as the code computes it. */
  function RegionBytes(g: Geometry, t: Table, page: nat): uint32
    requires page < |t|
  {
    Shl(t[page].count, g.pageShift) % U32
  }

  /** The host pages whose watches a release fires. */
  function ReleaseNotice(g: Geometry, t: Table, address: uint32): (r: Option<(nat, nat)>)
    requires g.Valid() && g.PageOf(address) < |t|
    ensures PagesIn(g, r)
  {
    ClippedPages(g, g.base, address, RegionBytes(g, t, g.PageOf(address)))
  }

  /** What a release leaves in the view once the parent has let go. */
  function ReleasedState(g: Geometry, s: WatchLaws.State, address: uint32): WatchLaws.State
    requires g.Valid() && |s.host| <= |s.watched| && g.PageOf(address) < |s.table|
  {
    var page := g.PageOf(address);
    var s1 := Invalidated(g, s, ReleaseNotice(g, s.table, address), true);
    if ReleaseOutcome(g, s.table, page) == Done then s1.(table := Cleared(s.table, page, s.table[page].count)) else s1
  }

  /** The state once a change of protection has dropped the watches it drops. */
  function AfterNotice(g: Geometry, s: WatchLaws.State, address: uint32, size: uint32, protect: Protection)
    : WatchLaws.State
    requires g.Valid() && |s.host| <= |s.watched|
  {
    if protect.write then Invalidated(g, s, ClippedPages(g, g.base, address, size), false) else s
  }

  /** A change of protection succeeds: one region, all committed, and the host agrees if it is asked. */
  predicate Reprotectable(g: Geometry, t: Table, address: uint32, size: uint32, hostOk: bool)
    requires g.Valid() && |t| == g.pages
  {
    var target := ProtectTarget(g, t, address, size);
    target.Some? && (OnWholeHostPages(g, target.value.0, target.value.1) ==> hostOk)
  }

  /** A successful change of protection. */
  ghost predicate ReprotectedIn(g: Geometry, s: WatchLaws.State, s': WatchLaws.State, address: uint32, size: uint32,
                                protect: Protection)
    requires g.Valid() && |s.table| == g.pages
  {
    var target := ProtectTarget(g, s.table, address, size);
    && target.Some? && s'.watched == s.watched
    && s'.table == Protected(s.table, target.value.0, target.value.1 + 1, protect)
    && HostAfterProtect(g, s.host, s'.host, s'.table, target.value.0, target.value.1, protect)
  }

  /** What a decommit does to the parent and to the view. */
  ghost predicate DecommittedIn(g: Geometry, parent: Geometry, p: Table, p': Table, s: WatchLaws.State,
                                s': WatchLaws.State, address: uint32, size: uint32)
    requires WindowOf(g).Valid() && parent.Valid() && InView(g, address) && |s.host| <= |s.watched|
  {
    && (var range := DecommitRange(parent, Physical(g, address), size);
        p' == Decommitted(p, range.0, range.1))
    && s' == DecommittedState(g, s, address, size)
  }

  /** What a release does. What the parent refuses changes nothing; what the view refuses is gone from the parent all
      the same. */
  ghost predicate ReleasedIn(g: Geometry, parent: Geometry, p: Table, p': Table, s: WatchLaws.State,
                             s': WatchLaws.State, address: uint32)
    requires WindowOf(g).Valid() && parent.Valid() && InView(g, address) && |s.host| <= |s.watched|
  {
    var page := parent.PageOf(Physical(g, address));
    if ReleaseOutcome(parent, p, page) != Done then p' == p && s' == s
    else
      && g.PageOf(address) < |s.table|
      && p' == Cleared(p, page, p[page].count) && s' == ReleasedState(g, s, address)
  }

  /** What the release answers. */
  function ReleaseAnswer(g: Geometry, parent: Geometry, p: Table, t: Table, address: uint32): Outcome
    requires WindowOf(g).Valid() && parent.Valid() && InView(g, address)
  {
    var first := ReleaseOutcome(parent, p, parent.PageOf(Physical(g, address)));
    if first != Done then first else ReleaseOutcome(g, t, g.PageOf(address))
  }

  /** Parent and view both accept a change of protection. */
  predicate BothReprotectable(g: Geometry, parent: Geometry, p: Table, t: Table, address: uint32, size: uint32,
                              parentOk: bool, viewOk: bool)
    requires WindowOf(g).Valid() && parent.Valid() && InView(g, address) && |p| == parent.pages && |t| == g.pages
  {
    Reprotectable(parent, p, Physical(g, address), size, parentOk) && Reprotectable(g, t, address, size, viewOk)
  }

  /** What a change of protection does to the parent and to the view. */
  ghost predicate BothReprotected(g: Geometry, parent: Geometry, p: Table, p': Table, s: WatchLaws.State,
                                  s': WatchLaws.State, address: uint32, size: uint32, protect: Protection,
                                  parentOk: bool, viewOk: bool)
    requires WindowOf(g).Valid() && parent.Valid() && InView(g, address) && |s.host| <= |s.watched|
    requires |p| == parent.pages && |s.table| == g.pages
  {
    && p' == AfterProtect(parent, p, Physical(g, address), size, protect, parentOk)
    && var dropped := AfterNotice(g, s, address, size, protect);
       if BothReprotectable(g, parent, p, s.table, address, size, parentOk, viewOk)
       then ReprotectedIn(g, dropped, s', address, size, protect) else s' == dropped
  }

  /** The parent's table after a change of protection, if it is possible there. */
  function AfterProtect(parent: Geometry, p: Table, address: uint32, size: uint32, protect: Protection, parentOk: bool)
    : Table
    requires parent.Valid() && |p| == parent.pages
  {
    var target := ProtectTarget(parent, p, address, size);
    if Reprotectable(parent, p, address, size, parentOk)
    then Protected(p, target.value.0, target.value.1 + 1, protect) else p
  }

  /** The old protection is reported if the parent accepts the change. */
  ghost predicate ReportsOld(parent: Geometry, p: Table, h: seq<PageAccess>, address: uint32, size: uint32,
                             parentOk: bool, oldProtect: Protection)
    requires parent.Valid() && |p| == parent.pages && |h| == parent.HostPages()
  {
    var target := ProtectTarget(parent, p, address, size);
    Reprotectable(parent, p, address, size, parentOk) ==>
      oldProtect == OldProtection(parent, p, h, target.value.0, target.value.1)
  }

  class PhysicalHeap {
    const view: BaseHeap
    const parent: BaseHeap
    const flags: array<nat>
    var notices: seq<Notice>

    ghost predicate Shape()
      reads flags
    {
      && view.Shape() && parent.Shape() && view != parent && view.pageTable != parent.pageTable
      && view.host != parent.host
      && view.g.kind == GuestPhysical && WindowOf(view.g).Valid() && 0 < view.g.base
      && Low(view.g.base, view.g.pageShift) == 0
      && parent.g.base == 0 && parent.g.pageShift <= view.g.pageShift
      && PhysicalOffset(view.g) + view.g.Size() <= parent.g.Size() && view.g.sysShift == parent.g.sysShift
      && 64 * flags.Length >= view.g.HostPages() && ValidWords(flags[..])
    }

    /** Page table, host accesses and watches of the view. */
    ghost function State(): WatchLaws.State
      reads view.pageTable, view.host, flags
    {
      WatchLaws.State(view.Table(), view.host[..], Unpacked(flags[..]))
    }

    /** A view with nothing allocated and nothing watched. */
    constructor (g: Geometry, parent: BaseHeap)
      requires g.Valid() && g.kind == GuestPhysical && WindowOf(g).Valid() && 0 < g.base
      requires Low(g.base, g.pageShift) == 0
      requires parent.Shape() && parent.g.base == 0 && parent.g.pageShift <= g.pageShift
      requires PhysicalOffset(g) + g.Size() <= parent.g.Size()
      requires g.sysShift == parent.g.sysShift
      ensures Shape() && view.Valid() && view.Partitioned() && this.parent == parent && view.g == g && view.Drift() == 0
      ensures fresh(view) && fresh(view.pageTable) && fresh(view.host) && fresh(flags) && notices == []
      ensures forall p :: 0 <= p < g.pages ==> view.pageTable[p] == FREE_ENTRY
      ensures forall i :: 0 <= i < 64 * flags.Length ==> !Watched(flags[..], i)
    {
      view := new BaseHeap(g);
      this.parent := parent;
      flags := new nat[(g.HostPages() + 63) / 64](_ => 0);
      notices := [];
      new;
      forall i: nat | i < 64 * flags.Length ensures !Watched(flags[..], i) {
        ZeroBit(i % 64);
      }
    }

    // ----- watches

    /** Checks if writing to a page must be allowed again. */
    method NeedsUnprotect(i: nat) returns (unprotectPage: bool)
      requires Shape() && InHeap(view.g, i)
      ensures i < 64 * flags.Length
      ensures unprotectPage <==> Armed(view.g, view.Table(), Unpacked(flags[..]), i)
    {
      GuestPageInside(view.g, i);
      OneBitTest(flags[i / 64], i % 64);
      unprotectPage := And(flags[i / 64], Pow2(i % 64)) != 0;
      if unprotectPage {
        var guestPage := Shr(Max(Shl(i, view.g.sysShift) - view.g.hostOffset, 0), view.g.pageShift);
        if ToPageAccess(view.pageTable[guestPage].currentProtect) != ReadWrite {
          unprotectPage := false;
        }
      }
    }

    /** Unprotects the armed pages in `[first, last]`, one host call for each run of them. */
    method UnprotectRuns(first: nat, last: nat)
      requires Shape() && Shr(view.g.hostOffset, view.g.sysShift) <= first <= last < view.g.HostPages()
      modifies view.host
      ensures view.host[..] == Opened(view.g, view.Table(), old(view.host[..]), Unpacked(flags[..]), first, last + 1)
    {
      ghost var g, t, h, w := view.g, view.Table(), view.host[..], Unpacked(flags[..]);
      var runStart: Option<nat> := None;
      assert Opened(g, t, h, w, first, first) == h;
      for i := first to last + 1
        invariant view.Table() == t && Unpacked(flags[..]) == w
        invariant OpenedSoFar(g, t, h, w, view.host[..], first, i, runStart)
      {
        var unprotectPage := NeedsUnprotect(i);
        OpenStep(g, t, h, w, view.host[..], first, i, runStart);
        if unprotectPage {
          if runStart.None? {
            runStart := Some(i);
          }
        } else {
          if runStart.Some? {
            view.HostProtect(runStart.value, i - runStart.value, ReadWrite);
            runStart := None;
          }
        }
      }
      OpenEnd(g, t, h, w, view.host[..], first, last + 1, runStart);
      if runStart.Some? {
        view.HostProtect(runStart.value, last + 1 - runStart.value, ReadWrite);
      }
    }

    /** Calls every callback and intersects their answers unless exactly the given range is unwatched. */
    method RunCallbacks(callbacks: seq<Callback>, start: nat, length: nat, exact: bool)
      returns (unwatchFirst: uint32, unwatchLast: uint32)
      modifies this`notices
      ensures notices == old(notices) + Notices(|callbacks|, start, length, exact)
      ensures (unwatchFirst, unwatchLast) ==
                if exact then (0, U32 - 1) else Common(Answers(callbacks, start, length, exact))
    {
      unwatchFirst, unwatchLast := 0, U32 - 1;
      ghost var answers := Answers(callbacks, start, length, exact);
      for k := 0 to |callbacks|
        invariant notices == old(notices) + Notices(k, start, length, exact)
        invariant (unwatchFirst, unwatchLast) == if exact then (0, U32 - 1) else Common(answers[..k])
      {
        var answer := callbacks[k](start, length, exact);
        notices := notices + [Notice(k, start, length, exact)];
        assert answers[..k + 1][..k] == answers[..k] && answers[..k + 1][k] == answer;
        if !exact {
          unwatchFirst := Max(unwatchFirst, answer.start);
          unwatchLast := Min(unwatchLast, AnswerEnd(answer));
        }
      }
      assert answers[..|callbacks|] == answers;
    }

    /** The host pages whose watches an access to the view's memory concerns. */
    function Triggers(virtualAddress: uint32, length: uint32): (r: Option<(nat, nat)>)
      requires WindowOf(view.g).Valid()
      ensures PagesIn(view.g, r)
    {
      ClippedPages(view.g, view.g.base, virtualAddress, length)
    }

    /** The watches on a range of the view's memory fire. */
    method TriggerCallbacks(virtualAddress: uint32, length: uint32, unwatchExactRange: bool, unprotect: bool,
                            callbacks: seq<Callback>)
      returns (r: bool)
      requires Shape()
      modifies this`notices, view.host, flags
      ensures Shape()
      ensures var (pages, exact) := (Triggers(virtualAddress, length), unwatchExactRange || !unprotect);
              && r == pages.Some?
              && State() == Fired(view.g, old(State()), pages, exact, unprotect, callbacks)
              && notices == old(notices) + Told(view.g, old(State()), pages, exact, |callbacks|)
    {
      var pages := Triggers(virtualAddress, length);
      if pages.None? {
        return false;
      }
      var first, last := pages.value.0, pages.value.1;
      // Check if watching any page, whether need to call the callback at all.
      var anyWatched := AnyWatched(flags[..], first, last);
      if !anyWatched {
        return true;
      }
      FirePages(first, last, unwatchExactRange || !unprotect, unprotect, callbacks);
      return true;
    }

    /** Triggers the callbacks for pages `[first, last]`, unprotects and unwatches. */
    method FirePages(first: nat, last: nat, exact: bool, unprotect: bool, callbacks: seq<Callback>)
      requires Shape() && Shr(view.g.hostOffset, view.g.sysShift) <= first <= last < view.g.HostPages()
      modifies this`notices, view.host, flags
      ensures Shape()
      ensures State() == FiredState(view.g, old(State()), first, last, exact, unprotect, callbacks)
      ensures var w := WindowOf(view.g);
              notices == old(notices) + Notices(|callbacks|, w.NoticeStart(first), NoticeLen(w, first, last), exact)
    {
      ghost var s := State();
      var w := WindowOf(view.g);
      NoticeIsPages(w, first, last);
      var unwatchFirst, unwatchLast := RunCallbacks(callbacks, w.NoticeStart(first), NoticeLen(w, first, last), exact);
      var systemPageFirst, systemPageLast := first, last;
      ghost var range := UnwatchPages(w, first, last, exact, callbacks);
      if !exact {
        systemPageFirst := UnwatchFirst(w, w.NoticeStart(first), unwatchFirst, MAX_EXCESS_SHIFT);
        systemPageLast := UnwatchLast(w, w.NoticeEnd(first, last), unwatchLast, MAX_EXCESS_SHIFT);
      }
      assert range == (systemPageFirst, systemPageLast);
      // Unprotect ranges that need unprotection.
      if unprotect {
        UnprotectRuns(systemPageFirst, systemPageLast);
      }
      ghost var h := view.host[..];
      // Mark pages as not write-watched.
      ClearWatches(flags, systemPageFirst, systemPageLast);
      assert view.host[..] == h && view.Table() == s.table;
    }

    /** Checks if a page must be watched from now on. */
    method NeedsWatch(i: nat) returns (protectPage: bool)
      requires Shape() && InHeap(view.g, i)
      ensures i < 64 * flags.Length
      ensures protectPage <==> Watchable(view.g, view.Table(), Unpacked(flags[..]), i)
    {
      GuestPageInside(view.g, i);
      OneBitTest(flags[i / 64], i % 64);
      var guestPage := Shr(Max(Shl(i, view.g.sysShift) - view.g.hostOffset, 0), view.g.pageShift);
      protectPage := ToPageAccess(view.pageTable[guestPage].currentProtect) == ReadWrite
                     && And(flags[i / 64], Pow2(i % 64)) == 0;
    }

    method SetBit(i: nat)
      requires ValidWords(flags[..]) && i / 64 < flags.Length
      modifies flags
      ensures ValidWords(flags[..]) && i < |old(Unpacked(flags[..]))|
      ensures Unpacked(flags[..]) == old(Unpacked(flags[..]))[i := true]
    {
      SetWatch(flags[..], i);
      ghost var w := flags[..];
      flags[i / 64] := Or(flags[i / 64], Pow2(i % 64));
      assert flags[..] == w[i / 64 := Or(w[i / 64], Pow2(i % 64))];
    }

    /** Watches one page if the guest may write to it. The host is called when a run of such pages ends. */
    method EnablePage(ghost s: WatchLaws.State, ghost first: nat, i: nat, runStart: Option<nat>)
      returns (runStart': Option<nat>)
      requires Shape() && InHeap(view.g, i) && ClosedSoFar(view.g, s, State(), first, i, runStart)
      modifies view.host, flags
      ensures Shape() && ClosedSoFar(view.g, s, State(), first, i + 1, runStart')
    {
      runStart' := runStart;
      var protectPage := NeedsWatch(i);
      CloseStep(view.g, s, State(), first, i, runStart);
      if protectPage {
        SetBit(i);
        if runStart.None? {
          runStart' := Some(i);
        }
      } else {
        if runStart.Some? {
          view.HostProtect(runStart.value, i - runStart.value, ReadOnly);
          runStart' := None;
        }
      }
    }

    /** Watches the pages in `[first, last]` that the guest may write to, one host call for each run of them. */
    method EnablePages(first: nat, last: nat)
      requires Shape() && Shr(view.g.hostOffset, view.g.sysShift) <= first <= last < view.g.HostPages()
      modifies view.host, flags
      ensures Shape()
      ensures State() == WatchEnabled(view.g, old(State()), first, last)
    {
      ghost var s := State();
      var runStart: Option<nat> := None;
      for i := first to last + 1
        invariant Shape()
        invariant ClosedSoFar(view.g, s, State(), first, i, runStart)
      {
        runStart := EnablePage(s, first, i, runStart);
      }
      CloseEnd(view.g, s, State(), first, last, runStart);
      if runStart.Some? {
        view.HostProtect(runStart.value, last + 1 - runStart.value, ReadOnly);
      }
    }

    /** Enables invalidation notifications for a range of physical memory. The code converts a host page to a guest page
        without saturation, so a host page that starts before the heap makes it index outside the page table. */
    method EnableAccessCallbacks(physicalAddress: uint32, length: uint32) returns (r: Outcome)
      requires Shape()
      modifies view.host, flags
      ensures Shape()
      ensures var pages := ClippedPages(view.g, PhysicalOffset(view.g), physicalAddress, length);
              && r == EnableOutcome(view.g, pages)
              && State() == (if r == Done && pages.Some?
                             then WatchEnabled(view.g, old(State()), pages.value.0, pages.value.1) else old(State()))
    {
      var pages := ClippedPages(view.g, PhysicalOffset(view.g), physicalAddress, length);
      if pages.None? {
        return Done;
      }
      if Shl(pages.value.0, view.g.sysShift) < view.g.hostOffset {
        return Overrun;
      }
      EnablePages(pages.value.0, pages.value.1);
      return Done;
    }

    // ----- allocation

    function GetPhysicalAddress(address: uint32): uint32
      requires WindowOf(view.g).Valid()
    {
      Physical(view.g, address)
    }

    /** Releases a parent region again; the view does not notice. */
    method Rollback(parentAddress: uint32) returns (r: Outcome)
      requires Shape() && parent.Valid() && parent.PageInTable(parentAddress)
      modifies parent, parent.pageTable
      ensures Shape()
      ensures parent.Valid() <==> SafeRelease(parent.g, old(parent.Table()), parent.g.PageOf(parentAddress))
      ensures parent.Valid() ==> parent.Drift() == old(parent.Drift())
      ensures parent.Table() == AfterRollback(parent.g, old(parent.Table()), parent.g.PageOf(parentAddress))
      ensures r == PinAnswer(Failed, parent.g, old(parent.Table()), parent.g.PageOf(parentAddress))
      ensures view.Is(old(view.Table()), old(view.freeBlocks), old(view.unreserved), old(view.host[..]))
    {
      var size;
      r, size := parent.Release(parentAddress);
      r := if r == Overrun then Overrun else Failed;
    }

    /** Pins the parent address just reserved in the view, or releases it in the parent again. */
    method Pin(parentAddress: uint32, size: uint32, alignment: uint32, kind: AllocationType, protect: Protection,
               hostOk: bool)
      returns (r: Outcome, address: uint32)
      requires Shape() && view.Valid() && parent.Valid() && parent.PageInTable(parentAddress)
      modifies view, view.pageTable, view.host, parent, parent.pageTable
      ensures Shape() && view.Valid() && view.Drift() == old(view.Drift())
      ensures parent.Valid() <==>
                (r == Failed ==> SafeRelease(parent.g, old(parent.Table()), parent.g.PageOf(parentAddress)))
      ensures parent.Valid() ==> parent.Drift() == old(parent.Drift())
      ensures address == ViewAddress(view.g, parentAddress)
      ensures r == PinAnswer(PinOutcome(view.g, old(view.Table()), parentAddress, size, alignment, kind,
                                        !SkipsHostCommit(view.g) && !hostOk),
                             parent.g, old(parent.Table()), parent.g.PageOf(parentAddress))
      ensures parent.Table() == if r == Failed
                                then AfterRollback(parent.g, old(parent.Table()), parent.g.PageOf(parentAddress))
                                else old(parent.Table())
      ensures r != Done ==>
                view.Is(old(view.Table()), old(view.freeBlocks), old(view.unreserved), old(view.host[..]))
      ensures r == Done ==> view.HasPinned(old(view.Table()), old(view.host[..]), view.g.PageOf(address),
                                           FixedCount(size, alignment, view.g.pageShift), kind, protect)
    {
      address := ViewAddress(view.g, parentAddress);
      if alignment == 0 {
        return Trap, address;
      }
      if Misaligned(view.g, address, alignment) {
        r := Rollback(parentAddress);
        return r, address;
      }
      r := view.AllocFixed(address, size, alignment, kind, protect, hostOk);
      if r == Failed {
        r := Rollback(parentAddress);
      }
    }

    /** Pins the parent region just taken at `page`, or gives it back. The parent was `p`. */
    method PinTaken(ghost p: Snapshot, ghost page: nat, parentAddress: uint32, q: Request, viewOk: bool)
      returns (r: Outcome, address: uint32)
      requires Shape() && view.Valid() && parent.Valid() && page < parent.g.pages
      requires parentAddress == AddressOf(parent.g, page) && q.Fits(view.g, parent.g)
      requires |p.table| == parent.g.pages && Entries(p.table) && p.freeBlocks == Runs(FreeBits(p.table))
      requires parent.Drift() == DriftOf(p.unreserved, p.table)
      requires parent.HasTaken(p.table, p.host, page, PageCount(q.size, parent.g.pageShift), q.kind, q.protect)
      modifies view, view.pageTable, view.host, parent, parent.pageTable
      ensures Shape() && parent.Valid() && parent.Drift() == old(parent.Drift())
      ensures view.Valid() && view.Drift() == old(view.Drift())
      ensures AllocPinIn(view.g, parent.g, old(view.Now()), view.Now(), p, parent.Now(), q, viewOk, r, address, page)
    {
      ghost var count := PageCount(q.size, parent.g.pageShift);
      ParentPageOf(parent.g, page);
      RollbackRestores(parent.g, p.table, page, count, q.kind != Reserve, q.protect);
      PinnedSafe(parent.g, p.table, page, count, q.kind != Reserve, q.protect);
      r, address := Pin(parentAddress, q.size, q.alignment, q.kind, q.protect, viewOk);
      DriftInjective(p.unreserved, parent.unreserved, p.table);
      if r != Done {
        address := 0;
      }
    }

    /** Reserves the best window of the parent between two physical addresses and pins it in the view. */
    method AllocPinned(low: uint32, high: uint32, q: Request, topDown: bool, parentOk: bool, viewOk: bool)
      returns (r: Outcome, address: uint32, ghost found: Option<nat>)
      requires Shape() && view.Valid() && parent.Valid() && q.Fits(view.g, parent.g)
      modifies view, view.pageTable, view.host, parent, parent.pageTable, parent.host
      ensures Shape() && parent.Valid() && parent.Drift() == old(parent.Drift())
      ensures view.Valid() && view.Drift() == old(view.Drift())
      ensures AllocatedIn(view.g, parent.g, old(view.Now()), view.Now(), old(parent.Now()), parent.Now(), low, high, q,
                          topDown, parentOk, viewOk, r, address, found)
      ensures old(parent.Partitioned()) ==> parent.Partitioned()
    {
      var parentAddress;
      r, parentAddress, found := parent.AllocRange(low, high, q.size, q.alignment, q.kind, q.protect, topDown,
                                                    parentOk);
      if r != Done {
        return Failed, 0, found;
      }
      r, address := PinTaken(old(parent.Now()), found.value, parentAddress, q, viewOk);
    }

    /** Allocates between two addresses, which are clipped to one end of the view each. */
    method AllocRange(lowAddress: uint32, highAddress: uint32, q: Request, topDown: bool, parentOk: bool, viewOk: bool)
      returns (r: Outcome, address: uint32, ghost found: Option<nat>)
      requires Shape() && view.Valid() && parent.Valid()
      modifies view, view.pageTable, view.host, parent, parent.pageTable, parent.host
      ensures Shape() && parent.Valid() && parent.Drift() == old(parent.Drift())
      ensures view.Valid() && view.Drift() == old(view.Drift())
      ensures q.Rounded(view.g).Fits(view.g, parent.g)
      ensures AllocatedIn(view.g, parent.g, old(view.Now()), view.Now(), old(parent.Now()), parent.Now(),
                          GetPhysicalAddress(ClipLow(view.g, lowAddress)),
                          GetPhysicalAddress(ClipHigh(view.g, highAddress)), q.Rounded(view.g), topDown, parentOk,
                          viewOk, r, address, found)
      ensures old(parent.Partitioned()) ==> parent.Partitioned()
    {
      RoundedFits(view.g, parent.g, q);
      var parentLow := GetPhysicalAddress(ClipLow(view.g, lowAddress));
      var parentHigh := GetPhysicalAddress(ClipHigh(view.g, highAddress));
      r, address, found := AllocPinned(parentLow, parentHigh, q.Rounded(view.g), topDown, parentOk, viewOk);
    }

    /** Allocates anywhere in the view; the search always runs from the top. */
    method Alloc(q: Request, parentOk: bool, viewOk: bool)
      returns (r: Outcome, address: uint32, ghost found: Option<nat>)
      requires Shape() && view.Valid() && parent.Valid()
      modifies view, view.pageTable, view.host, parent, parent.pageTable, parent.host
      ensures Shape() && parent.Valid() && parent.Drift() == old(parent.Drift())
      ensures view.Valid() && view.Drift() == old(view.Drift())
      ensures q.Rounded(view.g).Fits(view.g, parent.g)
      ensures AllocatedIn(view.g, parent.g, old(view.Now()), view.Now(), old(parent.Now()), parent.Now(),
                          GetPhysicalAddress(view.g.base), GetPhysicalAddress(view.g.LastAddress()), q.Rounded(view.g),
                          true, parentOk, viewOk, r, address, found)
      ensures old(parent.Partitioned()) ==> parent.Partitioned()
    {
      RoundedFits(view.g, parent.g, q);
      view.g.SizePositive();
      var parentLow := GetPhysicalAddress(view.g.base);
      var parentHigh := GetPhysicalAddress(view.g.LastAddress());
      r, address, found := AllocPinned(parentLow, parentHigh, q.Rounded(view.g), true, parentOk, viewOk);
    }

    /** Allocates at a fixed address. The parent's index and counter stay right exactly unless the allocation committed
        part of a region that could not be released and is undone; on a partitioned parent there is no such region. */
    method AllocFixed(baseAddress: uint32, q: Request, parentOk: bool, viewOk: bool) returns (r: Outcome)
      requires Shape() && view.Valid() && parent.Valid() && InView(view.g, baseAddress)
      modifies view, view.pageTable, view.host, parent, parent.pageTable, parent.host
      ensures Shape() && view.Valid() && view.Drift() == old(view.Drift())
      ensures q.Rounded(view.g).Fits(view.g, parent.g)
      ensures parent.Valid() <==>
                (FixedFails(parent.g, old(parent.Table()), GetPhysicalAddress(baseAddress), q.Rounded(view.g), parentOk,
                            r)
                 ==> FixedUndone(parent.g, old(parent.Table()), GetPhysicalAddress(baseAddress), q.Rounded(view.g)))
      ensures parent.Valid() ==> parent.Drift() == old(parent.Drift())
      ensures FixedIn(view.g, parent.g, old(view.Now()), view.Now(), old(parent.Now()), parent.Now(),
                      GetPhysicalAddress(baseAddress), q.Rounded(view.g), parentOk, viewOk, r)
      ensures old(parent.Partitioned()) ==>
                && parent.Valid()
                && (parent.Partitioned() <==> FixedKeeps(parent.g, old(parent.Table()), GetPhysicalAddress(baseAddress),
                                                         q.Rounded(view.g), parentOk))
    {
      var q' := q.Rounded(view.g);
      RoundedFits(view.g, parent.g, q);
      ghost var t := parent.Table();
      var parentAddress := GetPhysicalAddress(baseAddress);
      FixedCountPositive(q'.size, q'.alignment, parent.g.pageShift);
      r := parent.AllocFixed(parentAddress, q'.size, q'.alignment, q'.kind, q'.protect, parentOk);
      if r != Done {
        return r;
      }
      if Regions(t) {
        RegionsSafe(parent.g, t, parent.g.PageOf(parentAddress));
        FixedPartition(parent.g, t, parent.g.PageOf(parentAddress),
                       FixedCount(q'.size, q'.alignment, parent.g.pageShift), q');
      }
      r := PinFixed(old(parent.Now()), parentAddress, q', viewOk);
    }

    /** Pins a fixed address whose part in the parent, which was `p`, is done. */
    method PinFixed(ghost p: Snapshot, parentAddress: uint32, q: Request, viewOk: bool) returns (r: Outcome)
      requires Shape() && view.Valid() && parent.Valid() && parent.PageInTable(parentAddress)
      requires q.Fits(view.g, parent.g) && |p.table| == parent.g.pages && Entries(p.table)
      requires parent.g.PageOf(parentAddress) + FixedCount(q.size, q.alignment, parent.g.pageShift) <= |p.table|
      requires parent.Table() == FixedPinned(p.table, parent.g.PageOf(parentAddress),
                                             FixedCount(q.size, q.alignment, parent.g.pageShift), q)
      requires p.freeBlocks == Runs(FreeBits(p.table)) && parent.Drift() == DriftOf(p.unreserved, p.table)
      modifies view, view.pageTable, view.host, parent, parent.pageTable
      ensures Shape() && view.Valid() && view.Drift() == old(view.Drift())
      ensures parent.Valid() <==> (r == Failed ==> FixedUndone(parent.g, p.table, parentAddress, q))
      ensures parent.Valid() ==> parent.Drift() == old(parent.Drift())
      ensures FixedPinIn(view.g, parent.g, old(view.Now()), view.Now(), p, parent.Now(), parentAddress, q, viewOk, r)
    {
      FixedCountPositive(q.size, q.alignment, parent.g.pageShift);
      FixedRollback(parent.g, p.table, parentAddress, q);
      FixedSafe(parent.g, p.table, parent.g.PageOf(parentAddress),
                FixedCount(q.size, q.alignment, parent.g.pageShift), q);
      var address;
      r, address := Pin(parentAddress, q.size, q.alignment, q.kind, q.protect, viewOk);
      DriftInjective(p.unreserved, parent.unreserved, p.table);
    }

    // ----- giving pages back

    method Decommit(address: uint32, size: uint32, callbacks: seq<Callback>)
      requires Shape() && view.Valid() && parent.Valid() && InView(view.g, address)
      modifies this`notices, view.pageTable, view.host, flags, parent.pageTable
      ensures Shape() && view.Valid() && parent.Valid()
      ensures view.Drift() == old(view.Drift()) && parent.Drift() == old(parent.Drift())
      ensures DecommittedIn(view.g, parent.g, old(parent.Table()), parent.Table(), old(State()), State(), address, size)
      ensures notices == old(notices) + Told(view.g, old(State()), Triggers(address, size), true, |callbacks|)
    {
      parent.Decommit(GetPhysicalAddress(address), size);
      // Not caring about the contents anymore.
      Invalidate(address, size, true, callbacks);
      view.Decommit(address, size);
    }

    /** Fires the watches on exactly a range. */
    method Invalidate(address: uint32, size: uint32, unprotect: bool, callbacks: seq<Callback>)
      requires Shape()
      modifies this`notices, view.host, flags
      ensures Shape()
      ensures State() == Invalidated(view.g, old(State()), Triggers(address, size), unprotect)
      ensures notices == old(notices) + Told(view.g, old(State()), Triggers(address, size), true, |callbacks|)
    {
      FiredExactly(view.g, State(), Triggers(address, size), unprotect, callbacks);
      var _ := TriggerCallbacks(address, size, true, unprotect, callbacks);
    }

    /** Releases a region in the parent and then in the view. What the parent refuses changes nothing; what the view
        refuses is gone from the parent all the same. */
    method Release(baseAddress: uint32, callbacks: seq<Callback>) returns (r: Outcome, regionSize: nat)
      requires Shape() && view.Valid() && parent.Valid() && InView(view.g, baseAddress)
      modifies this`notices, view, view.pageTable, view.host, flags, parent, parent.pageTable
      ensures Shape() && view.PageInTable(baseAddress)
      ensures ReleasedIn(view.g, parent.g, old(parent.Table()), parent.Table(), old(State()), State(), baseAddress)
      ensures r == ReleaseAnswer(view.g, parent.g, old(parent.Table()), old(view.Table()), baseAddress)
      ensures parent.Valid() <==>
                SafeRelease(parent.g, old(parent.Table()), parent.g.PageOf(GetPhysicalAddress(baseAddress)))
      ensures parent.Valid() ==> parent.Drift() == old(parent.Drift())
      ensures view.Valid() <==>
                (ReleaseOutcome(parent.g, old(parent.Table()), parent.g.PageOf(GetPhysicalAddress(baseAddress))) == Done
                 ==> SafeRelease(view.g, old(view.Table()), view.g.PageOf(baseAddress)))
      ensures view.Valid() ==> view.Drift() == old(view.Drift())
      ensures notices == old(notices) +
                if ReleaseOutcome(parent.g, old(parent.Table()), parent.g.PageOf(GetPhysicalAddress(baseAddress)))
                   == Done
                then Told(view.g, old(State()), ReleaseNotice(view.g, old(view.Table()), baseAddress), true,
                          |callbacks|)
                else []
    {
      view.g.PageOfInside(baseAddress);
      r, regionSize := parent.Release(GetPhysicalAddress(baseAddress));
      if r != Done {
        return r, 0;
      }
      r, regionSize := ReleaseView(baseAddress, callbacks);
    }

    /** Releases a region of the view that the parent has let go. */
    method ReleaseView(baseAddress: uint32, callbacks: seq<Callback>) returns (r: Outcome, regionSize: nat)
      requires Shape() && view.Valid() && view.PageInTable(baseAddress)
      modifies this`notices, view, view.pageTable, view.host, flags
      ensures Shape() && State() == ReleasedState(view.g, old(State()), baseAddress)
      ensures r == ReleaseOutcome(view.g, old(view.Table()), view.g.PageOf(baseAddress))
      ensures view.Valid() <==> SafeRelease(view.g, old(view.Table()), view.g.PageOf(baseAddress))
      ensures view.Valid() ==> view.Drift() == old(view.Drift())
      ensures notices == old(notices) + Told(view.g, old(State()),
                                             ReleaseNotice(view.g, old(view.Table()), baseAddress), true, |callbacks|)
    {
      // Must invalidate here because the range being released may be reused in another mapping.
      var size := RegionBytes(view.g, view.pageTable[..], view.g.PageOf(baseAddress));
      Invalidate(baseAddress, size, true, callbacks);
      r, regionSize := view.Release(baseAddress);
    }

    // ----- protection

    /** Changes the protection in the parent and then in the view. Watches on the range are dropped first if the write
        flag is set, even if the change then fails. The old protection reported is the parent's. */
    method Protect(address: uint32, size: uint32, protect: Protection, parentOk: bool, viewOk: bool,
                   callbacks: seq<Callback>)
      returns (ok: bool, oldProtect: Protection)
      requires Shape() && view.Valid() && parent.Valid() && InView(view.g, address)
      modifies this`notices, view.pageTable, view.host, flags, parent.pageTable, parent.host
      ensures Shape() && view.Valid() && parent.Valid()
      ensures view.Drift() == old(view.Drift()) && parent.Drift() == old(parent.Drift())
      ensures BothReprotected(view.g, parent.g, old(parent.Table()), parent.Table(), old(State()), State(), address,
                              size, protect, parentOk, viewOk)
      ensures ReportsOld(parent.g, old(parent.Table()), old(parent.host[..]), GetPhysicalAddress(address), size,
                         parentOk, oldProtect)
      ensures ok == BothReprotectable(view.g, parent.g, old(parent.Table()), old(view.Table()), address, size, parentOk,
                                      viewOk)
      ensures notices == old(notices) + if protect.write
                                        then Told(view.g, old(State()), Triggers(address, size), true, |callbacks|)
                                        else []
    {
      // Only invalidate if making writable again.
      if protect.write {
        Invalidate(address, size, false, callbacks);
      }
      ok, oldProtect := ProtectBoth(address, size, protect, parentOk, viewOk);
    }

    method ProtectBoth(address: uint32, size: uint32, protect: Protection, parentOk: bool, viewOk: bool)
      returns (ok: bool, oldProtect: Protection)
      requires Shape() && view.Valid() && parent.Valid() && InView(view.g, address)
      modifies view.pageTable, view.host, parent.pageTable, parent.host
      ensures Shape() && view.Valid() && parent.Valid()
      ensures view.Drift() == old(view.Drift()) && parent.Drift() == old(parent.Drift())
      ensures parent.Table() == AfterProtect(parent.g, old(parent.Table()), GetPhysicalAddress(address), size, protect,
                                             parentOk)
      ensures ReportsOld(parent.g, old(parent.Table()), old(parent.host[..]), GetPhysicalAddress(address), size,
                         parentOk, oldProtect)
      ensures ok == BothReprotectable(view.g, parent.g, old(parent.Table()), old(view.Table()), address, size, parentOk,
                                      viewOk)
      ensures if ok then ReprotectedIn(view.g, old(State()), State(), address, size, protect)
              else State() == old(State())
    {
      ok, oldProtect := ProtectParent(GetPhysicalAddress(address), size, protect, parentOk);
      if ok {
        ok := ProtectView(address, size, protect, viewOk);
      }
    }

    method ProtectParent(address: uint32, size: uint32, protect: Protection, parentOk: bool)
      returns (ok: bool, oldProtect: Protection)
      requires Shape() && view.Valid() && parent.Valid()
      modifies parent.pageTable, parent.host
      ensures view.Valid() && parent.Valid() && parent.Drift() == old(parent.Drift())
      ensures view.Drift() == old(view.Drift()) && State() == old(State())
      ensures ok <==> Reprotectable(parent.g, old(parent.Table()), address, size, parentOk)
      ensures parent.Table() == AfterProtect(parent.g, old(parent.Table()), address, size, protect, parentOk)
      ensures ReportsOld(parent.g, old(parent.Table()), old(parent.host[..]), address, size, parentOk, oldProtect)
    {
      ok, oldProtect := parent.Protect(address, size, protect, parentOk);
    }

    method ProtectView(address: uint32, size: uint32, protect: Protection, viewOk: bool) returns (ok: bool)
      requires Shape() && view.Valid()
      modifies view.pageTable, view.host
      ensures Shape() && view.Valid() && view.Drift() == old(view.Drift())
      ensures ok <==> Reprotectable(view.g, old(view.Table()), address, size, viewOk)
      ensures !ok ==> State() == old(State())
      ensures ok ==> ReprotectedIn(view.g, old(State()), State(), address, size, protect)
    {
      var oldProtect;
      ok, oldProtect := view.Protect(address, size, protect, viewOk);
    }
  }

  /** Masking with one bit tests it. */
  lemma {:induction false} OneBitTest(word: nat, j: nat)
    requires word < WORD && j < 64
    ensures And(word, Pow2(j)) != 0 <==> Bit(word, j)
  {
    AndBit(word, Pow2(j), j);
    OneBit(j, j);
    ZeroBit(j);
    AndBound(word, Pow2(j));
    if And(word, Pow2(j)) != 0 {
      Pow2Values();
      var b := NonZeroBit(And(word, Pow2(j)), 64);
      AndBit(word, Pow2(j), b);
      OneBit(j, b);
    }
  }
}
