/** What the operations of a physical view mean for the coupling of views and parent and for the watches. */
module PhysicalSteps {
  import opened Options
  import opened Bits
  import opened Arithmetic
  import opened PageTable
  import opened Geometry
  import opened BaseHeaps
  import opened WatchLaws
  import opened PhysicalHeaps
  import opened Coupling

  /** How a view and the parent lie: page sizes and offsets are multiples of each other as the code asserts. */
  predicate LaidOut(g: Geometry, parent: Geometry) {
    && WindowOf(g).Valid() && parent.Valid() && parent.base == 0 && 0 < g.base
    && parent.pageShift <= g.pageShift && Low(PhysicalOffset(g), parent.pageShift) == 0 && Low(g.base, g.pageShift) == 0
    && PhysicalOffset(g) + g.Size() <= parent.Size()
  }

  function MappingOf(g: Geometry, parent: Geometry): Mapping
    requires parent.pageShift <= g.pageShift
  {
    Mapping(Shr(PhysicalOffset(g), parent.pageShift), g.pageShift - parent.pageShift)
  }

  // ----- pins

  /** A sum that wraps around the word keeps its alignment. */
  lemma {:induction false} WrappedSumAligned(a: uint32, b: uint32, k: nat)
    requires k <= 32 && Low(Add32(a, b), k) == 0
    ensures Low(a + b, k) == 0
  {
    if a + b >= U32 {
      WordAligned(k);
      ShiftSum(U32, Add32(a, b), k);
    }
  }

  /** An address the view accepts is one that the view reaches from the parent without wrapping around. */
  lemma {:induction false} PinnedOffset(g: Geometry, parent: Geometry, pa: uint32)
    requires LaidOut(g, parent) && g.PageOf(ViewAddress(g, pa)) < g.pages
    ensures PhysicalOffset(g) <= pa && ViewAddress(g, pa) == g.base + (pa - PhysicalOffset(g))
    ensures pa - PhysicalOffset(g) < g.Size()
  {
    g.PageOfInside(ViewAddress(g, pa));
  }

  lemma {:induction false} AcceptedAligned(g: Geometry, parent: Geometry, pa: uint32, alignment: uint32)
    requires LaidOut(g, parent) && g.PageOf(ViewAddress(g, pa)) < g.pages
    requires alignment > 0 && Low(alignment, g.pageShift) == 0 && !Misaligned(g, ViewAddress(g, pa), alignment)
    ensures PhysicalOffset(g) <= pa && Low(pa - PhysicalOffset(g), g.pageShift) == 0
  {
    var k, address := g.pageShift, ViewAddress(g, pa);
    PinnedOffset(g, parent, pa);
    var sum := Add32(address, g.hostOffset);
    DivMod(sum, alignment);
    MultipleAligned(sum / alignment, alignment, k);
    WrappedSumAligned(address, g.hostOffset, k);
    ShiftDifference(address + g.hostOffset, g.hostOffset, k);
    ShiftDifference(address, g.base, k);
  }

  /** The view page where a parent address is pinned covers the parent page of that address first. */
  lemma {:induction false} PinnedPage(g: Geometry, parent: Geometry, pa: uint32, alignment: uint32)
    requires LaidOut(g, parent) && g.PageOf(ViewAddress(g, pa)) < g.pages
    requires alignment > 0 && Low(alignment, g.pageShift) == 0 && !Misaligned(g, ViewAddress(g, pa), alignment)
    ensures MappingOf(g, parent).ParentPage(g.PageOf(ViewAddress(g, pa))) == parent.PageOf(pa)
  {
    var off := PhysicalOffset(g);
    AcceptedAligned(g, parent, pa, alignment);
    PinnedOffset(g, parent, pa);
    ViewPageInParent(g, parent, pa - off);
    ShiftSum(off, pa - off, parent.pageShift);
  }

  /** An aligned offset in the view, counted in parent pages. */
  lemma {:induction false} ViewPageInParent(g: Geometry, parent: Geometry, x: nat)
    requires parent.pageShift <= g.pageShift && Low(x, g.pageShift) == 0
    ensures Low(x, parent.pageShift) == 0
    ensures Shr(x, parent.pageShift) == Shl(Shr(x, g.pageShift), g.pageShift - parent.pageShift)
  {
    var k, s := g.pageShift, parent.pageShift;
    ShiftSplit(x, k);
    ShlShl(Shr(x, k), k - s, s);
    ShlAligned(Shl(Shr(x, k), k - s), s);
  }

  /** The bytes that an allocation reserves in the parent and pins in the view. */
  function ParentBytes(parent: Geometry, q: Request): nat
    requires parent.Valid()
  {
    RoundUp(q.size, parent.pageShift)
  }

  function PinnedBytes(g: Geometry, q: Request): nat
    requires g.Valid()
  {
    RoundUp(Align(q.size, q.alignment), g.pageShift)
  }

  /** The page counts of parent and view say the same bytes exactly when the byte counts agree. */
  lemma {:induction false} CountsAgree(g: Geometry, parent: Geometry, q: Request)
    requires LaidOut(g, parent) && q.Fits(g, parent) && Low(q.alignment, g.pageShift) == 0 && q.alignment > 0
    ensures PageCount(q.size, parent.pageShift)
              == Shl(FixedCount(q.size, q.alignment, g.pageShift), g.pageShift - parent.pageShift)
            <==> ParentBytes(parent, q) == PinnedBytes(g, q)
  {
    var k, s := g.pageShift, parent.pageShift;
    RoundUpBounds(q.alignment, k);
    var a, b := ParentBytes(parent, q), PinnedBytes(g, q);
    ViewPageInParent(g, parent, b);
    ShiftAligned(a, s);
    ShiftAligned(b, s);
  }

  /** Without wrap-around the parent and the view agree exactly when the rounded size is already aligned. */
  lemma {:induction false} SizesAgree(g: Geometry, parent: Geometry, q: Request)
    requires LaidOut(g, parent) && q.size + Pow2(g.pageShift) <= U32 && q.alignment + Pow2(g.pageShift) <= U32
    ensures q.Rounded(g).Fits(g, parent)
    ensures var r := q.Rounded(g);
            ParentBytes(parent, r) == PinnedBytes(g, r) <==> Align(r.size, r.alignment) == r.size
  {
    var k, s, r := g.pageShift, parent.pageShift, q.Rounded(g);
    RoundedFits(g, parent, q);
    RoundUpBounds(q.size, k);
    LastMultiple(r.size, k);
    Pow2Mono(s, k);
    ViewPageInParent(g, parent, r.size);
    RoundUpBounds(r.size, s);
    var a := Align(r.size, r.alignment);
    AlignKeepsPages(r.size, r.alignment, k);
    LastMultiple(a, k);
    RoundUpBounds(a, k);
    if a == 0 && r.size == Pow2(k) {
      RoundUpBounds(q.alignment, k);
      AlignNotBelow(r.size, r.alignment);
    }
  }

  /** A region pinned where its parent region begins keeps the views coupled exactly when both have the same size. */
  lemma {:induction false} PinCouples(m: Machine, i: nat, first: nat, n: nat, pages: nat, kind: AllocationType,
                                      protect: Protection)
    requires Coupled(m) && i < |m.views| && n > 0 && pages > 0 && first + n <= |m.views[i].table|
    requires var start := m.views[i].mapping.ParentPage(first);
             start + pages <= |m.parent| && !SomeTakenIn(m.parent, start, pages)
    ensures var v := m.views[i];
            var t := Pinned(v.table, first, n, Reserves(v.table, first, n, kind), kind != Reserve, protect);
            Coupled(Machine(Pinned(m.parent, v.mapping.ParentPage(first), pages, true, kind != Reserve, protect),
                            m.views[i := View(v.mapping, t)]))
            <==> pages == Shl(n, v.mapping.shift)
  {
    var v := m.views[i];
    var start := v.mapping.ParentPage(first);
    FirstPageFree(m.parent, v, first, pages);
    assert !v.table[first].reserved;
    var t := Pinned(v.table, first, n, Reserves(v.table, first, n, kind), kind != Reserve, protect);
    var m' := Machine(Pinned(m.parent, start, pages, true, kind != Reserve, protect), m.views[i := View(v.mapping, t)]);
    if pages == Shl(n, v.mapping.shift) {
      assert Coupling.Pins(m, m', i, first, n, kind != Reserve, protect);
      PinKeepsCoupled(m, m', i, first, n, kind != Reserve, protect);
    }
    if Coupled(m') {
      assert Backed(m'.parent, m'.views[i]);
      assert t[first].reserved && t[first].base == first && t[first].count == n;
      assert RegionAt(m'.parent, start, Shl(n, v.mapping.shift));
    }
  }

  lemma {:induction false} FirstPageFree(parent: Table, v: View, first: nat, pages: nat)
    requires Regions(parent) && Regions(v.table) && Backed(parent, v) && first < |v.table| && pages > 0
    requires v.mapping.ParentPage(first) + pages <= |parent| && !SomeTakenIn(parent, v.mapping.ParentPage(first), pages)
    ensures IsFree(v.table[first])
  {
    var x := v.mapping.ParentPage(first);
    ShlMono(first, first + 1, v.mapping.shift);
    if !IsFree(v.table[first]) {
      BackedPages(parent, v, first, x);
    }
  }

  /** View `i` of the machine and its parent, as the class keeps them. */
  ghost predicate Shows(m: Machine, i: nat, g: Geometry, parent: Geometry, p: Table, v: Table) {
    && LaidOut(g, parent) && i < |m.views|
    && m.parent == p && m.views[i] == View(MappingOf(g, parent), v) && |p| == parent.pages && |v| == g.pages
  }

  /** An allocation keeps the views coupled if it fails; if it succeeds, exactly when parent and view round its size to
      the same number of bytes. */
  lemma {:induction false} AllocationCouples(m: Machine, i: nat, g: Geometry, parent: Geometry, v: Snapshot,
                                             v': Snapshot, p: Snapshot, p': Snapshot, low: uint32, high: uint32,
                                             q: Request, topDown: bool, parentOk: bool, viewOk: bool, r: Outcome,
                                             address: uint32, found: Option<nat>)
    requires Coupled(m) && Shows(m, i, g, parent, p.table, v.table)
    requires q.Fits(g, parent) && Low(q.alignment, g.pageShift) == 0
    requires AllocatedIn(g, parent, v, v', p, p', low, high, q, topDown, parentOk, viewOk, r, address, found)
    ensures Coupled(Machine(p'.table, m.views[i := View(MappingOf(g, parent), v'.table)]))
            <==> (r == Done ==> ParentBytes(parent, q) == PinnedBytes(g, q))
  {
    var m' := Machine(p'.table, m.views[i := View(MappingOf(g, parent), v'.table)]);
    if r == Done {
      PinnedAllocation(m, i, g, parent, v, v', p, p', q, viewOk, r, address, found.value);
    } else {
      assert m.views[i := View(MappingOf(g, parent), v'.table)] == m.views;
      if p'.table != p.table {
        FoundFree(parent, p.table, low, high, q, topDown, found.value);
        ParentPinKeepsCoupled(m, m', found.value, PageCount(q.size, parent.pageShift), q.kind != Reserve, q.protect);
      }
    }
  }

  lemma {:induction false} PinnedAllocation(m: Machine, i: nat, g: Geometry, parent: Geometry, v: Snapshot,
                                            v': Snapshot, p: Snapshot, p': Snapshot, q: Request, viewOk: bool,
                                            r: Outcome, address: uint32, page: nat)
    requires Coupled(m) && Shows(m, i, g, parent, p.table, v.table) && page < parent.pages
    requires q.Fits(g, parent) && Low(q.alignment, g.pageShift) == 0 && r == Done
    requires AllocPinIn(g, parent, v, v', p, p', q, viewOk, r, address, page)
    ensures Coupled(Machine(p'.table, m.views[i := View(MappingOf(g, parent), v'.table)]))
            <==> ParentBytes(parent, q) == PinnedBytes(g, q)
  {
    var count := PageCount(q.size, parent.pageShift);
    DonePage(g, parent, v.table, page, q, viewOk);
    FixedCountPositive(q.size, q.alignment, g.pageShift);
    CountsAgree(g, parent, q);
    assert !SomeTakenIn(m.parent, page, count);
    PinCouples(m, i, g.PageOf(address), FixedCount(q.size, q.alignment, g.pageShift), count, q.kind, q.protect);
  }

  /** A pin that succeeds lies where the parent region begins. */
  lemma {:induction false} DonePage(g: Geometry, parent: Geometry, t: Table, page: nat, q: Request, viewOk: bool)
    requires LaidOut(g, parent) && page < parent.pages && |t| == g.pages
    requires q.Fits(g, parent) && Low(q.alignment, g.pageShift) == 0
    requires PinOutcome(g, t, AddressOf(parent, page), q.size, q.alignment, q.kind, !SkipsHostCommit(g) && !viewOk)
             == Done
    ensures q.alignment > 0
    ensures MappingOf(g, parent).ParentPage(g.PageOf(ViewAddress(g, AddressOf(parent, page)))) == page
  {
    FixedCountPositive(q.size, q.alignment, g.pageShift);
    PinnedPage(g, parent, AddressOf(parent, page), q.alignment);
    ParentPageOf(parent, page);
  }

  /** What the parent's search finds is free. */
  lemma {:induction false} FoundFree(parent: Geometry, t: Table, low: uint32, high: uint32, q: Request, topDown: bool,
                                     page: nat)
    requires parent.Valid() && |t| == parent.pages && q.alignment + Pow2(parent.pageShift) <= U32
    requires RangeFound(parent, t, low, high, q.size, q.alignment, topDown, Some(page))
    ensures var count := PageCount(q.size, parent.pageShift);
            page + count <= |t| && !SomeTakenIn(t, page, count)
  {
    var free := FreeBits(t);
    forall p: nat | page <= p < page + PageCount(q.size, parent.pageShift) && p < |t| ensures IsFree(t[p]) {
      assert free[p];
    }
  }

  /** The same for a fixed address whose range is free in the parent: both sides round the size alike unless the aligned
      size is zero. */
  lemma {:induction false} FixedCouples(m: Machine, i: nat, g: Geometry, parent: Geometry, v: Snapshot, v': Snapshot,
                                        p: Snapshot, p': Snapshot, address: uint32, q: Request, parentOk: bool,
                                        viewOk: bool, r: Outcome)
    requires Coupled(m) && Shows(m, i, g, parent, p.table, v.table)
    requires q.Fits(g, parent) && Low(q.alignment, g.pageShift) == 0
    requires FixedIn(g, parent, v, v', p, p', address, q, parentOk, viewOk, r)
    requires var page, count := parent.PageOf(address), FixedCount(q.size, q.alignment, parent.pageShift);
             page + count <= |p.table| ==> !SomeTakenIn(p.table, page, count)
    ensures Coupled(Machine(p'.table, m.views[i := View(MappingOf(g, parent), v'.table)]))
            <==> (r == Done && Align(q.size, q.alignment) == 0 ==> g.pageShift == parent.pageShift)
  {
    var m' := Machine(p'.table, m.views[i := View(MappingOf(g, parent), v'.table)]);
    var page, count := parent.PageOf(address), FixedCount(q.size, q.alignment, parent.pageShift);
    FixedCountPositive(q.size, q.alignment, parent.pageShift);
    FixedCountPositive(q.size, q.alignment, g.pageShift);
    if page + count <= |p.table| {
      assert !SomeTaken(p.table, page, page + count);
      assert IsFree(p.table[page]);
    }
    if r == Done {
      PinnedFixed(m, i, g, parent, v, v', p, p', address, q, viewOk, r);
    } else {
      assert m.views[i := View(MappingOf(g, parent), v'.table)] == m.views;
      if p'.table != p.table {
        ParentPinKeepsCoupled(m, m', page, count, q.kind != Reserve, q.protect);
      }
    }
  }

  lemma {:induction false} PinnedFixed(m: Machine, i: nat, g: Geometry, parent: Geometry, v: Snapshot, v': Snapshot,
                                       p: Snapshot, p': Snapshot, address: uint32, q: Request, viewOk: bool, r: Outcome)
    requires Coupled(m) && Shows(m, i, g, parent, p.table, v.table)
    requires q.Fits(g, parent) && Low(q.alignment, g.pageShift) == 0 && r == Done
    requires FixedPinIn(g, parent, v, v', p, p', address, q, viewOk, r)
    requires !SomeTakenIn(p.table, parent.PageOf(address), FixedCount(q.size, q.alignment, parent.pageShift))
    ensures Coupled(Machine(p'.table, m.views[i := View(MappingOf(g, parent), v'.table)]))
            <==> (Align(q.size, q.alignment) == 0 ==> g.pageShift == parent.pageShift)
  {
    var page, count := parent.PageOf(address), FixedCount(q.size, q.alignment, parent.pageShift);
    var first, n := g.PageOf(ViewAddress(g, address)), FixedCount(q.size, q.alignment, g.pageShift);
    FixedCountPositive(q.size, q.alignment, parent.pageShift);
    FixedCountPositive(q.size, q.alignment, g.pageShift);
    assert IsFree(p.table[page]);
    PinnedPage(g, parent, address, q.alignment);
    FixedCountsAgree(g, parent, q);
    PinCouples(m, i, first, n, count, q.kind, q.protect);
  }

  lemma {:induction false} FixedCountsAgree(g: Geometry, parent: Geometry, q: Request)
    requires LaidOut(g, parent) && q.Fits(g, parent) && Low(q.alignment, g.pageShift) == 0 && q.alignment > 0
    ensures FixedCount(q.size, q.alignment, parent.pageShift)
              == Shl(FixedCount(q.size, q.alignment, g.pageShift), g.pageShift - parent.pageShift)
            <==> (Align(q.size, q.alignment) == 0 ==> g.pageShift == parent.pageShift)
  {
    var k, s := g.pageShift, parent.pageShift;
    RoundUpBounds(q.alignment, k);
    ViewPageInParent(g, parent, q.alignment);
    RoundUpBounds(q.alignment, s);
    var a := Align(q.size, q.alignment);
    AlignKeepsPages(q.size, q.alignment, k);
    LastMultiple(a, k);
    Pow2Mono(s, k);
    ViewPageInParent(g, parent, a);
    RoundUpBounds(a, k);
    RoundUpBounds(a, s);
    if a == 0 {
      ShlPow2(k, 0);
      ShlPow2(s, 0);
      ShlAligned(1, k);
      ShlAligned(1, s);
      ShlPow2(k - s, 0);
      if k > s { Pow2Mono(1, k - s); }
    }
  }

  // ----- releases

  /** The parent page of a view address lies behind the view page of that address. */
  lemma {:induction false} PhysicalPage(g: Geometry, parent: Geometry, address: uint32)
    requires LaidOut(g, parent) && g.base <= address < g.base + g.Size()
    ensures var q := parent.PageOf(address - g.base + PhysicalOffset(g));
            MappingOf(g, parent).ParentPage(g.PageOf(address)) <= q
            < MappingOf(g, parent).ParentPage(g.PageOf(address) + 1)
    ensures parent.PageOf(address - g.base + PhysicalOffset(g)) < parent.pages
  {
    var x, k, s, off := address - g.base, g.pageShift, parent.pageShift, PhysicalOffset(g);
    ShiftSum(off, x, s);
    ShrShr(x, s, k - s);
    ShiftGalois(g.PageOf(address), Shr(x, s), k - s);
    ShiftGalois(g.PageOf(address) + 1, Shr(x, s), k - s);
    parent.PageOfInside(x + off);
  }

  /** What a release through view `i` leaves of the machine once the parent has let go. */
  function AfterRelease(m: Machine, i: nat, g: Geometry, parent: Geometry, address: uint32): Machine
    requires i < |m.views| && LaidOut(g, parent) && g.base <= address < g.base + g.Size()
    requires |m.parent| == parent.pages && |m.views[i].table| == g.pages
  {
    PhysicalPage(g, parent, address);
    g.PageOfInside(address);
    var q, page, t := parent.PageOf(address - g.base + PhysicalOffset(g)), g.PageOf(address), m.views[i].table;
    Machine(Cleared(m.parent, q, m.parent[q].count),
            if ReleaseOutcome(g, t, page) == Done
            then m.views[i := View(m.views[i].mapping, Cleared(t, page, t[page].count))] else m.views)
  }

  /** A region both sides release begins at the same byte in both and has the same size. */
  lemma {:induction false} OwnRegion(m: Machine, i: nat, g: Geometry, parent: Geometry, address: uint32)
    requires i < |m.views| && Coupled(m) && Shows(m, i, g, parent, m.parent, m.views[i].table)
    requires g.base <= address < g.base + g.Size()
    requires var q := parent.PageOf(address - g.base + PhysicalOffset(g));
             q < |m.parent| && !IsFree(m.parent[q]) && m.parent[q].base == q
    requires ReleaseOutcome(g, m.views[i].table, g.PageOf(address)) == Done
    ensures var q, page := parent.PageOf(address - g.base + PhysicalOffset(g)), g.PageOf(address);
            && q == m.views[i].mapping.ParentPage(page)
            && m.parent[q].count == Shl(m.views[i].table[page].count, m.views[i].mapping.shift)
  {
    var q, page, v := parent.PageOf(address - g.base + PhysicalOffset(g)), g.PageOf(address), m.views[i];
    PhysicalPage(g, parent, address);
    assert Backed(m.parent, v);
    BackedPages(m.parent, v, page, q);
    ReleasedRegion(v.table, page);
    assert RegionAt(m.parent, v.mapping.ParentPage(v.table[page].base), Shl(v.table[page].count, v.mapping.shift));
  }

  lemma {:induction false} BothRelease(m: Machine, i: nat, g: Geometry, parent: Geometry, address: uint32)
    requires i < |m.views| && Coupled(m) && Shows(m, i, g, parent, m.parent, m.views[i].table)
    requires g.base <= address < g.base + g.Size()
    requires ReleaseOutcome(parent, m.parent, parent.PageOf(address - g.base + PhysicalOffset(g))) == Done
    requires ReleaseOutcome(g, m.views[i].table, g.PageOf(address)) == Done
    ensures Coupled(AfterRelease(m, i, g, parent, address))
  {
    var page, m' := g.PageOf(address), AfterRelease(m, i, g, parent, address);
    OwnRegion(m, i, g, parent, address);
    var n := m.views[i].table[page].count;
    ReleasedRegion(m.views[i].table, page);
    assert Unpins(m, m', i, page, n);
    ReleaseKeepsCoupled(m, m', i, page, n);
  }

  /** A release that the parent accepts keeps the views coupled exactly when the view accepts it as well or no view uses
      the parent's region. */
  lemma {:induction false} ReleaseCouples(m: Machine, i: nat, g: Geometry, parent: Geometry, address: uint32)
    requires i < |m.views| && Coupled(m) && Shows(m, i, g, parent, m.parent, m.views[i].table)
    requires g.base <= address < g.base + g.Size()
    requires ReleaseOutcome(parent, m.parent, parent.PageOf(address - g.base + PhysicalOffset(g))) == Done
    ensures Coupled(AfterRelease(m, i, g, parent, address)) <==>
              ReleaseOutcome(g, m.views[i].table, g.PageOf(address)) == Done
              || forall j {:trigger m.views[j]} :: 0 <= j < |m.views| ==>
                   !Backs(m.views[j], parent.PageOf(address - g.base + PhysicalOffset(g)))
  {
    if ReleaseOutcome(g, m.views[i].table, g.PageOf(address)) == Done {
      BothRelease(m, i, g, parent, address);
    } else {
      ParentOnly(m, parent, parent.PageOf(address - g.base + PhysicalOffset(g)));
    }
  }

  lemma {:induction false} ParentOnly(m: Machine, parent: Geometry, q: nat)
    requires Coupled(m) && ReleaseOutcome(parent, m.parent, q) == Done
    ensures q < |m.parent|
    ensures Coupled(Machine(Cleared(m.parent, q, m.parent[q].count), m.views)) <==>
              forall j {:trigger m.views[j]} :: 0 <= j < |m.views| ==> !Backs(m.views[j], q)
  {
    ReleasedRegion(m.parent, q);
    ParentReleaseKeepsCoupled(m, q, m.parent[q].count);
  }

  // ----- flags

  /** A decommit keeps the views coupled. */
  lemma {:induction false} DecommitCouples(m: Machine, i: nat, lo: nat, hi: nat, lo': nat, hi': nat)
    requires Coupled(m) && i < |m.views|
    ensures Coupled(Machine(Decommitted(m.parent, lo, hi),
                            m.views[i := View(m.views[i].mapping, Decommitted(m.views[i].table, lo', hi'))]))
  {
    var t := Decommitted(m.views[i].table, lo', hi');
    DecommitKeeps(m.parent, lo, hi);
    DecommitKeeps(m.views[i].table, lo', hi');
    FlagsCouple(m, i, Decommitted(m.parent, lo, hi), t);
  }

  lemma {:induction false} ProtectedSameRegions(t: Table, first: nat, last: nat, protect: Protection)
    requires Regions(t) && last < |t| && Protectable(t, first, last)
    ensures SameRegions(t, Protected(t, first, last + 1, protect)) && Regions(Protected(t, first, last + 1, protect))
  {
    ProtectKeeps(t, first, last + 1, protect);
  }

  /** The table of a view after a change of protection, or the table as it was. */
  ghost predicate MaybeProtected(t: Table, t': Table, protect: Protection) {
    t' == t || exists first, last :: 0 <= first <= last < |t| && Protectable(t, first, last)
                                     && t' == Protected(t, first, last + 1, protect)
  }

  lemma {:induction false} MaybeProtectedSameRegions(t: Table, t': Table, protect: Protection)
    requires Regions(t) && MaybeProtected(t, t', protect)
    ensures SameRegions(t, t') && Regions(t')
  {
    if t' != t {
      var first, last :| 0 <= first <= last < |t| && Protectable(t, first, last)
                         && t' == Protected(t, first, last + 1, protect);
      ProtectedSameRegions(t, first, last, protect);
    }
  }

  /** A change of protection keeps the views coupled, whether both sides change or the parent only. */
  lemma {:induction false} ProtectCouples(m: Machine, i: nat, first: nat, last: nat, protect: Protection, t: Table)
    requires Coupled(m) && i < |m.views| && last < |m.parent| && Protectable(m.parent, first, last)
    requires MaybeProtected(m.views[i].table, t, protect)
    ensures Coupled(Machine(Protected(m.parent, first, last + 1, protect), m.views[i := View(m.views[i].mapping, t)]))
  {
    ProtectedSameRegions(m.parent, first, last, protect);
    MaybeProtectedSameRegions(m.views[i].table, t, protect);
    FlagsCouple(m, i, Protected(m.parent, first, last + 1, protect), t);
  }

  lemma {:induction false} FlagsCouple(m: Machine, i: nat, parent': Table, t: Table)
    requires Coupled(m) && i < |m.views| && SameRegions(m.parent, parent') && Regions(parent')
    requires SameRegions(m.views[i].table, t) && Regions(t)
    ensures Coupled(Machine(parent', m.views[i := View(m.views[i].mapping, t)]))
  {
    assert Reflags(m, Machine(parent', m.views[i := View(m.views[i].mapping, t)]), i);
    ReflagKeepsCoupled(m, Machine(parent', m.views[i := View(m.views[i].mapping, t)]), i);
  }

  // ----- watches

  /** A view region pinned over free parent pages is an allocation of free pages. */
  lemma {:induction false} AllocationWatches(m: Machine, i: nat, g: Geometry, parent: Geometry, v: Snapshot,
                                             v': Snapshot, first: nat, n: nat, kind: AllocationType,
                                             protect: Protection, watched: seq<bool>)
    requires Coupled(m) && Shows(m, i, g, parent, m.parent, v.table) && n > 0 && first + n <= |v.table|
    requires !SkipsHostCommit(g)
    requires !SomeTakenIn(m.parent, m.views[i].mapping.ParentPage(first), Shl(n, m.views[i].mapping.shift))
    requires BaseHeaps.Pins(g, v.table, v.host, v'.table, v'.host, first, n, kind, protect)
    requires Exact(g, WatchLaws.State(v.table, v.host, watched))
    ensures Exact(g, WatchLaws.State(v'.table, v'.host, watched))
  {
    PinTargetIsFree(m.parent, m.views[i], first, n);
    assert !SomeTaken(v.table, first, first + n);
    assert IsFree(v.table[first]);
    AllocateKeepsExact(g, WatchLaws.State(v.table, v.host, watched), first, n, kind != Reserve, protect);
  }

  /** An allocation for which parent and view agree about the size keeps host accesses exact. */
  lemma {:induction false} AllocationExact(m: Machine, i: nat, g: Geometry, parent: Geometry, v: Snapshot, v': Snapshot,
                                           p: Snapshot, p': Snapshot, low: uint32, high: uint32, q: Request,
                                           topDown: bool, parentOk: bool, viewOk: bool, r: Outcome, address: uint32,
                                           found: Option<nat>, watched: seq<bool>)
    requires Coupled(m) && Shows(m, i, g, parent, p.table, v.table) && !SkipsHostCommit(g)
    requires q.Fits(g, parent) && Low(q.alignment, g.pageShift) == 0
    requires AllocatedIn(g, parent, v, v', p, p', low, high, q, topDown, parentOk, viewOk, r, address, found)
    requires r == Done ==> ParentBytes(parent, q) == PinnedBytes(g, q)
    requires Exact(g, WatchLaws.State(v.table, v.host, watched))
    ensures Exact(g, WatchLaws.State(v'.table, v'.host, watched))
  {
    if r == Done {
      var first, n := g.PageOf(address), FixedCount(q.size, q.alignment, g.pageShift);
      DonePage(g, parent, v.table, found.value, q, viewOk);
      FixedCountPositive(q.size, q.alignment, g.pageShift);
      CountsAgree(g, parent, q);
      assert !SomeTakenIn(m.parent, found.value, PageCount(q.size, parent.pageShift));
      AllocationWatches(m, i, g, parent, v, v', first, n, q.kind, q.protect, watched);
    }
  }

  lemma {:induction false} FixedExact(m: Machine, i: nat, g: Geometry, parent: Geometry, v: Snapshot, v': Snapshot,
                                      p: Snapshot, p': Snapshot, address: uint32, q: Request, parentOk: bool,
                                      viewOk: bool, r: Outcome, watched: seq<bool>)
    requires Coupled(m) && Shows(m, i, g, parent, p.table, v.table) && !SkipsHostCommit(g)
    requires q.Fits(g, parent) && Low(q.alignment, g.pageShift) == 0
    requires FixedIn(g, parent, v, v', p, p', address, q, parentOk, viewOk, r)
    requires var page, count := parent.PageOf(address), FixedCount(q.size, q.alignment, parent.pageShift);
             page + count <= |p.table| ==> !SomeTakenIn(p.table, page, count)
    requires r == Done && Align(q.size, q.alignment) == 0 ==> g.pageShift == parent.pageShift
    requires Exact(g, WatchLaws.State(v.table, v.host, watched))
    ensures Exact(g, WatchLaws.State(v'.table, v'.host, watched))
  {
    if r == Done {
      var first, n := g.PageOf(ViewAddress(g, address)), FixedCount(q.size, q.alignment, g.pageShift);
      FixedCountPositive(q.size, q.alignment, g.pageShift);
      PinnedPage(g, parent, address, q.alignment);
      FixedCountsAgree(g, parent, q);
      AllocationWatches(m, i, g, parent, v, v', first, n, q.kind, q.protect, watched);
    }
  }

  /** The watches that a release fires include those of every host page of the region. */
  lemma {:induction false} ReleaseCovers(g: Geometry, t: Table, address: uint32)
    requires SmallPages(g) && Regions(t) && |t| == g.pages && 0 < g.base <= address < g.base + g.Size()
    requires ReleaseOutcome(g, t, g.PageOf(address)) == Done
    requires Shr(address - g.base + g.hostOffset, g.sysShift) == HostFirst(g, g.PageOf(address))
    ensures var (page, pages) := (g.PageOf(address), ReleaseNotice(g, t, address));
            && page < g.pages && pages.Some? && pages.value.0 <= HostFirst(g, page)
            && HostFirst(g, page) + HostCount(g, t[page].count) <= pages.value.1 + 1
  {
    var page := g.PageOf(address);
    g.PageOfInside(address);
    WholeRegion(g, t, page);
    ClippedCovers(g, address, t[page].count);
  }

  /** The host pages of a range that starts in the first of `n` guest pages and is as long as all of them. */
  lemma {:induction false} ClippedCovers(g: Geometry, address: uint32, n: nat)
    requires SmallPages(g) && g.base <= address < g.base + g.Size() && g.PageOf(address) + n <= g.pages
    requires n > 0 && 0 < Shl(n, g.pageShift) < U32
    ensures var pages := ClippedPages(g, g.base, address, Shl(n, g.pageShift));
            && pages.Some? && pages.value.0 == Shr(address - g.base + g.hostOffset, g.sysShift)
            && HostFirst(g, g.PageOf(address)) + HostCount(g, n) <= pages.value.1 + 1
  {
    ShiftGalois(g.PageOf(address), address - g.base, g.pageShift);
    ClippedInside(g, address, Shl(n, g.pageShift));
    CoversRange(g, g.PageOf(address), n, address - g.base, Shl(n, g.pageShift));
  }

  /** The code's region size does not wrap around. */
  lemma {:induction false} WholeRegion(g: Geometry, t: Table, page: nat)
    requires g.Valid() && 0 < g.base && Regions(t) && |t| == g.pages && page < |t| && !IsFree(t[page])
    requires t[page].base == page
    ensures t[page].count > 0 && page + t[page].count <= g.pages
    ensures 0 < RegionBytes(g, t, page) == Shl(t[page].count, g.pageShift)
  {
    RegionsMean(t);
    assert InRegion(t, page);
    RegionInHeap(g, page, t[page].count);
    WordFits(Shl(t[page].count, g.pageShift));
  }

  lemma {:induction false} WordFits(x: nat)
    requires x < U32
    ensures x % U32 == x
  {
  }

  /** The host pages of a range that starts in the heap. */
  lemma {:induction false} ClippedInside(g: Geometry, address: uint32, length: uint32)
    requires g.Valid() && g.base <= address < g.base + g.Size() && length > 0
    ensures var x := address - g.base;
            ClippedPages(g, g.base, address, length)
              == Some((Shr(x + g.hostOffset, g.sysShift),
                       Min(Shr(x + Min(length, g.Size() - x) - 1 + g.hostOffset, g.sysShift), g.HostPages() - 1)))
  {
  }

  lemma {:induction false} RegionInHeap(g: Geometry, page: nat, n: nat)
    requires g.Valid() && n > 0 && page + n <= g.pages
    ensures 0 < Shl(n, g.pageShift) && Shl(page, g.pageShift) + Shl(n, g.pageShift) <= g.Size()
  {
    ShlMono(page + n, g.pages, g.pageShift);
    ShlAdd(page, n, g.pageShift);
    ShlMono(1, n, g.pageShift);
    ShlPow2(g.pageShift, 0);
  }

  /** A range that starts in the first of some guest pages and is as long as all of them reaches their last host page.
      */
  lemma {:induction false} CoversRange(g: Geometry, page: nat, n: nat, x: nat, length: nat)
    requires SmallPages(g) && n > 0 && page + n <= g.pages && Shl(page, g.pageShift) <= x < g.Size()
    requires length >= Shl(n, g.pageShift)
    ensures var length' := Min(length, g.Size() - x);
            x + length' - 1 + g.hostOffset >= 0
            && Min(Shr(x + length' - 1 + g.hostOffset, g.sysShift), g.HostPages() - 1) + 1
               >= HostFirst(g, page) + HostCount(g, n)
  {
    StretchEnds(g, page, n);
    LastUnit(g.HostOffsetOf(page) + Shl(n, g.pageShift) - 1,
             x + Min(length, g.Size() - x) - 1 + g.hostOffset, g.sysShift, HostFirst(g, page) + HostCount(g, n), g.HostPages());
  }

  /** Where a stretch of guest pages ends, in bytes and in host pages. */
  lemma {:induction false} StretchEnds(g: Geometry, page: nat, n: nat)
    requires SmallPages(g) && n > 0 && page + n <= g.pages
    ensures 0 < Shl(n, g.pageShift) && Shl(page, g.pageShift) + Shl(n, g.pageShift) <= g.Size()
    ensures Shr(g.HostOffsetOf(page) + Shl(n, g.pageShift) - 1, g.sysShift) == HostFirst(g, page) + HostCount(g, n) - 1
    ensures HostFirst(g, page) + HostCount(g, n) <= g.HostPages()
  {
    RegionInHeap(g, page, n);
    LastHostPage(g, page, n);
    g.SmallHostPages(page);
    g.SmallHostPages(n);
    g.HostStretch(page, n);
  }

  /** A byte at or after the last byte of a unit lies in that unit or after. */
  lemma {:induction false} LastUnit(y: nat, x: nat, k: nat, end: nat, limit: nat)
    requires y <= x && Shr(y, k) == end - 1 && end <= limit
    ensures Min(Shr(x, k), limit - 1) + 1 >= end
  {
    ShrMono(y, x, k);
  }

  lemma {:induction false} LastHostPage(g: Geometry, page: nat, n: nat)
    requires SmallPages(g) && n > 0
    ensures g.HostOffsetOf(page) + Shl(n, g.pageShift) > 0
    ensures Shr(g.HostOffsetOf(page) + Shl(n, g.pageShift) - 1, g.sysShift) == HostFirst(g, page) + HostCount(g, n) - 1
  {
    g.SmallHostPages(page);
    g.SmallHostPages(n);
    PagesPositive(n, g.pageShift);
    ShiftSum(g.HostOffsetOf(page), Shl(n, g.pageShift), g.sysShift);
    ShiftBelow(g.HostOffsetOf(page) + Shl(n, g.pageShift), g.sysShift);
  }

  lemma {:induction false} PagesPositive(n: nat, k: nat)
    requires n > 0
    ensures Shl(n, k) > 0
  {
    ShlMono(1, n, k);
    ShlPow2(k, 0);
  }

  /** A release keeps host accesses exact if it fires the watches from the first host page of the region on. */
  lemma {:induction false} ReleaseWatches(g: Geometry, s: WatchLaws.State, address: uint32)
    requires Exact(g, s) && Regions(s.table) && 0 < g.base <= address < g.base + g.Size()
    requires g.PageOf(address) < |s.table|
    requires ReleaseOutcome(g, s.table, g.PageOf(address)) == Done ==>
               Shr(address - g.base + g.hostOffset, g.sysShift) == HostFirst(g, g.PageOf(address))
    ensures Exact(g, ReleasedState(g, s, address))
  {
    var page, pages := g.PageOf(address), ReleaseNotice(g, s.table, address);
    if pages.Some? {
      TriggerKeepsExact(g, s, pages.value.0, pages.value.1);
    }
    if ReleaseOutcome(g, s.table, page) == Done {
      ReleaseCovers(g, s.table, address);
      WholeRegion(g, s.table, page);
      ReleaseKeepsExact(g, s, pages.value.0, pages.value.1, page, s.table[page].count);
    }
  }

  /** In a coupled machine every address at which both sides release a region lies in the region's first host page. */
  lemma {:induction false} ReleaseAtStart(m: Machine, i: nat, g: Geometry, parent: Geometry, address: uint32)
    requires i < |m.views| && Coupled(m) && Shows(m, i, g, parent, m.parent, m.views[i].table)
    requires SmallPages(g) && g.base <= address < g.base + g.Size() && parent.pageShift == g.sysShift
    requires var q := parent.PageOf(address - g.base + PhysicalOffset(g));
             q < |m.parent| && !IsFree(m.parent[q]) && m.parent[q].base == q
    requires ReleaseOutcome(g, m.views[i].table, g.PageOf(address)) == Done
    ensures Shr(address - g.base + g.hostOffset, g.sysShift) == HostFirst(g, g.PageOf(address))
  {
    var x, page := address - g.base, g.PageOf(address);
    assert Shr(x + PhysicalOffset(g), g.sysShift) == MappingOf(g, parent).ParentPage(page) by {
      OwnRegion(m, i, g, parent, address);
    }
    SameHostPage(g, parent, x, page);
  }

  lemma {:induction false} SameHostPage(g: Geometry, parent: Geometry, x: nat, page: nat)
    requires LaidOut(g, parent) && SmallPages(g) && parent.pageShift == g.sysShift
    requires Shr(x + PhysicalOffset(g), g.sysShift) == MappingOf(g, parent).ParentPage(page)
    ensures Shr(x + g.hostOffset, g.sysShift) == HostFirst(g, page)
  {
    ShlAligned(page, g.pageShift);
    ViewPageInParent(g, parent, Shl(page, g.pageShift));
    LowCoarser(g.hostOffset, g.sysShift, g.pageShift);
    SameUnits(PhysicalOffset(g), g.hostOffset, x, Shl(page, g.pageShift), g.sysShift);
  }

  /** Shifting by another whole number of units changes no comparison of units. */
  lemma {:induction false} SameUnits(o: nat, o': nat, x: nat, y: nat, k: nat)
    requires Low(o, k) == 0 && Low(o', k) == 0 && Low(y, k) == 0 && Shr(x + o, k) == Shr(o, k) + Shr(y, k)
    ensures Shr(x + o', k) == Shr(o' + y, k)
  {
    ShiftSum(o, x, k);
    ShiftSum(o', x, k);
    ShiftSum(o', y, k);
  }

  /** In a coupled machine a release that both sides accept keeps host accesses exact. */
  lemma {:induction false} ReleaseExact(m: Machine, i: nat, g: Geometry, parent: Geometry, address: uint32,
                                        s: WatchLaws.State)
    requires i < |m.views| && Coupled(m) && Shows(m, i, g, parent, m.parent, m.views[i].table)
    requires SmallPages(g) && g.base <= address < g.base + g.Size() && parent.pageShift == g.sysShift
    requires var q := parent.PageOf(address - g.base + PhysicalOffset(g));
             q < |m.parent| && !IsFree(m.parent[q]) && m.parent[q].base == q
    requires ReleaseOutcome(g, m.views[i].table, g.PageOf(address)) == Done
    requires Exact(g, s) && s.table == m.views[i].table
    ensures g.PageOf(address) < |s.table| && Exact(g, ReleasedState(g, s, address))
  {
    g.PageOfInside(address);
    ReleaseAtStart(m, i, g, parent, address);
    ReleaseWatches(g, s, address);
  }

  /** Firing watches keeps host accesses exact if it unprotects; if it does not, exactly when no watch on a page the
      guest may write to is dropped. */
  lemma {:induction false} FiredWatches(g: Geometry, s: WatchLaws.State, pages: Option<(nat, nat)>, exact: bool,
                                        unprotect: bool, callbacks: seq<Callback>)
    requires Exact(g, s) && WindowOf(g).Valid() && PagesIn(g, pages) && (unprotect || exact)
    ensures Exact(g, Fired(g, s, pages, exact, unprotect, callbacks)) <==>
              unprotect || !(pages.Some? && DropsArmedWatch(g, s, pages.value.0, pages.value.1))
  {
    if SomeWatched(s, pages) {
      var range := UnwatchPages(WindowOf(g), pages.value.0, pages.value.1, exact, callbacks);
      if unprotect {
        TriggerKeepsExact(g, s, range.0, range.1);
      } else {
        DropKeepsExact(g, s, range.0, range.1);
      }
    }
  }

  lemma {:induction false} DecommitWatches(g: Geometry, s: WatchLaws.State, address: uint32, size: uint32)
    requires Exact(g, s) && Regions(s.table)
    ensures Exact(g, DecommittedState(g, s, address, size))
  {
    var range, pages := DecommitRange(g, address, size), ClippedPages(g, g.base, address, size);
    if pages.Some? {
      TriggerKeepsExact(g, s, pages.value.0, pages.value.1);
      DecommitKeepsExact(g, Triggered(g, s, pages.value.0, pages.value.1), range.0, range.1);
    } else {
      DecommitKeepsExact(g, s, range.0, range.1);
    }
  }

  /** A change of protection of a byte range drops watches on host pages of the changed guest pages only. */
  lemma {:induction false} DroppedInside(g: Geometry, address: uint32, size: uint32)
    requires SmallPages(g) && ProtectRange(g, address, size).Some?
    ensures var ((first, last), pages) := (ProtectRange(g, address, size).value,
                                           ClippedPages(g, g.base, address, size));
            && first <= last < g.pages && pages.Some? && HostCount(g, last + 1 - first) > 0
            && HostFirst(g, first) <= pages.value.0
            && pages.value.1 < HostFirst(g, first) + HostCount(g, last + 1 - first)
  {
    var x := address - g.base;
    g.PageOfInside(address);
    var (first, last) := ProtectRange(g, address, size).value;
    ClippedInside(g, address, size);
    RangeInside(g, x, size, first, last);
  }

  lemma {:induction false} RangeInside(g: Geometry, x: nat, size: nat, first: nat, last: nat)
    requires SmallPages(g) && size > 0 && x < g.Size() && first == Shr(x, g.pageShift)
    requires last == Shr(x + size - 1, g.pageShift) < g.pages
    ensures first <= last && HostCount(g, last + 1 - first) > 0
    ensures HostFirst(g, first) <= Shr(x + g.hostOffset, g.sysShift)
    ensures Shr(x + Min(size, g.Size() - x) - 1 + g.hostOffset, g.sysShift)
            < HostFirst(g, first) + HostCount(g, last + 1 - first)
  {
    ShrMono(x, x + size - 1, g.pageShift);
    ShiftGalois(first, x, g.pageShift);
    ShrMono(g.HostOffsetOf(first), x + g.hostOffset, g.sysShift);
    var end := x + Min(size, g.Size() - x) - 1;
    ShrMono(end, x + size - 1, g.pageShift);
    EndsInside(g, first, last, end);
  }

  /** A byte of guest page `last` or before lies on the host pages of the guest pages up to `last`. */
  lemma {:induction false} EndsInside(g: Geometry, first: nat, last: nat, end: nat)
    requires SmallPages(g) && first <= last && Shr(end, g.pageShift) <= last
    ensures HostCount(g, last + 1 - first) > 0
    ensures Shr(end + g.hostOffset, g.sysShift) < HostFirst(g, first) + HostCount(g, last + 1 - first)
  {
    var n := last + 1 - first;
    ShiftGalois(last + 1, end, g.pageShift);
    ShlAdd(first, n, g.pageShift);
    LastHostPage(g, first, n);
    ShrMono(end + g.hostOffset, g.HostOffsetOf(first) + Shl(n, g.pageShift) - 1, g.sysShift);
    HostCountPositive(g, n);
  }

  lemma {:induction false} HostCountPositive(g: Geometry, n: nat)
    requires SmallPages(g) && n > 0
    ensures HostCount(g, n) > 0
  {
    g.SmallHostPages(n);
    PagesPositive(n, g.pageShift);
    ShiftBelow(Shl(n, g.pageShift), g.sysShift);
  }

  /** When host pages are small the host change covers exactly the changed guest pages. */
  lemma {:induction false} ReprotectedHost(g: Geometry, s: WatchLaws.State, s': WatchLaws.State, address: uint32,
                                           size: uint32, protect: Protection)
    requires SmallPages(g) && |s.table| == g.pages && ReprotectedIn(g, s, s', address, size, protect)
    ensures var (first, last) := ProtectRange(g, address, size).value;
            s' == Reprotected(g, s, first, last + 1 - first, protect)
  {
    var (first, last) := ProtectRange(g, address, size).value;
    g.SmallHostPages(first);
    g.SmallHostPages(last + 1 - first);
    LowCoarser(g.hostOffset, g.sysShift, g.pageShift);
    assert OnWholeHostPages(g, first, last);
  }

  /** A successful change of protection keeps host accesses exact exactly when the guest may not write to the pages or
      no watch is left on them. */
  lemma {:induction false} ProtectWatches(g: Geometry, s: WatchLaws.State, s': WatchLaws.State, address: uint32,
                                          size: uint32, protect: Protection)
    requires Exact(g, s) && Regions(s.table)
    requires ReprotectedIn(g, AfterNotice(g, s, address, size, protect), s', address, size, protect)
    ensures ProtectRange(g, address, size).Some?
    ensures var (first, last) := ProtectRange(g, address, size).value;
            Exact(g, s') <==>
              (ToPageAccess(protect) == ReadWrite ==>
                 !WatchLeft(g, AfterNotice(g, s, address, size, protect), first, last + 1 - first))
  {
    var s1 := AfterNotice(g, s, address, size, protect);
    var ((first, last), pages) := (ProtectRange(g, address, size).value, ClippedPages(g, g.base, address, size));
    assert s1.table == s.table;
    ReprotectedHost(g, s1, s', address, size, protect);
    DroppedInside(g, address, size);
    ProtectKeepsExact(g, s, protect.write, pages.value.0, pages.value.1, first, last + 1 - first, protect);
  }

  /** A range of whole guest pages. */
  predicate WholePages(g: Geometry, address: uint32, size: uint32) {
    address >= g.base && Low(address - g.base, g.pageShift) == 0 && Low(size, g.pageShift) == 0
  }

  /** On whole guest pages a change with the write flag leaves no watch, so only a write-combined change without it
      can. */
  lemma {:induction false} WholeProtectWatches(g: Geometry, s: WatchLaws.State, s': WatchLaws.State, address: uint32,
                                               size: uint32, protect: Protection)
    requires Exact(g, s) && Regions(s.table) && WholePages(g, address, size)
    requires ReprotectedIn(g, AfterNotice(g, s, address, size, protect), s', address, size, protect)
    requires ToPageAccess(protect) == ReadWrite ==> protect.write
    ensures Exact(g, s')
  {
    ProtectWatches(g, s, s', address, size, protect);
    if protect.write {
      NoWatchOnRange(g, s, address, size, protect);
    }
  }

  /** Dropping the watches of whole guest pages leaves none on them. */
  lemma {:induction false} NoWatchOnRange(g: Geometry, s: WatchLaws.State, address: uint32, size: uint32,
                                          protect: Protection)
    requires SmallPages(g) && |s.host| <= |s.watched| && protect.write
    requires ProtectRange(g, address, size).Some? && WholePages(g, address, size)
    ensures var (first, last) := ProtectRange(g, address, size).value;
            !WatchLeft(g, AfterNotice(g, s, address, size, protect), first, last + 1 - first)
  {
    var (first, last) := ProtectRange(g, address, size).value;
    DroppedExactly(g, address, size);
    DropsAll(g, s, first, last + 1 - first);
  }

  lemma {:induction false} DroppedExactly(g: Geometry, address: uint32, size: uint32)
    requires SmallPages(g) && ProtectRange(g, address, size).Some? && WholePages(g, address, size)
    ensures var ((first, last), pages) := (ProtectRange(g, address, size).value,
                                           ClippedPages(g, g.base, address, size));
            && first <= last < g.pages && HostCount(g, last + 1 - first) > 0
            && pages == Some((HostFirst(g, first), HostFirst(g, first) + HostCount(g, last + 1 - first) - 1))
  {
    var first, n := WholeRange(g, address, size);
    HostCountPositive(g, n);
    RegionInHeap(g, first, n);
    ClippedExactly(g, address, first, n);
  }

  /** The host pages of whole guest pages. */
  lemma {:induction false} ClippedExactly(g: Geometry, address: uint32, first: nat, n: nat)
    requires SmallPages(g) && n > 0 && first + n <= g.pages && 0 < Shl(n, g.pageShift) < U32
    requires address == g.base + Shl(first, g.pageShift) < g.base + g.Size()
    ensures ClippedPages(g, g.base, address, Shl(n, g.pageShift))
            == Some((HostFirst(g, first), HostFirst(g, first) + HostCount(g, n) - 1))
  {
    StretchEnds(g, first, n);
    ClippedInside(g, address, Shl(n, g.pageShift));
  }

  /** The guest pages of a range of whole pages. */
  lemma {:induction false} WholeRange(g: Geometry, address: uint32, size: uint32) returns (first: nat, n: nat)
    requires g.Valid() && ProtectRange(g, address, size).Some? && WholePages(g, address, size)
    ensures n > 0 && first + n <= g.pages && ProtectRange(g, address, size) == Some((first, first + n - 1))
    ensures address == g.base + Shl(first, g.pageShift) && size == Shl(n, g.pageShift)
  {
    var x, k := address - g.base, g.pageShift;
    g.PageOfInside(address);
    first, n := Shr(x, k), Shr(size, k);
    ShiftAligned(x, k);
    ShiftAligned(size, k);
    ShiftSum(x, size, k);
    ShiftBelow(x + size, k);
    ShiftBelow(size, k);
  }

  /** A change of protection that fails after it dropped watches keeps host accesses exact exactly when none of them was
      on a page the guest may write to. */
  lemma {:induction false} FailedProtectWatches(g: Geometry, s: WatchLaws.State, address: uint32, size: uint32,
                                                protect: Protection)
    requires Exact(g, s)
    ensures Exact(g, AfterNotice(g, s, address, size, protect)) <==>
              var pages := ClippedPages(g, g.base, address, size);
              !(protect.write && pages.Some? && DropsArmedWatch(g, s, pages.value.0, pages.value.1))
  {
    var pages := ClippedPages(g, g.base, address, size);
    if protect.write && pages.Some? {
      DropKeepsExact(g, s, pages.value.0, pages.value.1);
    }
  }
}
