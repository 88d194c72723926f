/** The page allocator: a page table, the index of its free blocks, a count of free pages, and the accesses
    granted to the host pages behind it. */
module BaseHeaps {
  import opened Options
  import opened Bits
  import opened Arithmetic
  import opened FreeIndex
  import opened FreeSearch
  import opened PageTable
  import opened Geometry

  /** `Overrun`: the code's checks let through a range that ends outside the page table. `Trap`: it divides by zero. */
  datatype Outcome = Done | Failed | Overrun | Trap

  /** Host pages `[first, first + count)` get the access `access`. */
  function Overwrite(h: seq<PageAccess>, first: nat, count: nat, access: PageAccess): seq<PageAccess> {
    seq(|h|, i requires 0 <= i < |h| => if first <= i < first + count then access else h[i])
  }

  /** Some page in `[lo, hi)` is not reserved. */
  predicate SomeUnreserved(t: Table, lo: nat, hi: nat)
    requires hi <= |t|
  {
    exists p :: lo <= p < hi && !t[p].reserved
  }

  predicate SomeTaken(t: Table, lo: nat, hi: nat)
    requires hi <= |t|
  {
    exists p :: lo <= p < hi && !IsFree(t[p])
  }

  /** How far a counter of free pages is from the truth, in 32-bit arithmetic. */
  function DriftOf(counter: uint32, t: Table): uint32
    requires |t| < 0x10_0000
  {
    FreePagesBound(t);
    Sub32(counter, FreePages(t))
  }

  lemma {:induction false} DriftZero(counter: uint32, t: Table)
    requires |t| < 0x10_0000
    ensures DriftOf(counter, t) == 0 <==> counter == FreePages(t)
  {
    FreePagesBound(t);
  }

  /** With the same free pages and the same drift the counter is the same. */
  lemma {:induction false} DriftInjective(c: uint32, c': uint32, t: Table)
    requires |t| < 0x10_0000
    ensures DriftOf(c, t) == DriftOf(c', t) ==> c == c'
  {
    FreePagesBound(t);
  }

  /** The counter follows one page that is taken, given back, or neither. */
  lemma {:induction false} DriftStep(counter: uint32, t: Table, p: nat, e: PageEntry)
    requires |t| < 0x10_0000 && p < |t|
    ensures IsFree(t[p]) && !IsFree(e) ==> DriftOf(Sub32(counter, 1), t[p := e]) == DriftOf(counter, t)
    ensures !IsFree(t[p]) && IsFree(e) ==> DriftOf(Add32(counter, 1), t[p := e]) == DriftOf(counter, t)
    ensures IsFree(t[p]) == IsFree(e) ==> DriftOf(counter, t[p := e]) == DriftOf(counter, t)
  {
    FreePagesUpdate(t, p, e);
    FreePagesBound(t);
    FreePagesBound(t[p := e]);
  }

  /** The counter follows a page that is cleared unless that page was free before. */
  lemma {:induction false} ClearStep(counter: uint32, t: Table, p: nat)
    requires |t| < 0x10_0000 && p < |t|
    ensures DriftOf(Add32(counter, 1), t[p := FREE_ENTRY]) == Add32(DriftOf(counter, t), if IsFree(t[p]) then 1 else 0)
  {
    DriftStep(counter, t, p, FREE_ENTRY);
    FreePagesBound(t);
    FreePagesBound(t[p := FREE_ENTRY]);
  }

  /** Pinning a free range is what removing it from the index says. */
  lemma {:induction false} PinnedIndex(t: Table, start: nat, count: nat, withReserve: bool, commit: bool,
                                       protect: Protection, limit: nat)
    returns (block: nat)
    requires count > 0 && start + count <= |t| && !SomeTaken(t, start, start + count)
    ensures BlockFor(Runs(FreeBits(t)), start, limit) == Some(block) && block in Runs(FreeBits(t))
    ensures Carved(Runs(FreeBits(t)), block, start, count)
            == Runs(FreeBits(Pinned(t, start, count, withReserve, commit, protect)))
  {
    var free := FreeBits(t);
    block := RangeInBlock(free, start, count);
    RemoveKeepsIndex(free, block, start, count, limit);
    PinnedFreeBits(t, start, count, withReserve, commit, protect);
  }

  /** Pinning pages that are all taken already changes no free page. */
  lemma {:induction false} RepinnedIndex(t: Table, start: nat, count: nat, withReserve: bool, commit: bool,
                                         protect: Protection)
    requires start + count <= |t| && forall p :: start <= p < start + count ==> !IsFree(t[p])
    ensures FreeBits(Pinned(t, start, count, withReserve, commit, protect)) == FreeBits(t)
  {
  }

  // ----- what AllocFixed is asked to do

  /** The number of pages `AllocFixed` works on: the size is first rounded up to the alignment. An alignment next to the
      end of the word rounds to zero, which makes the size zero and the count one. */
  function FixedCount(size: uint32, alignment: uint32, k: nat): nat
    requires k < 32
  {
    PageCount(Align(size, RoundUp(alignment, k)), k)
  }

  /** A commit that meets an unreserved page becomes a reservation as well. */
  predicate Reserves(t: Table, start: nat, count: nat, kind: AllocationType)
    requires start + count <= |t|
  {
    kind != Commit || SomeUnreserved(t, start, start + count)
  }

  /** What `AllocFixed` answers. The range check admits a range whose last page is the first one outside the table. */
  function FixedOutcome(t: Table, start: nat, count: nat, kind: AllocationType, hostFails: bool): Outcome
    requires count > 0
  {
    if start >= |t| || start + count - 1 > |t| then Failed
    else if start + count - 1 == |t| then Overrun
    else if kind == Reserve && SomeTaken(t, start, start + count) then Failed
    else if kind != Reserve && hostFails then Failed
    else Done
  }

  /** If the range is reserved anew, it swallows whole regions only. */
  ghost predicate KeepsPartition(t: Table, start: nat, count: nat, kind: AllocationType)
    requires start + count <= |t|
  {
    Reserves(t, start, count, kind) ==> CoversRegions(t, start, count)
  }

  lemma {:induction false} PinnedRegions(t: Table, start: nat, count: nat, kind: AllocationType, protect: Protection)
    requires Regions(t) && count > 0 && start + count <= |t|
    ensures Regions(Pinned(t, start, count, Reserves(t, start, count, kind), kind != Reserve, protect))
            <==> KeepsPartition(t, start, count, kind)
  {
    if Reserves(t, start, count, kind) {
      PinKeepsRegions(t, start, count, kind != Reserve, protect);
    } else {
      RecommitKeepsRegions(t, start, count, protect);
    }
  }

  lemma {:induction false} FixedCountPositive(size: uint32, alignment: uint32, k: nat)
    requires k < 32
    ensures FixedCount(size, alignment, k) > 0
  {
    var a := RoundUp(alignment, k);
    Pow2Small(k);
    AlignKeepsPages(size, a, k);
    PageCountZero(Align(size, a), k);
    if alignment + Pow2(k) > U32 {
      RoundUpWraps(alignment, k);
    } else {
      RoundUpBounds(alignment, k);
    }
  }

  // ----- what AllocRange is asked to do

  function LowPage(g: Geometry, lowAddress: uint32, alignment: uint32): nat
    requires g.Valid()
  {
    Min(g.pages - 1, g.PageOf(Max(g.base, Align(lowAddress, RoundUp(alignment, g.pageShift)))))
  }

  /** The first page the search does not use; the high address is rounded up first. */
  function HighPage(g: Geometry, highAddress: uint32, alignment: uint32): nat
    requires g.Valid()
  {
    g.SizePositive();
    Min(g.pages - 1, g.PageOf(Min(g.base + (g.Size() - 1), Align(highAddress, RoundUp(alignment, g.pageShift)))))
  }

  function Stride(g: Geometry, alignment: uint32): (r: nat)
    requires g.Valid() && alignment + Pow2(g.pageShift) <= U32
    ensures r > 0
  {
    StridePositive(g, alignment);
    Shr(RoundUp(alignment, g.pageShift), g.pageShift)
  }

  lemma {:induction false} StridePositive(g: Geometry, alignment: uint32)
    requires g.Valid() && alignment + Pow2(g.pageShift) <= U32
    ensures Shr(RoundUp(alignment, g.pageShift), g.pageShift) > 0
  {
    RoundUpBounds(alignment, g.pageShift);
    ShiftAligned(RoundUp(alignment, g.pageShift), g.pageShift);
    ShlPow2(g.pageShift, 0);
  }

  lemma {:induction false} RangeBounds(g: Geometry, lowAddress: uint32, highAddress: uint32, alignment: uint32)
    requires g.Valid()
    ensures LowPage(g, lowAddress, alignment) < g.pages && HighPage(g, highAddress, alignment) < g.pages
  {
  }

  lemma {:induction false} PageAddress(g: Geometry, page: nat)
    requires g.Valid() && page < g.pages
    ensures g.base + Shl(page, g.pageShift) < U32
  {
    ShlMono(page, g.pages, g.pageShift);
  }

  /** What the search of an address range finds. */
  ghost predicate RangeFound(g: Geometry, t: Table, lowAddress: uint32, highAddress: uint32, size: uint32,
                             alignment: uint32, topDown: bool, found: Option<nat>)
    requires g.Valid() && alignment + Pow2(g.pageShift) <= U32
  {
    SearchResult(FreeBits(t), Runs(FreeBits(t)), LowPage(g, lowAddress, alignment), HighPage(g, highAddress, alignment),
                 PageCount(size, g.pageShift), Stride(g, alignment), topDown, found)
  }

  /** The search meets a block of at least `count` pages. */
  ghost predicate MeetsBlock(m: map<nat, nat>, low: nat, high: nat, count: nat) {
    exists b :: b in m && b <= high && low < b + m[b] && count <= m[b]
  }

  /** What `AllocRange` answers for an alignment within one page of the end of the word, which it rounds to zero: the
      stride is zero, so it fails or, upwards, divides by it in the first block that is large enough. */
  ghost function UnstridedOutcome(g: Geometry, t: Table, lowAddress: uint32, highAddress: uint32, size: uint32,
                                  alignment: uint32, topDown: bool): Outcome
    requires g.Valid()
  {
    var low, high := LowPage(g, lowAddress, alignment), HighPage(g, highAddress, alignment);
    var count := PageCount(size, g.pageShift);
    RangeBounds(g, lowAddress, highAddress, alignment);
    if !topDown && count <= Sub32(high, low) && MeetsBlock(Runs(FreeBits(t)), low, high, count) then Trap else Failed
  }

  /** A mask of all ones, which is what a remainder by a stride of zero becomes. */
  lemma {:induction false} FullMask(x: uint32)
    ensures And(x, U32 - 1) == x
  {
    Pow2Small(0);
    AndLowMask(x, 32);
    ShiftIsDiv(x, 32);
  }

  /** The search with a stride of zero. */
  method FindUnstrided(m: map<nat, nat>, limit: nat, low: nat, high: uint32, count: nat, topDown: bool)
    returns (r: Outcome)
    requires high < limit && forall b :: b in m ==> m[b] > 0
    ensures r == if !topDown && MeetsBlock(m, low, high, count) then Trap else Failed
  {
    if topDown {
      FullMask(high);
      var position: nat := high + 1;
      while position > 0 && FloorKey(m, position - 1).Some?
        decreases position
      {
        var blockStart := FloorKey(m, position - 1).value;
        var blockEnd := blockStart + m[blockStart];
        if blockEnd <= low {
          return Failed;
        }
        var usableEnd := Min(blockEnd, high - And(high, U32 - 1));
        if count <= m[blockStart] && count <= usableEnd {
          // No pages at page 0 at best, which count as a failure.
          assert usableEnd == 0 == count;
          return Failed;
        }
        position := blockStart;
      }
      return Failed;
    }
    var position := 0;
    while CeilKey(m, position, limit).Some?
      invariant forall b: nat :: b in m && b < position && b <= high && low < b + m[b] ==> m[b] < count
      decreases limit - position
    {
      var blockStart := CeilKey(m, position, limit).value;
      if blockStart > high {
        return Failed;
      }
      if low < blockStart + m[blockStart] && count <= m[blockStart] {
        return Trap;
      }
      position := blockStart + 1;
    }
    return Failed;
  }

  /** The early exit is right: too few pages between the bounds, no window. */
  lemma {:induction false} NoRoom(free: seq<bool>, low: uint32, high: uint32, count: nat, stride: nat, topDown: bool)
    requires stride > 0 && count > Sub32(high, low)
    ensures SearchResult(free, Runs(free), low, high, count, stride, topDown, None)
  {
  }

  /** What a search finds is a free range in one block. */
  lemma {:induction false} FoundInside(free: seq<bool>, low: nat, high: nat, count: nat, stride: nat, topDown: bool,
                                       found: nat)
    requires stride > 0 && SearchResult(free, Runs(free), low, high, count, stride, topDown, Some(found))
    requires found + count > 0 && low < |free| && high < |free|
    ensures found < |free| && found + count <= |free| && FreeRange(free, found, found + count)
    ensures exists b :: InBlock(Runs(free), b, found, count)
  {
  }

  /** The pages the search returns are free and lie in the block `RemoveFreeBlock` will find. */
  lemma {:induction false} FoundBlock(t: Table, start: nat, count: nat, commit: bool, protect: Protection, limit: nat)
    returns (block: nat)
    requires start + count <= |t| && FreeRange(FreeBits(t), start, start + count)
    requires exists b :: InBlock(Runs(FreeBits(t)), b, start, count)
    ensures InBlock(Runs(FreeBits(t)), block, start, count)
    ensures BlockFor(Runs(FreeBits(t)), start, limit) == Some(block)
    ensures !SomeTaken(t, start, start + count)
    ensures Merged(Carved(Runs(FreeBits(t)), block, start, count), start, count) == Runs(FreeBits(t))
    ensures var t' := Pinned(t, start, count, true, commit, protect);
            && (Regions(t) ==> Regions(t')) && (Entries(t) ==> Entries(t'))
            && (count > 0 ==> Carved(Runs(FreeBits(t)), block, start, count) == Runs(FreeBits(t')))
            && (count == 0 ==> t' == t
                               && (Carved(Runs(FreeBits(t)), block, start, 0) == Runs(FreeBits(t))
                                   <==> !Splits(FreeBits(t), start)))
  {
    var free := FreeBits(t);
    block :| InBlock(Runs(free), block, start, count);
    forall p | start <= p < start + count ensures IsFree(t[p]) {
      assert free[p];
    }
    if Entries(t) {
      PinnedEntries(t, start, count, true, commit, protect);
    }
    if count == 0 {
      RemoveNothing(free, block, start, limit);
      InsertUndoesSplit(free, block, start);
      assert Pinned(t, start, count, true, commit, protect) == t;
    } else {
      RemoveKeepsIndex(free, block, start, count, limit);
      InsertUndoesRemove(free, block, start, count);
      PinnedFreeBits(t, start, count, true, commit, protect);
      if Regions(t) {
        CoveredPinKeepsRegions(t, start, count, commit, protect);
      }
    }
  }

  /** The search settles on a page. Its last page must not be the number that stands for failure, as it is for no pages
      at page 0. */
  predicate Settles(found: Option<nat>, count: nat) {
    found.Some? && found.value + count > 0
  }

  /** The high address `Alloc` searches up to: the top 240 MB of the 64 KB virtual heap are left to thread stacks. */
  function AllocHigh(g: Geometry): uint32
    requires g.Valid()
  {
    g.SizePositive();
    Sub32(g.base + (g.Size() - 1), if g.kind == GuestVirtual && g.pageShift == 16 then 0x0F00_0000 else 0)
  }

  /** The pages `Alloc` asks for: the size is rounded up twice. */
  function AllocPages(size: uint32, k: nat): nat
    requires k < 32
  {
    PageCount(RoundUp(size, k), k)
  }

  /** Rounding a request up before passing it on changes neither its bounds nor its stride, asks for some page, and
      turns an alignment that rounds to zero into one page. */
  lemma {:induction false} AllocRequest(g: Geometry, size: uint32, alignment: uint32)
    requires g.Valid()
    ensures var a, k := RoundUp(alignment, g.pageShift), g.pageShift;
            a + Pow2(k) <= U32 && RoundUp(a, k) == if alignment + Pow2(k) <= U32 then a else Pow2(k)
    ensures AllocPages(size, g.pageShift) > 0
  {
    var k := g.pageShift;
    Pow2Small(k);
    LastMultiple(RoundUp(alignment, k), k);
    if alignment + Pow2(k) <= U32 {
      RoundUpTwice(alignment, k);
    } else {
      RoundUpWraps(alignment, k);
    }
    LastMultiple(RoundUp(size, k), k);
    PageCountZero(RoundUp(size, k), k);
  }

  /** The largest multiple in the word leaves room for one more unit. */
  lemma {:induction false} LastMultiple(x: uint32, k: nat)
    requires k < 32 && Low(x, k) == 0
    ensures x + Pow2(k) <= U32
  {
    Pow2Small(k);
    WordAligned(k);
    ShiftAligned(x, k);
    ShiftAligned(U32, k);
    ShlMono(Shr(x, k), Shr(U32, k), k);
    ShlMono(Shr(U32, k), Shr(x, k), k);
  }

  lemma {:induction false} RoundUpTwice(value: uint32, k: nat)
    requires k < 32 && value + Pow2(k) <= U32
    ensures RoundUp(RoundUp(value, k), k) == RoundUp(value, k) && RoundUp(value, k) + Pow2(k) <= U32
  {
    RoundUpBounds(value, k);
    LastMultiple(RoundUp(value, k), k);
    RoundUpBounds(RoundUp(value, k), k);
  }

  // ----- how many bytes an allocation holds

  /** The region `Alloc` makes holds the bytes asked for exactly if rounding the size up stays in the word; otherwise
      it is one page. */
  lemma {:induction false} AllocCovers(size: uint32, k: nat)
    requires k < 32
    ensures Shl(AllocPages(size, k), k) >= size <==> size + Pow2(k) <= U32
    ensures size + Pow2(k) > U32 ==> AllocPages(size, k) == 1
  {
    Pow2Small(k);
    if size + Pow2(k) <= U32 {
      RoundUpBounds(size, k);
      LastMultiple(RoundUp(size, k), k);
      PagesCover(RoundUp(size, k), k);
    } else {
      RoundUpWraps(size, k);
      OnePageForNone(k);
      PagesCover(0, k);
      HalfWord(size, k);
    }
  }

  /** A size of zero counts as one page. */
  lemma {:induction false} OnePageForNone(k: nat)
    requires k < 32
    ensures PageCount(0, k) == 1 && Shl(1, k) == Pow2(k)
  {
    ShlAligned(1, k);
    ShlPow2(k, 0);
  }

  /** Only sizes above one page come so near to the end of the word. */
  lemma {:induction false} HalfWord(size: uint32, k: nat)
    requires k < 32 && size + Pow2(k) > U32
    ensures Pow2(k) < size
  {
    Pow2Small(k);
  }

  /** The range of `AllocFixed` holds the bytes asked for exactly if aligning the size stays in the word. An alignment
      that rounds to zero leaves one page. */
  lemma {:induction false} FixedCovers(size: uint32, alignment: uint32, k: nat)
    requires k < 32
    ensures var a := RoundUp(alignment, k);
            Shl(FixedCount(size, alignment, k), k) >= size
            <==> if a == 0 then size <= Pow2(k) else size + a <= U32
  {
    var a := RoundUp(alignment, k);
    var bytes := Align(size, a);
    Pow2Small(k);
    LastMultiple(a, k);
    OnePageForNone(k);
    AlignKeepsPages(size, a, k);
    LastMultiple(bytes, k);
    RoundUpBounds(bytes, k);
    PagesCover(bytes, k);
    if a > 0 {
      AlignedBytes(size, a, k);
    }
  }

  /** Without wrap-around the aligned size is no smaller; with it, it is smaller and so is one page. */
  lemma {:induction false} AlignedBytes(size: uint32, a: uint32, k: nat)
    requires k < 32 && a > 0 && a + Pow2(k) <= U32
    ensures size + a <= U32 ==> Align(size, a) >= size
    ensures size + a > U32 ==> Align(size, a) < size && Pow2(k) < size
  {
    if size + a <= U32 {
      AlignNotBelow(size, a);
    } else {
      AndBound(Add32(size, a - 1), U32 - a);
    }
  }

  // ----- Decommit and Release

  /** The pages `[lo, hi)` that `Decommit` works on; there are none when the last page precedes the first. */
  function DecommitRange(g: Geometry, address: uint32, size: uint32): (r: (nat, nat))
    requires g.Valid()
    ensures r.0 < g.pages && r.1 <= g.pages
  {
    var first, count := g.PageOf(address), PageCount(size, g.pageShift);
    var last := if first + count == 0 then U32 - 1 else first + count - 1;
    (Min(g.pages - 1, first), Min(g.pages - 1, last) + 1)
  }

  /** What `Release` answers. A free page 0 passes the test for a region start. */
  function ReleaseOutcome(g: Geometry, t: Table, page: nat): Outcome {
    if page >= |t| then Overrun
    else if t[page].base != page || (g.base == 0 && page == 0) then Failed
    else if IsFree(t[page]) || page + t[page].count == 0 || page + t[page].count > |t| then Overrun
    else Done
  }

  /** The pages from `page` on that a release at `page` gives back are all taken. If there are none, the empty block
      that is put into the index has to disappear into the one before it. */
  predicate Releasable(t: Table, page: nat)
    requires page < |t|
  {
    var count := t[page].count;
    && page + count <= |t| && (forall p :: page <= p < page + count ==> !IsFree(t[p]))
    && (count > 0 || (page > 0 && IsFree(t[page - 1])))
  }

  /** How many pages in `[lo, hi)` are free. A release counts them twice. */
  function FreeIn(t: Table, lo: nat, hi: nat): (n: nat)
    requires lo <= hi <= |t|
    ensures n <= hi - lo
  {
    if lo == hi then 0 else FreeIn(t, lo, hi - 1) + if IsFree(t[hi - 1]) then 1 else 0
  }

  lemma {:induction false} FreeInNone(t: Table, lo: nat, hi: nat)
    requires lo <= hi <= |t|
    ensures FreeIn(t, lo, hi) == 0 <==> forall p :: lo <= p < hi ==> !IsFree(t[p])
  {
    if lo < hi {
      FreeInNone(t, lo, hi - 1);
    }
  }

  /** Whatever region is released at `page` is a run of taken pages. */
  predicate SafeRelease(g: Geometry, t: Table, page: nat) {
    ReleaseOutcome(g, t, page) == Done ==> Releasable(t, page)
  }

  /** The index follows a release exactly if the pages given back were all taken. */
  lemma {:induction false} ReleasedPages(t: Table, page: nat)
    requires page < |t| && !IsFree(t[page]) && page + t[page].count <= |t|
    ensures Merged(Runs(FreeBits(t)), page, t[page].count) == Runs(FreeBits(Cleared(t, page, t[page].count)))
            <==> Releasable(t, page)
  {
    var free, count := FreeBits(t), t[page].count;
    ClearedFreeBits(t, page, count);
    if count == 0 {
      ClearedNone(t, page);
      InsertNothing(free, page);
    } else if Releasable(t, page) {
      InsertKeepsIndex(free, page, count);
    } else {
      var p :| page <= p < page + count && IsFree(t[p]);
      FreedTwiceBreaksIndex(free, page, count, p);
    }
  }

  lemma {:induction false} ClearedNone(t: Table, first: nat)
    ensures Cleared(t, first, 0) == t
  {
    assert Cleared(t, first, 0) == t;
  }

  lemma {:induction false} ClearedNext(t: Table, first: nat, count: nat)
    requires first + count < |t|
    ensures Cleared(t, first, count + 1) == Cleared(t, first, count)[first + count := FREE_ENTRY]
    ensures Cleared(t, first, count)[first + count] == t[first + count]
  {
  }

  lemma {:induction false} ClearedEntries(t: Table, first: nat, count: nat)
    requires Entries(t)
    ensures Entries(Cleared(t, first, count))
  {
    forall p | 0 <= p < |t| ensures EntryOk(Cleared(t, first, count)[p]) {
      assert EntryOk(t[p]);
    }
  }

  /** On a partitioned table every release is safe. */
  lemma {:induction false} RegionsSafe(g: Geometry, t: Table, page: nat)
    requires Regions(t)
    ensures SafeRelease(g, t, page)
  {
    if ReleaseOutcome(g, t, page) == Done {
      ReleasedRegion(t, page);
    }
  }

  lemma {:induction false} ReleasedRegion(t: Table, page: nat)
    requires Regions(t) && page < |t| && !IsFree(t[page]) && t[page].base == page
    ensures var count := t[page].count;
            && RegionAt(t, page, count) && Releasable(t, page)
            && Regions(Cleared(t, page, count))
            && Merged(Runs(FreeBits(t)), page, count) == Runs(FreeBits(Cleared(t, page, count)))
  {
    var count := t[page].count;
    RegionsMean(t);
    assert InRegion(t, page);
    ClearKeepsRegions(t, page, count);
    assert Releasable(t, page);
    ReleasedPages(t, page);
  }

  /** What clearing the pages of a region does to entries, index and partition. */
  lemma {:induction false} ReleaseEffect(t: Table, page: nat, count: nat)
    requires Entries(t) && page < |t| && !IsFree(t[page]) && t[page].base == page
    requires count == t[page].count && page + count <= |t|
    ensures Entries(Cleared(t, page, count))
    ensures Merged(Runs(FreeBits(t)), page, count) == Runs(FreeBits(Cleared(t, page, count))) <==> Releasable(t, page)
    ensures Regions(t) ==> Regions(Cleared(t, page, count)) && Releasable(t, page)
  {
    ReleasedPages(t, page);
    ClearedEntries(t, page, count);
    if Regions(t) {
      ReleasedRegion(t, page);
    }
  }

  // ----- Protect

  function Rank(access: PageAccess): nat {
    match access case NoAccess => 0 case ReadOnly => 1 case ReadWrite => 2
  }

  /** Guest page `p` and host page `h` share a byte. */
  predicate Overlaps(g: Geometry, p: nat, h: nat) {
    g.HostOffsetOf(p) < Shl(h + 1, g.sysShift) && Shl(h, g.sysShift) < g.HostOffsetOf(p + 1)
  }

  /** The guest pages that the code computes for the bytes `[lo, hi)` of the host window. */
  function FirstOn(lo: nat, offset: nat, k: nat): nat {
    if lo > offset then Shr(lo - offset, k) else 0
  }

  function LastOn(hi: nat, offset: nat, k: nat): nat {
    Shr(Max(hi - 1 - offset, 0), k)
  }

  function FirstGuestPage(g: Geometry, h: nat): nat {
    FirstOn(Shl(h, g.sysShift), g.hostOffset, g.pageShift)
  }

  function LastGuestPage(g: Geometry, h: nat): nat {
    LastOn(Shl(h + 1, g.sysShift), g.hostOffset, g.pageShift)
  }

  /** A guest page shares a byte with `[lo, hi)` exactly when it lies between the two. */
  lemma {:induction false} SharesByte(p: nat, lo: nat, hi: nat, offset: nat, k: nat)
    requires offset < hi
    ensures offset + Shl(p, k) < hi && lo < offset + Shl(p + 1, k)
            <==> FirstOn(lo, offset, k) <= p <= LastOn(hi, offset, k)
  {
    ShiftGalois(p, hi - 1 - offset, k);
    if lo > offset {
      ShiftGalois(p + 1, lo - offset, k);
    } else {
      ShlMono(0, p + 1, k);
      ShlPow2(k, 0);
    }
  }

  /** The guest pages on a host page are the ones between the two numbers the code computes. */
  lemma {:induction false} OverlapRange(g: Geometry, p: nat, h: nat)
    requires g.Valid() && Shl(h + 1, g.sysShift) > g.hostOffset
    ensures Overlaps(g, p, h) <==> FirstGuestPage(g, h) <= p <= LastGuestPage(g, h)
  {
    SharesByte(p, Shl(h, g.sysShift), Shl(h + 1, g.sysShift), g.hostOffset, g.pageShift);
  }

  /** First and last host page that hold part of a range of guest pages. */
  function TouchedFirst(g: Geometry, first: nat): nat {
    Shr(g.HostOffsetOf(first), g.sysShift)
  }

  function TouchedLast(g: Geometry, last: nat): nat {
    Shr(Max(g.HostOffsetOf(last + 1) - 1, 0), g.sysShift)
  }

  lemma {:induction false} TouchedInside(g: Geometry, first: nat, last: nat)
    requires g.Valid() && first <= last < g.pages
    ensures TouchedFirst(g, first) <= TouchedLast(g, last) < g.HostPages()
  {
    var k, s := g.pageShift, g.sysShift;
    ShlMono(first, last + 1, k);
    ShlMono(last + 1, g.pages, k);
    ShrMono(g.HostOffsetOf(first), g.HostOffsetOf(last + 1) - 1, s);
    var end := g.HostOffsetOf(last + 1) - 1;
    ShrMono(end, g.Size() + g.hostOffset - 1, s);
    g.HostPagesCover();
  }

  lemma {:induction false} TouchedPage(g: Geometry, first: nat, last: nat, h: nat)
    requires g.Valid() && first <= last < g.pages && TouchedFirst(g, first) <= h <= TouchedLast(g, last)
    ensures Shl(h + 1, g.sysShift) > g.hostOffset
    ensures Shl(h, g.sysShift) < g.HostOffsetOf(g.pages)
  {
    ShiftGalois(h + 1, g.HostOffsetOf(first), g.sysShift);
    LastTouched(g, last);
    ShiftGalois(h, g.HostOffsetOf(last + 1) - 1, g.sysShift);
  }

  lemma {:induction false} LastTouched(g: Geometry, last: nat)
    requires last < g.pages
    ensures 0 < g.HostOffsetOf(last + 1) <= g.HostOffsetOf(g.pages)
  {
    ShlMono(1, last + 1, g.pageShift);
    ShlPow2(g.pageShift, 0);
    ShlMono(last + 1, g.pages, g.pageShift);
  }

  lemma {:induction false} PagesBetween(lo: nat, hi: nat, offset: nat, k: nat, pages: nat)
    requires offset < hi && lo < hi && lo < offset + Shl(pages, k) && pages > 0
    ensures FirstOn(lo, offset, k) <= LastOn(hi, offset, k) && FirstOn(lo, offset, k) < pages
  {
    if lo > offset {
      ShrMono(lo - offset, hi - 1 - offset, k);
      ShiftGalois(pages, lo - offset, k);
    }
  }

  lemma {:induction false} GuestPagesOn(g: Geometry, h: nat)
    requires g.Valid() && Shl(h + 1, g.sysShift) > g.hostOffset && Shl(h, g.sysShift) < g.HostOffsetOf(g.pages)
    ensures FirstGuestPage(g, h) <= LastGuestPage(g, h) && FirstGuestPage(g, h) < g.pages
  {
    ShlMono(h, h + 1, g.sysShift);
    PagesBetween(Shl(h, g.sysShift), Shl(h + 1, g.sysShift), g.hostOffset, g.pageShift, g.pages);
  }

  /** The most permissive access that some guest page on a host page needs. */
  ghost predicate MostPermissive(g: Geometry, t: Table, h: nat, access: PageAccess) {
    && (forall p: nat :: p < |t| && Overlaps(g, p, h) ==>
          Rank(ToPageAccess(t[p].currentProtect)) <= Rank(access))
    && (access == NoAccess || exists p: nat :: p < |t| && Overlaps(g, p, h)
                                               && ToPageAccess(t[p].currentProtect) == access)
  }

  /** How the host accesses change when guest pages `[first, last]` get `protect`, which makes the table `t`. */
  ghost predicate HostAfterProtect(g: Geometry, h: seq<PageAccess>, h': seq<PageAccess>, t: Table, first: nat,
                                   last: nat, protect: Protection)
    requires first <= last
  {
    if OnWholeHostPages(g, first, last)
    then h' == Overwrite(h, Shr(g.HostOffsetOf(first), g.sysShift), Shr(Shl(last + 1 - first, g.pageShift), g.sysShift),
                         ToPageAccess(protect))
    else |h'| == |h| && forall i :: 0 <= i < |h| ==>
           if TouchedFirst(g, first) <= i <= TouchedLast(g, last) then MostPermissive(g, t, i, h'[i]) else h'[i] == h[i]
  }

  /** First and last page of a byte range, unless it lies outside the heap. */
  function ProtectRange(g: Geometry, address: uint32, size: uint32): (r: Option<(nat, nat)>)
    requires g.Valid()
    ensures r.Some? ==> r.value.0 <= r.value.1 < g.pages
  {
    var first := g.PageOf(address);
    if size == 0 || first >= g.pages then None
    else
      g.PageOfInside(address);
      ShrMono(address - g.base, address + size - 1 - g.base, g.pageShift);
      var last := Shr(address + size - 1 - g.base, g.pageShift);
      if last >= g.pages then None else Some((first, last))
  }

  /** All pages belong to one region and are committed. */
  predicate Protectable(t: Table, first: nat, last: nat)
    requires last < |t|
  {
    forall p :: first <= p <= last ==> t[p].base == t[first].base && t[p].committed
  }

  /** The host change can be made on whole host pages that hold nothing but the range. */
  predicate OnWholeHostPages(g: Geometry, first: nat, last: nat)
    requires first <= last
  {
    g.pageShift == g.sysShift
    || (Low(g.hostOffset, g.sysShift) == 0 && Low(Shl(last + 1 - first, g.pageShift), g.sysShift) == 0
        && Low(Shl(first, g.pageShift), g.sysShift) == 0)
  }

  /** The pages `Protect` changes, if its checks let it change any. */
  function ProtectTarget(g: Geometry, t: Table, address: uint32, size: uint32): (r: Option<(nat, nat)>)
    requires g.Valid() && |t| == g.pages
    ensures r.Some? ==> r.value.0 <= r.value.1 < g.pages && Protectable(t, r.value.0, r.value.1)
  {
    var range := ProtectRange(g, address, size);
    if range.Some? && Protectable(t, range.value.0, range.value.1) then range else None
  }

  /** The protection that stands for an access of the host. */
  function FromPageAccess(access: PageAccess): Protection {
    Protection(access != NoAccess, access == ReadWrite, false, false)
  }

  /** The old protection that `Protect` reports: the host's access of the first page if the host is asked for the
      change, otherwise the table's. */
  function OldProtection(g: Geometry, t: Table, h: seq<PageAccess>, first: nat, last: nat): Protection
    requires g.Valid() && first <= last < g.pages && |t| == g.pages && |h| == g.HostPages()
  {
    TouchedInside(g, first, last);
    if OnWholeHostPages(g, first, last) then FromPageAccess(h[TouchedFirst(g, first)]) else t[first].currentProtect
  }

  /** Host commits are skipped when host pages exceed 4 KB. */
  predicate SkipsHostCommit(g: Geometry) {
    g.sysShift > 12
  }

  /** The host accesses after a guest page range was committed with `protect`. */
  function HostCommitted(g: Geometry, h: seq<PageAccess>, start: nat, count: nat, protect: Protection)
    : seq<PageAccess>
  {
    if SkipsHostCommit(g) then h
    else Overwrite(h, Shr(g.HostOffsetOf(start), g.sysShift), Shr(Shl(count, g.pageShift), g.sysShift),
                   ToPageAccess(protect))
  }

  /** How claiming free pages changes the table and the host accesses. */
  predicate Takes(g: Geometry, t: Table, h: seq<PageAccess>, t': Table, h': seq<PageAccess>, start: nat, count: nat,
                  kind: AllocationType, protect: Protection)
  {
    && start + count <= |t| && !SomeTaken(t, start, start + count)
    && t' == Pinned(t, start, count, true, kind != Reserve, protect)
    && h' == if kind == Reserve then h else HostCommitted(g, h, start, count, protect)
  }

  /** How a successful `AllocFixed` changes the table and the host accesses. */
  predicate Pins(g: Geometry, t: Table, h: seq<PageAccess>, t': Table, h': seq<PageAccess>, start: nat, count: nat,
                 kind: AllocationType, protect: Protection)
  {
    && start + count <= |t|
    && t' == Pinned(t, start, count, Reserves(t, start, count, kind), kind != Reserve, protect)
    && h' == if kind == Reserve then h else HostCommitted(g, h, start, count, protect)
  }

  /** All that a heap's operations change. */
  datatype Snapshot = Snapshot(table: Table, host: seq<PageAccess>, freeBlocks: map<nat, nat>, unreserved: uint32)

  class BaseHeap {
    const g: Geometry
    const pageTable: array<PageEntry>
    const host: array<PageAccess>
    var freeBlocks: map<nat, nat>
    var unreserved: uint32

    ghost predicate Shape() {
      g.Valid() && pageTable.Length == g.pages && host.Length == g.HostPages()
    }

    ghost function Table(): Table
      reads pageTable
    {
      pageTable[..]
    }

    /** The index is the decomposition of the free pages. */
    ghost predicate Indexed()
      reads this, pageTable
    {
      freeBlocks == Runs(FreeBits(Table()))
    }

    ghost predicate Valid()
      reads this, pageTable
    {
      Shape() && Indexed() && Entries(Table())
    }

    /** The reserved pages are partitioned into regions. */
    ghost predicate Partitioned()
      reads pageTable
    {
      Regions(Table())
    }

    /** The address names a page of the table. */
    predicate PageInTable(address: uint32)
      requires g.Valid()
    {
      g.PageOf(address) < g.pages
    }

    /** Nothing differs from the given state. */
    ghost predicate Is(t: Table, blocks: map<nat, nat>, counter: uint32, h: seq<PageAccess>)
      reads this, pageTable, host
    {
      Table() == t && freeBlocks == blocks && unreserved == counter && host[..] == h
    }

    /** Free pages were claimed: the table and the host accesses were `t` and `h` before. */
    ghost predicate HasTaken(t: Table, h: seq<PageAccess>, start: nat, count: nat, kind: AllocationType,
                             protect: Protection)
      reads this, pageTable, host
    {
      Takes(g, t, h, Table(), host[..], start, count, kind, protect)
    }

    /** A fixed range was allocated: the table and the host accesses were `t` and `h` before. */
    ghost predicate HasPinned(t: Table, h: seq<PageAccess>, start: nat, count: nat, kind: AllocationType,
                              protect: Protection)
      reads this, pageTable, host
    {
      Pins(g, t, h, Table(), host[..], start, count, kind, protect)
    }

    /** Pages were cleared: the table was `t` and the drift of the counter `drift` before. */
    ghost predicate HasCleared(t: Table, drift: uint32, first: nat, count: nat)
      requires Shape() && |t| == g.pages && first + count <= g.pages
      reads this, pageTable
    {
      Table() == Cleared(t, first, count) && Drift() == Add32(drift, FreeIn(t, first, first + count))
    }

    ghost function Now(): Snapshot
      reads this, pageTable, host
    {
      Snapshot(Table(), host[..], freeBlocks, unreserved)
    }

    ghost function Drift(): uint32
      requires Shape()
      reads this, pageTable
    {
      DriftOf(unreserved, Table())
    }

    constructor (g: Geometry)
      requires g.Valid()
      ensures Valid() && Partitioned() && this.g == g && fresh(pageTable) && fresh(host)
      ensures forall p :: 0 <= p < g.pages ==> pageTable[p] == FREE_ENTRY
      ensures Drift() == 0
    {
      this.g := g;
      pageTable := new PageEntry[g.pages](_ => FREE_ENTRY);
      host := new PageAccess[g.HostPages()](_ => ReadWrite);
      freeBlocks := map[0 := g.pages];
      unreserved := g.pages;
      new;
      AllFree();
    }

    lemma {:induction false} AllFree()
      requires Shape() && forall p :: 0 <= p < g.pages ==> pageTable[p] == FREE_ENTRY
      ensures freeBlocks == map[0 := g.pages] ==> Indexed()
      ensures Regions(Table()) && Entries(Table())
      ensures unreserved == g.pages ==> Drift() == 0
    {
      FreePagesBound(Table());
      RegionsFrom(Table());
      if freeBlocks == map[0 := g.pages] {
        RunEndIs(FreeBits(Table()), 0, g.pages);
        RunsFromKeys(FreeBits(Table()), freeBlocks);
      }
    }

    method Reset()
      requires Shape()
      modifies this, pageTable
      ensures Valid() && Partitioned() && Drift() == 0
      ensures forall p :: 0 <= p < g.pages ==> pageTable[p] == FREE_ENTRY
    {
      forall p | 0 <= p < pageTable.Length {
        pageTable[p] := FREE_ENTRY;
      }
      unreserved := pageTable.Length;
      freeBlocks := map[0 := pageTable.Length];
      AllFree();
    }

    // ----- the index

    /** Rebuilds the index by scanning the page table. */
    method RebuildFreeBlocks()
      requires Shape()
      modifies this`freeBlocks
      ensures Indexed()
    {
      freeBlocks := ScanRuns(FreeBits(pageTable[..]));
    }

    /** Removes or splits the free block that covers the given page range. */
    method RemoveFreeBlock(startPage: nat, pageCount: nat)
      requires Shape()
      modifies this`freeBlocks
      ensures var block := BlockFor(old(freeBlocks), startPage, g.pages);
              freeBlocks == if block.Some? then Carved(old(freeBlocks), block.value, startPage, pageCount)
                            else old(freeBlocks)
    {
      var block := BlockFor(freeBlocks, startPage, pageTable.Length);
      if block.None? {
        return;
      }
      var blockStart := block.value;
      var blockEnd := blockStart + freeBlocks[blockStart];
      freeBlocks := freeBlocks - {blockStart};
      // Insert remnant before the allocated range.
      if blockStart < startPage {
        freeBlocks := freeBlocks[blockStart := startPage - blockStart];
      }
      // Insert remnant after the allocated range.
      var allocEnd := startPage + pageCount;
      if allocEnd < blockEnd {
        freeBlocks := freeBlocks[allocEnd := blockEnd - allocEnd];
      }
    }

    /** Inserts a free block and coalesces it with its neighbours. */
    method InsertFreeBlock(startPage: nat, pageCount: nat)
      requires Shape()
      modifies this`freeBlocks
      ensures freeBlocks == Merged(old(freeBlocks), startPage, pageCount)
    {
      var newStart, newCount := startPage, pageCount;
      // Try to merge with the block immediately after.
      if startPage + pageCount in freeBlocks {
        newCount := newCount + freeBlocks[startPage + pageCount];
        freeBlocks := freeBlocks - {startPage + pageCount};
      }
      assert freeBlocks == old(freeBlocks) - {startPage + pageCount};
      // Try to merge with the block immediately before.
      var before := if startPage == 0 then None else FloorKey(freeBlocks, startPage - 1);
      if before.Some? && before.value + freeBlocks[before.value] == startPage {
        newStart := before.value;
        newCount := newCount + freeBlocks[before.value];
        freeBlocks := freeBlocks - {before.value};
      }
      freeBlocks := freeBlocks[newStart := newCount];
    }

    // ----- the page loops

    /** `AllocRange` writes its entries; all of these pages are free. */
    method TakePages(first: nat, count: nat, commit: bool, protect: Protection)
      requires Shape() && first + count <= g.pages && !SomeTaken(Table(), first, first + count)
      modifies this`unreserved, pageTable
      ensures Table() == Pinned(old(Table()), first, count, true, commit, protect)
      ensures Drift() == old(Drift())
    {
      for page := first to first + count
        invariant forall p :: 0 <= p < g.pages ==>
                    pageTable[p] == if first <= p < page
                                    then PinEntry(old(pageTable[p]), first, count, true, commit, protect)
                                    else old(pageTable[p])
        invariant Drift() == old(Drift())
      {
        var entry := PinEntry(pageTable[page], first, count, true, commit, protect);
        assert IsFree(old(Table())[page]);
        DriftStep(unreserved, pageTable[..], page, entry);
        ghost var before := pageTable[..];
        pageTable[page] := entry;
        unreserved := Sub32(unreserved, 1);
        assert pageTable[..] == before[page := entry];
      }
    }

    /** `AllocFixed` writes its entries and reports whether any of these pages was unreserved. */
    method PinPages(first: nat, count: nat, withReserve: bool, commit: bool, protect: Protection)
      returns (hadFreePages: bool)
      requires Shape() && first + count <= g.pages && Entries(Table())
      modifies this`unreserved, pageTable
      ensures Table() == Pinned(old(Table()), first, count, withReserve, commit, protect)
      ensures Drift() == old(Drift())
      ensures hadFreePages <==> SomeUnreserved(old(Table()), first, first + count)
    {
      hadFreePages := false;
      for page := first to first + count
        invariant forall p :: 0 <= p < g.pages ==>
                    pageTable[p] == if first <= p < page
                                    then PinEntry(old(pageTable[p]), first, count, withReserve, commit, protect)
                                    else old(pageTable[p])
        invariant Drift() == old(Drift())
        invariant hadFreePages <==> exists p :: first <= p < page && !old(pageTable[p]).reserved
      {
        assert EntryOk(old(Table())[page]);
        var entry := PinEntry(pageTable[page], first, count, withReserve, commit, protect);
        DriftStep(unreserved, pageTable[..], page, entry);
        ghost var before := pageTable[..];
        if !pageTable[page].reserved {
          hadFreePages := true;
          unreserved := Sub32(unreserved, 1);
        }
        pageTable[page] := entry;
        assert pageTable[..] == before[page := entry];
      }
    }

    method ClearPage(page: nat)
      requires Shape() && page < g.pages
      modifies this`unreserved, pageTable
      ensures Table() == old(Table())[page := FREE_ENTRY]
      ensures Drift() == Add32(old(Drift()), if IsFree(old(Table())[page]) then 1 else 0)
    {
      ghost var before := pageTable[..];
      ClearStep(unreserved, before, page);
      pageTable[page] := FREE_ENTRY;
      unreserved := Add32(unreserved, 1);
      assert pageTable[..] == before[page := FREE_ENTRY];
    }

    /** `Release` clears its entries and counts all of them as freed. */
    method ClearPages(first: nat, count: nat)
      requires Shape() && first + count <= g.pages
      modifies this`unreserved, pageTable
      ensures HasCleared(old(Table()), old(Drift()), first, count)
    {
      ghost var t := Table();
      ClearedNone(t, first);
      for page := first to first + count
        invariant HasCleared(t, old(Drift()), first, page - first)
      {
        ClearedNext(t, first, page - first);
        ClearPage(page);
      }
    }

    /** The host grants `access` on `count` of its pages. */
    method HostProtect(first: nat, count: nat, access: PageAccess)
      modifies host
      ensures host[..] == Overwrite(old(host[..]), first, count, access)
    {
      forall i | 0 <= i < host.Length && first <= i < first + count {
        host[i] := access;
      }
    }

    /** Commits a range on the host unless that is not needed. */
    method HostCommit(start: nat, count: nat, protect: Protection)
      modifies host
      ensures host[..] == HostCommitted(g, old(host[..]), start, count, protect)
    {
      if !SkipsHostCommit(g) {
        HostProtect(Shr(g.HostOffsetOf(start), g.sysShift), Shr(Shl(count, g.pageShift), g.sysShift),
                    ToPageAccess(protect));
      }
    }

    // ----- allocation

    /** Allocates pages at the given address. `hostOk` is the host's answer, if it is asked. */
    method AllocFixed(baseAddress: uint32, size: uint32, alignment: uint32, kind: AllocationType, protect: Protection,
                      hostOk: bool)
      returns (r: Outcome)
      requires Valid()
      modifies this, pageTable, host
      ensures Valid() && Drift() == old(Drift())
      ensures FixedCount(size, alignment, g.pageShift) > 0
      ensures r == FixedOutcome(old(Table()), g.PageOf(baseAddress), FixedCount(size, alignment, g.pageShift), kind,
                                !SkipsHostCommit(g) && !hostOk)
      ensures r != Done ==> Is(old(Table()), old(freeBlocks), old(unreserved), old(host[..]))
      ensures r == Done ==> HasPinned(old(Table()), old(host[..]), g.PageOf(baseAddress),
                                      FixedCount(size, alignment, g.pageShift), kind, protect)
      // A partition into regions survives exactly when a reservation swallows whole regions only.
      ensures old(Partitioned()) ==>
                (Partitioned() <==> (r == Done ==> KeepsPartition(old(Table()), g.PageOf(baseAddress),
                                                                  FixedCount(size, alignment, g.pageShift), kind)))
    {
      FixedCountPositive(size, alignment, g.pageShift);
      var alignment' := RoundUp(alignment, g.pageShift);
      var size' := Align(size, alignment');
      var pageCount := PageCount(size', g.pageShift);
      var startPage := g.PageOf(baseAddress);
      var endPage := startPage + pageCount - 1;
      if startPage >= pageTable.Length || endPage > pageTable.Length {
        return Failed;
      }
      if endPage == pageTable.Length {
        return Overrun;
      }
      var withReserve := CheckFixed(startPage, pageCount, kind);
      if withReserve.None? {
        return Failed;
      }
      // Allocate from host.
      if kind != Reserve {
        if !SkipsHostCommit(g) && !hostOk {
          return Failed;
        }
        HostCommit(startPage, pageCount, protect);
      }
      ghost var h := host[..];
      SetFixed(startPage, pageCount, withReserve.value, kind, protect);
      assert host[..] == h;
      return Done;
    }

    /** Checks the pages of a fixed range: says whether they are reserved anew, or nothing if they must not be. */
    method CheckFixed(startPage: nat, pageCount: nat, kind: AllocationType) returns (withReserve: Option<bool>)
      requires Valid() && pageCount > 0 && startPage + pageCount <= g.pages
      ensures withReserve == if kind == Reserve && SomeTaken(Table(), startPage, startPage + pageCount) then None
                             else Some(Reserves(Table(), startPage, pageCount, kind))
    {
      // - If we are reserving, the entire range must not be already reserved.
      // - If we are committing it is ok for pages within the range to already be committed.
      for page := startPage to startPage + pageCount
        invariant kind == Reserve ==> forall p :: startPage <= p < page ==> IsFree(Table()[p])
        invariant kind == Commit ==> forall p :: startPage <= p < page ==> Table()[p].reserved
      {
        assert pageTable[page] == Table()[page];
        if kind == Reserve && !IsFree(pageTable[page]) {
          return None;
        }
        if kind == Commit && !pageTable[page].reserved {
          return Some(true);
        }
      }
      return Some(kind != Commit);
    }

    /** Sets the pages of a fixed range and updates the index. */
    method SetFixed(startPage: nat, pageCount: nat, withReserve: bool, kind: AllocationType, protect: Protection)
      requires Valid() && pageCount > 0 && startPage + pageCount <= g.pages
      requires withReserve == Reserves(Table(), startPage, pageCount, kind)
      requires kind == Reserve ==> !SomeTaken(Table(), startPage, startPage + pageCount)
      modifies this, pageTable
      ensures Valid() && Drift() == old(Drift())
      ensures Table() == Pinned(old(Table()), startPage, pageCount, withReserve, kind != Reserve, protect)
      ensures old(Partitioned()) ==>
                (Partitioned() <==> KeepsPartition(old(Table()), startPage, pageCount, kind))
    {
      ghost var t := Table();
      PinnedEntries(t, startPage, pageCount, withReserve, kind != Reserve, protect);
      // Set page state.
      var hadFreePages := PinPages(startPage, pageCount, withReserve, kind != Reserve, protect);
      // Update free block tracker if any pages transitioned from free.
      if hadFreePages {
        if kind == Reserve {
          ghost var block := PinnedIndex(t, startPage, pageCount, withReserve, false, protect, g.pages);
          RemoveFreeBlock(startPage, pageCount);
        } else {
          RebuildFreeBlocks();
        }
      } else {
        RepinnedIndex(t, startPage, pageCount, withReserve, kind != Reserve, protect);
      }
      if Regions(t) {
        PinnedRegions(t, startPage, pageCount, kind, protect);
      }
    }

    /** Finds a free page range using the free block tracker. */
    method FindRange(lowAddress: uint32, highAddress: uint32, size: uint32, alignment: uint32, topDown: bool)
      returns (r: Outcome, start: Option<nat>)
      requires Valid()
      ensures if alignment + Pow2(g.pageShift) <= U32
              then RangeFound(g, Table(), lowAddress, highAddress, size, alignment, topDown, start)
                   && r == (if Settles(start, PageCount(size, g.pageShift)) then Done else Failed)
              else start == None && r == UnstridedOutcome(g, Table(), lowAddress, highAddress, size, alignment, topDown)
    {
      RangeBounds(g, lowAddress, highAddress, alignment);
      var pageCount := PageCount(size, g.pageShift);
      var lowPage := LowPage(g, lowAddress, alignment);
      var highPage := HighPage(g, highAddress, alignment);
      if alignment + Pow2(g.pageShift) > U32 {
        r := Failed;
        if pageCount <= Sub32(highPage, lowPage) {
          r := FindUnstrided(freeBlocks, pageTable.Length, lowPage, highPage, pageCount, topDown);
        }
        return r, None;
      }
      start := FindStrided(lowPage, highPage, pageCount, Stride(g, alignment), topDown);
      // No pages at page 0: the last page number is the one that means failure.
      r := if Settles(start, pageCount) then Done else Failed;
    }

    method FindStrided(lowPage: uint32, highPage: uint32, pageCount: nat, stride: nat, topDown: bool)
      returns (start: Option<nat>)
      requires Valid() && stride > 0
      ensures SearchResult(FreeBits(Table()), Runs(FreeBits(Table())), lowPage, highPage, pageCount, stride, topDown,
                           start)
    {
      ghost var free := FreeBits(Table());
      if pageCount > Sub32(highPage, lowPage) {
        NoRoom(free, lowPage, highPage, pageCount, stride, topDown);
        return None;
      }
      if topDown {
        start := FindTopDown(freeBlocks, free, lowPage, highPage, pageCount, stride);
      } else {
        start := FindBottomUp(freeBlocks, free, pageTable.Length, lowPage, highPage, pageCount, stride);
      }
    }

    /** The index holds what it should after pages were claimed; claiming no pages may have split a block. */
    ghost predicate ClaimedIndex(start: nat, count: nat)
      reads this, pageTable
    {
      var free := FreeBits(Table());
      if count > 0 then Indexed()
      else exists b :: InBlock(Runs(free), b, start, 0) && freeBlocks == Carved(Runs(free), b, start, 0)
    }

    /** Takes the free pages the search found, or puts them back when the host refuses. */
    method ClaimRange(startPage: nat, pageCount: nat, kind: AllocationType, protect: Protection, hostOk: bool)
      returns (ok: bool)
      requires Valid() && startPage + pageCount <= g.pages
      requires FreeRange(FreeBits(Table()), startPage, startPage + pageCount)
      requires exists b :: InBlock(Runs(FreeBits(Table())), b, startPage, pageCount)
      modifies this, pageTable, host
      ensures Drift() == old(Drift()) && Entries(Table()) && (old(Partitioned()) ==> Partitioned())
      ensures ok <==> kind == Reserve || SkipsHostCommit(g) || hostOk
      ensures !ok ==> Is(old(Table()), old(freeBlocks), old(unreserved), old(host[..]))
      ensures ok ==> HasTaken(old(Table()), old(host[..]), startPage, pageCount, kind, protect)
                     && ClaimedIndex(startPage, pageCount)
      ensures Indexed() <==> (ok && pageCount == 0 ==> !Splits(FreeBits(old(Table())), startPage))
    {
      ghost var block := FoundBlock(Table(), startPage, pageCount, kind != Reserve, protect, g.pages);
      // Update free block tracker.
      RemoveFreeBlock(startPage, pageCount);
      // Allocate from host.
      if kind != Reserve {
        if !SkipsHostCommit(g) && !hostOk {
          // Restore the free block since we failed.
          InsertFreeBlock(startPage, pageCount);
          return false;
        }
        HostCommit(startPage, pageCount, protect);
      }
      // Set page state.
      TakePages(startPage, pageCount, kind != Reserve, protect);
      return true;
    }

    /** Allocates the best aligned free window in an address range. `found` is the page the search settles on. A request
        of no pages, which a size next to the end of the word makes, splits the free block around that page. */
    method AllocRange(lowAddress: uint32, highAddress: uint32, size: uint32, alignment: uint32, kind: AllocationType,
                      protect: Protection, topDown: bool, hostOk: bool)
      returns (r: Outcome, address: uint32, ghost found: Option<nat>)
      requires Valid()
      modifies this, pageTable, host
      ensures Drift() == old(Drift()) && Entries(Table()) && (old(Partitioned()) ==> Partitioned())
      ensures if alignment + Pow2(g.pageShift) <= U32
              then RangeFound(g, old(Table()), lowAddress, highAddress, size, alignment, topDown, found)
                   && r == (if Settles(found, PageCount(size, g.pageShift))
                               && (kind == Reserve || SkipsHostCommit(g) || hostOk) then Done else Failed)
              else r == UnstridedOutcome(g, old(Table()), lowAddress, highAddress, size, alignment, topDown)
      ensures r != Done ==> address == 0 && Is(old(Table()), old(freeBlocks), old(unreserved), old(host[..]))
      ensures r == Done ==> var count := PageCount(size, g.pageShift);
                            && found.Some? && found.value < g.pages
                            && address == g.base + Shl(found.value, g.pageShift)
                            && HasTaken(old(Table()), old(host[..]), found.value, count, kind, protect)
                            && ClaimedIndex(found.value, count)
      // The index stays faithful exactly unless no pages are asked for and the page found and the one before are free.
      ensures Valid() <==> (r == Done && PageCount(size, g.pageShift) == 0
                            ==> !Splits(FreeBits(old(Table())), found.value))
    {
      var start;
      r, start := FindRange(lowAddress, highAddress, size, alignment, topDown);
      found := start;
      if r != Done {
        return r, 0, start;
      }
      var pageCount := PageCount(size, g.pageShift);
      RangeBounds(g, lowAddress, highAddress, alignment);
      FoundInside(FreeBits(Table()), LowPage(g, lowAddress, alignment), HighPage(g, highAddress, alignment), pageCount,
                  Stride(g, alignment), topDown, start.value);
      var ok;
      ok, address := ClaimAt(start.value, pageCount, kind, protect, hostOk);
      r := if ok then Done else Failed;
    }

    /** Takes the free pages the search found and gives their address, or changes nothing. */
    method ClaimAt(startPage: nat, pageCount: nat, kind: AllocationType, protect: Protection, hostOk: bool)
      returns (ok: bool, address: uint32)
      requires Valid() && startPage < g.pages && startPage + pageCount <= g.pages
      requires FreeRange(FreeBits(Table()), startPage, startPage + pageCount)
      requires exists b :: InBlock(Runs(FreeBits(Table())), b, startPage, pageCount)
      modifies this, pageTable, host
      ensures Drift() == old(Drift()) && Entries(Table()) && (old(Partitioned()) ==> Partitioned())
      ensures ok <==> kind == Reserve || SkipsHostCommit(g) || hostOk
      ensures !ok ==> address == 0 && Is(old(Table()), old(freeBlocks), old(unreserved), old(host[..]))
      ensures ok ==> address == g.base + Shl(startPage, g.pageShift)
                     && HasTaken(old(Table()), old(host[..]), startPage, pageCount, kind, protect)
                     && ClaimedIndex(startPage, pageCount)
      ensures Valid() <==> (ok && pageCount == 0 ==> !Splits(FreeBits(old(Table())), startPage))
    {
      ok := ClaimRange(startPage, pageCount, kind, protect, hostOk);
      PageAddress(g, startPage);
      address := if ok then g.base + Shl(startPage, g.pageShift) else 0;
    }

    method Alloc(size: uint32, alignment: uint32, kind: AllocationType, protect: Protection, topDown: bool,
                 hostOk: bool)
      returns (ok: bool, address: uint32, ghost found: Option<nat>)
      requires Valid()
      modifies this, pageTable, host
      ensures Valid() && Drift() == old(Drift()) && (old(Partitioned()) ==> Partitioned())
      ensures RoundUp(alignment, g.pageShift) + Pow2(g.pageShift) <= U32
      ensures RangeFound(g, old(Table()), g.base, AllocHigh(g), RoundUp(size, g.pageShift),
                         RoundUp(alignment, g.pageShift), topDown, found)
      ensures ok <==> found.Some? && (kind == Reserve || SkipsHostCommit(g) || hostOk)
      ensures !ok ==> address == 0 && Is(old(Table()), old(freeBlocks), old(unreserved), old(host[..]))
      ensures ok ==> var count := AllocPages(size, g.pageShift);
                     && address == g.base + Shl(found.value, g.pageShift)
                     && HasTaken(old(Table()), old(host[..]), found.value, count, kind, protect)
    {
      AllocRequest(g, size, alignment);
      var size' := RoundUp(size, g.pageShift);
      var alignment' := RoundUp(alignment, g.pageShift);
      var r;
      r, address, found := AllocRange(g.base, AllocHigh(g), size', alignment', kind, protect, topDown, hostOk);
      ok := r == Done;
    }

    // ----- giving pages back

    /** Pages in the range lose their commit bit; an unaligned range is counted in pages from its first one. */
    method Decommit(address: uint32, size: uint32)
      requires Valid()
      modifies pageTable
      ensures Valid() && Drift() == old(Drift()) && (old(Partitioned()) ==> Partitioned())
      ensures var range := DecommitRange(g, address, size);
              Table() == Decommitted(old(Table()), range.0, range.1)
    {
      var range := DecommitRange(g, address, size);
      DecommitEntries(Table(), range.0, range.1);
      if Regions(Table()) {
        DecommitKeeps(Table(), range.0, range.1);
      }
      DecommitPages(range.0, range.1);
    }

    method DecommitPages(lo: nat, hi: nat)
      requires hi <= pageTable.Length
      modifies pageTable
      ensures Table() == Decommitted(old(Table()), lo, hi)
    {
      var page := lo;
      while page < hi
        invariant lo <= page
        invariant forall p :: 0 <= p < pageTable.Length ==>
                    pageTable[p] == if lo <= p < page && p < hi then old(pageTable[p]).(committed := false)
                                    else old(pageTable[p])
      {
        pageTable[page] := pageTable[page].(committed := false);
        page := page + 1;
      }
    }

    /** Releases the region that starts at an address. Pages of it that are free already are counted and indexed once
        more; on a partitioned table there are none. */
    method Release(baseAddress: uint32) returns (r: Outcome, regionSize: nat)
      requires Valid()
      modifies this, pageTable
      ensures r == ReleaseOutcome(g, old(Table()), g.PageOf(baseAddress))
      ensures r != Done ==>
                Table() == old(Table()) && freeBlocks == old(freeBlocks) && unreserved == old(unreserved)
      ensures r == Done ==>
                var page, count := g.PageOf(baseAddress), old(Table())[g.PageOf(baseAddress)].count;
                && regionSize == Shl(count, g.pageShift) && freeBlocks == Merged(old(freeBlocks), page, count)
                && HasCleared(old(Table()), old(Drift()), page, count)
      // Index and counter follow exactly if all pages given back were taken.
      ensures Valid() <==> SafeRelease(g, old(Table()), g.PageOf(baseAddress))
      ensures Valid() ==> Drift() == old(Drift())
      ensures old(Partitioned()) ==> Partitioned() && Valid()
    {
      var basePage := g.PageOf(baseAddress);
      r := CheckRelease(basePage);
      regionSize := 0;
      if r == Done {
        var count := pageTable[basePage].count;
        regionSize := Shl(count, g.pageShift);
        GiveBack(basePage, count);
      }
    }

    /** The given page must start a region. */
    method CheckRelease(basePage: nat) returns (r: Outcome)
      requires Shape()
      ensures r == ReleaseOutcome(g, Table(), basePage)
    {
      if basePage >= pageTable.Length {
        return Overrun;
      }
      var entry := pageTable[basePage];
      if entry.base != basePage {
        return Failed;
      }
      if g.base == 0 && basePage == 0 {
        return Failed;
      }
      if IsFree(entry) || basePage + entry.count == 0 || basePage + entry.count > pageTable.Length {
        // A region of no pages at page 0 makes the last page number wrap.
        return Overrun;
      }
      return Done;
    }

    /** Clears the pages of a region and inserts them into the index. */
    method GiveBack(page: nat, count: nat)
      requires Valid() && ReleaseOutcome(g, Table(), page) == Done && count == Table()[page].count
      modifies this, pageTable
      ensures Shape() && Entries(Table())
      ensures freeBlocks == Merged(old(freeBlocks), page, count)
      ensures HasCleared(old(Table()), old(Drift()), page, count)
      ensures Indexed() <==> SafeRelease(g, old(Table()), page)
      ensures SafeRelease(g, old(Table()), page) ==> Drift() == old(Drift())
      ensures old(Partitioned()) ==> Partitioned() && Indexed()
    {
      ReleaseEffect(Table(), page, count);
      FreeInNone(Table(), page, page + count);
      ClearPages(page, count);
      // Insert freed block into tracker with coalescing.
      InsertFreeBlock(page, count);
    }

    // ----- protection

    /** The access a host page gets when its guest pages are `[first, last]`. */
    method AccessFor(first: nat, last: nat, startPage: nat, endPage: nat, protect: Protection)
      returns (access: PageAccess)
      requires first <= last < pageTable.Length && endPage < pageTable.Length
      ensures var t := Protected(Table(), startPage, endPage + 1, protect);
              && (forall p :: first <= p <= last ==> Rank(ToPageAccess(t[p].currentProtect)) <= Rank(access))
              && (access == NoAccess || exists p :: first <= p <= last && ToPageAccess(t[p].currentProtect) == access)
    {
      ghost var t := Protected(Table(), startPage, endPage + 1, protect);
      access := NoAccess;
      for p := first to last + 1
        invariant access != ReadWrite
        invariant forall q :: first <= q < p ==> Rank(ToPageAccess(t[q].currentProtect)) <= Rank(access)
        invariant access == NoAccess || exists q :: first <= q < p && ToPageAccess(t[q].currentProtect) == access
      {
        var pageProtect := if startPage <= p <= endPage then protect else pageTable[p].currentProtect;
        assert pageProtect == t[p].currentProtect;
        var pageAccess := ToPageAccess(pageProtect);
        if pageAccess == ReadWrite {
          return ReadWrite;
        }
        if pageAccess == ReadOnly && access == NoAccess {
          access := ReadOnly;
        }
      }
    }

    /** The access a touched host page gets when guest pages `[startPage, endPage]` get `protect`. */
    method AccessOfHostPage(h: nat, startPage: nat, endPage: nat, protect: Protection) returns (access: PageAccess)
      requires Shape() && startPage <= endPage < g.pages
      requires TouchedFirst(g, startPage) <= h <= TouchedLast(g, endPage)
      ensures MostPermissive(g, Protected(Table(), startPage, endPage + 1, protect), h, access)
    {
      TouchedPage(g, startPage, endPage, h);
      GuestPagesOn(g, h);
      var first, last := FirstGuestPage(g, h), Min(LastGuestPage(g, h), pageTable.Length - 1);
      access := AccessFor(first, last, startPage, endPage, protect);
      forall p: nat | p < g.pages ensures Overlaps(g, p, h) <==> first <= p <= last {
        OverlapRange(g, p, h);
      }
    }

    /** Host pages are larger than guest pages: each touched one gets the access its guest pages need. */
    method ProtectByHostPage(startPage: nat, endPage: nat, protect: Protection)
      requires Shape() && startPage <= endPage < g.pages
      modifies host
      ensures var t := Protected(Table(), startPage, endPage + 1, protect);
              forall h :: 0 <= h < host.Length ==>
                if TouchedFirst(g, startPage) <= h <= TouchedLast(g, endPage) then MostPermissive(g, t, h, host[h])
                else host[h] == old(host[h])
    {
      ghost var t := Protected(Table(), startPage, endPage + 1, protect);
      TouchedInside(g, startPage, endPage);
      for h := TouchedFirst(g, startPage) to TouchedLast(g, endPage) + 1
        invariant forall i :: 0 <= i < host.Length ==>
                    if TouchedFirst(g, startPage) <= i < h then MostPermissive(g, t, i, host[i])
                    else host[i] == old(host[i])
      {
        host[h] := AccessOfHostPage(h, startPage, endPage, protect);
      }
    }

    /** Ensures all pages are in the same reserved region and all are committed. */
    method CheckProtect(address: uint32, size: uint32) returns (target: Option<(nat, nat)>)
      requires Shape()
      ensures target == ProtectTarget(g, Table(), address, size)
    {
      var range := ProtectRange(g, address, size);
      if range.None? {
        return None;
      }
      var (startPage, endPage) := range.value;
      var firstBase := pageTable[startPage].base;
      for page := startPage to endPage + 1
        invariant forall p :: startPage <= p < page ==> pageTable[p].base == firstBase && pageTable[p].committed
      {
        if pageTable[page].base != firstBase || !pageTable[page].committed {
          return None;
        }
      }
      return range;
    }

    /** Attempts the host change. */
    method HostChange(startPage: nat, endPage: nat, protect: Protection, hostOk: bool) returns (ok: bool)
      requires Shape() && startPage <= endPage < g.pages
      modifies host
      ensures ok <==> (OnWholeHostPages(g, startPage, endPage) ==> hostOk)
      ensures !ok ==> host[..] == old(host[..])
      ensures ok ==> HostAfterProtect(g, old(host[..]), host[..], Protected(Table(), startPage, endPage + 1, protect),
                                      startPage, endPage, protect)
    {
      if OnWholeHostPages(g, startPage, endPage) {
        if !hostOk {
          return false;
        }
        HostProtect(Shr(g.HostOffsetOf(startPage), g.sysShift),
                    Shr(Shl(endPage + 1 - startPage, g.pageShift), g.sysShift), ToPageAccess(protect));
      } else {
        ProtectByHostPage(startPage, endPage, protect);
      }
      return true;
    }

    /** Modifies the protection mode of the pages that hold a byte range. The host is asked only if whole host
        pages change. */
    method Protect(address: uint32, size: uint32, protect: Protection, hostOk: bool)
      returns (ok: bool, oldProtect: Protection)
      requires Valid()
      modifies pageTable, host
      ensures Valid() && Drift() == old(Drift()) && (old(Partitioned()) ==> Partitioned())
      ensures var target := ProtectTarget(g, old(Table()), address, size);
              && (ok <==> target.Some? && (OnWholeHostPages(g, target.value.0, target.value.1) ==> hostOk))
              && (!ok ==> Table() == old(Table()) && host[..] == old(host[..]))
              && (ok ==>
                    var t := Protected(old(Table()), target.value.0, target.value.1 + 1, protect);
                    && Table() == t
                    && HostAfterProtect(g, old(host[..]), host[..], t, target.value.0, target.value.1, protect)
                    && oldProtect == OldProtection(g, old(Table()), old(host[..]), target.value.0, target.value.1))
    {
      var target := CheckProtect(address, size);
      if target.None? {
        return false, NO_PROTECTION;
      }
      ok, oldProtect := ChangePages(target.value.0, target.value.1, protect, hostOk);
    }

    /** Changes the host accesses and then the table. */
    method ChangePages(first: nat, last: nat, protect: Protection, hostOk: bool)
      returns (ok: bool, oldProtect: Protection)
      requires Valid() && first <= last < g.pages && Protectable(Table(), first, last)
      modifies pageTable, host
      ensures Valid() && Drift() == old(Drift()) && (old(Partitioned()) ==> Partitioned())
      ensures ok <==> (OnWholeHostPages(g, first, last) ==> hostOk)
      ensures !ok ==> Table() == old(Table()) && host[..] == old(host[..])
      ensures ok ==> Table() == Protected(old(Table()), first, last + 1, protect)
                     && HostAfterProtect(g, old(host[..]), host[..], Table(), first, last, protect)
                     && oldProtect == OldProtection(g, old(Table()), old(host[..]), first, last)
    {
      TouchedInside(g, first, last);
      oldProtect := if OnWholeHostPages(g, first, last) then FromPageAccess(host[TouchedFirst(g, first)])
                    else pageTable[first].currentProtect;
      ok := HostChange(first, last, protect, hostOk);
      if ok {
        // Perform table change.
        ghost var h := host[..];
        ProtectPages(first, last + 1, protect);
        assert host[..] == h;
      }
    }

    method ProtectPages(lo: nat, hi: nat, protect: Protection)
      requires Valid() && hi <= g.pages && forall p :: lo <= p < hi ==> pageTable[p].committed
      modifies pageTable
      ensures Valid() && Drift() == old(Drift()) && (old(Partitioned()) ==> Partitioned())
      ensures Table() == Protected(old(Table()), lo, hi, protect)
    {
      ProtectEntries(Table(), lo, hi, protect);
      if Regions(Table()) {
        ProtectKeeps(Table(), lo, hi, protect);
      }
      WriteProtection(lo, hi, protect);
    }

    method WriteProtection(lo: nat, hi: nat, protect: Protection)
      requires hi <= pageTable.Length
      modifies pageTable
      ensures Table() == Protected(old(Table()), lo, hi, protect)
    {
      var page := lo;
      while page < hi
        invariant lo <= page
        invariant forall p :: 0 <= p < pageTable.Length ==>
                    pageTable[p] == if lo <= p < page && p < hi then old(pageTable[p]).(currentProtect := protect)
                                    else old(pageTable[p])
      {
        pageTable[page] := pageTable[page].(currentProtect := protect);
        page := page + 1;
      }
    }
  }
}
