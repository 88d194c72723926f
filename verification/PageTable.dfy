/** Page entries, page tables and the pure functions that describe what heap operations do to them. */
module PageTable {
  import opened FreeIndex

  datatype AllocationType = Reserve | Commit | ReserveCommit

  /** A mask of protection flags. */
  datatype Protection = Protection(read: bool, write: bool, noCache: bool, writeCombine: bool)

  const NO_PROTECTION := Protection(false, false, false, false)

  /** The accesses the host grants to one of its pages. */
  datatype PageAccess = NoAccess | ReadOnly | ReadWrite

  /** Write-combined memory is writable too. */
  function ToPageAccess(protect: Protection): PageAccess {
    if protect.read && !(protect.write || protect.writeCombine) then ReadOnly
    else if protect.read && (protect.write || protect.writeCombine) then ReadWrite
    else NoAccess
  }

  /** `base` and `count` describe the region; `reserved` and `committed` are the two state bits. */
  datatype PageEntry = PageEntry(base: nat, count: nat, allocationProtect: Protection, currentProtect: Protection,
                                 reserved: bool, committed: bool)

  const FREE_ENTRY := PageEntry(0, 0, NO_PROTECTION, NO_PROTECTION, false, false)

  type Table = seq<PageEntry>

  predicate IsFree(e: PageEntry) { !e.reserved && !e.committed }

  function FreeBits(t: Table): (free: seq<bool>)
    ensures |free| == |t| && forall p :: 0 <= p < |t| ==> free[p] == IsFree(t[p])
  {
    seq(|t|, p requires 0 <= p < |t| => IsFree(t[p]))
  }

  function FreePages(t: Table): nat {
    if |t| == 0 then 0 else FreePages(t[..|t| - 1]) + (if IsFree(t[|t| - 1]) then 1 else 0)
  }

  lemma {:induction false} FreePagesUpdate(t: Table, i: nat, e: PageEntry)
    requires i < |t|
    ensures FreePages(t[i := e]) + (if IsFree(t[i]) then 1 else 0) == FreePages(t) + (if IsFree(e) then 1 else 0)
  {
    var last := |t| - 1;
    if i == last {
      assert t[i := e][..last] == t[..last];
    } else {
      assert t[i := e][..last] == t[..last][i := e];
      FreePagesUpdate(t[..last], i, e);
    }
  }

  lemma {:induction false} FreePagesBound(t: Table)
    ensures FreePages(t) <= |t|
    ensures (forall p :: 0 <= p < |t| ==> IsFree(t[p])) ==> FreePages(t) == |t|
  {
    if |t| > 0 {
      FreePagesBound(t[..|t| - 1]);
    }
  }

  // ----- entries

  /** A free page is all zero; any other is reserved. */
  predicate EntryOk(e: PageEntry) {
    if IsFree(e) then e == FREE_ENTRY else e.reserved
  }

  predicate Entries(t: Table) {
    forall p :: 0 <= p < |t| ==> EntryOk(t[p])
  }

  // ----- regions

  /** The page `p` belongs to a whole region, all of whose pages say so. */
  ghost predicate InRegion(t: Table, p: nat)
    requires p < |t|
  {
    var e := t[p];
    && e.reserved && e.base <= p < e.base + e.count <= |t|
    && forall q :: e.base <= q < e.base + e.count ==> t[q].reserved && t[q].base == e.base && t[q].count == e.count
  }

  /** A free page is all zero; any other belongs to a region. */
  ghost predicate PageOk(t: Table, p: nat)
    requires p < |t|
  {
    if IsFree(t[p]) then t[p] == FREE_ENTRY else InRegion(t, p)
  }

  ghost predicate RegionsUpTo(t: Table, n: nat)
    requires n <= |t|
  {
    n == 0 || (RegionsUpTo(t, n - 1) && PageOk(t, n - 1))
  }

  /** The reserved pages are partitioned into regions and free pages are all zero. */
  ghost predicate Regions(t: Table) {
    RegionsUpTo(t, |t|)
  }

  lemma {:induction false} RegionsUpToMeans(t: Table, n: nat)
    requires n <= |t|
    ensures RegionsUpTo(t, n) <==> forall p: nat :: p < n ==> PageOk(t, p)
  {
    if n > 0 {
      RegionsUpToMeans(t, n - 1);
    }
  }

  lemma {:induction false} RegionsMean(t: Table)
    ensures Regions(t) ==> forall p: nat {:trigger t[p]} :: p < |t| ==> PageOk(t, p)
  {
    RegionsUpToMeans(t, |t|);
  }

  lemma {:induction false} RegionsFrom(t: Table)
    requires forall p: nat :: p < |t| ==> PageOk(t, p)
    ensures Regions(t)
  {
    RegionsUpToMeans(t, |t|);
  }

  lemma {:induction false} RegionsHaveEntries(t: Table)
    ensures Regions(t) ==> Entries(t)
  {
    RegionsMean(t);
    if Regions(t) {
      forall p: nat | p < |t| ensures EntryOk(t[p]) {
        assert PageOk(t, p);
      }
    }
  }

  /** `page` starts a region of `count` pages. */
  predicate RegionAt(t: Table, page: nat, count: nat) {
    page < |t| && t[page].reserved && t[page].base == page && t[page].count == count
  }

  /** Two regions that share a page are the same region. */
  lemma {:induction false} RegionsDisjoint(t: Table, p: nat, q: nat, x: nat)
    requires Regions(t) && p < |t| && q < |t| && !IsFree(t[p]) && !IsFree(t[q])
    requires t[p].base <= x < t[p].base + t[p].count && t[q].base <= x < t[q].base + t[q].count
    ensures t[p].base == t[q].base && t[p].count == t[q].count
  {
    RegionsMean(t);
    assert InRegion(t, p) && InRegion(t, q);
    assert t[x].base == t[p].base;
  }

  // ----- what the operations do to a table

  /** The entry an allocation of `[first, first + count)` leaves in place of `e`. */
  function PinEntry(e: PageEntry, first: nat, count: nat, withReserve: bool, commit: bool, protect: Protection)
    : PageEntry
  {
    PageEntry(if withReserve then first else e.base, if withReserve then count else e.count, protect, protect, true,
              commit)
  }

  function Pinned(t: Table, first: nat, count: nat, withReserve: bool, commit: bool, protect: Protection): Table {
    seq(|t|, p requires 0 <= p < |t| =>
      if first <= p < first + count then PinEntry(t[p], first, count, withReserve, commit, protect) else t[p])
  }

  function Cleared(t: Table, first: nat, count: nat): Table {
    seq(|t|, p requires 0 <= p < |t| => if first <= p < first + count then FREE_ENTRY else t[p])
  }

  /** Pages `[lo, hi)` lose their commit bit. */
  function Decommitted(t: Table, lo: nat, hi: nat): Table {
    seq(|t|, p requires 0 <= p < |t| => if lo <= p < hi then t[p].(committed := false) else t[p])
  }

  /** Pages `[lo, hi)` get a new current protection. */
  function Protected(t: Table, lo: nat, hi: nat, protect: Protection): Table {
    seq(|t|, p requires 0 <= p < |t| => if lo <= p < hi then t[p].(currentProtect := protect) else t[p])
  }

  lemma {:induction false} PinnedFreeBits(t: Table, first: nat, count: nat, withReserve: bool, commit: bool,
                                          protect: Protection)
    ensures FreeBits(Pinned(t, first, count, withReserve, commit, protect)) == Fill(FreeBits(t), first, count, false)
  {
  }

  lemma {:induction false} ClearedFreeBits(t: Table, first: nat, count: nat)
    ensures FreeBits(Cleared(t, first, count)) == Fill(FreeBits(t), first, count, true)
  {
  }

  lemma {:induction false} PinnedEntries(t: Table, first: nat, count: nat, withReserve: bool, commit: bool,
                                         protect: Protection)
    requires Entries(t)
    ensures Entries(Pinned(t, first, count, withReserve, commit, protect))
  {
    forall p | 0 <= p < |t| ensures EntryOk(Pinned(t, first, count, withReserve, commit, protect)[p]) {
      assert EntryOk(t[p]);
    }
  }

  /** Every region that the range touches lies wholly inside it. */
  ghost predicate CoversRegions(t: Table, first: nat, count: nat) {
    forall p: nat :: first <= p < first + count && p < |t| && !IsFree(t[p])
                     ==> first <= t[p].base && t[p].base + t[p].count <= first + count
  }

  lemma {:induction false} CoveredPinKeepsRegions(t: Table, first: nat, count: nat, commit: bool, protect: Protection)
    requires Regions(t) && count > 0 && first + count <= |t| && CoversRegions(t, first, count)
    ensures Regions(Pinned(t, first, count, true, commit, protect))
  {
    var t' := Pinned(t, first, count, true, commit, protect);
    RegionsMean(t);
    forall p: nat | p < |t'| ensures PageOk(t', p) {
      if !(first <= p < first + count) && !IsFree(t[p]) {
        assert InRegion(t, p);
        forall q: nat | t[p].base <= q < t[p].base + t[p].count ensures t'[q] == t[q] {
          assert t[q].base == t[p].base && t[q].count == t[p].count;
        }
      }
    }
    RegionsFrom(t');
  }

  /** A range that cuts a region: the page `p` of the region lies inside, its page `q` outside. */
  lemma {:induction false} CutRegion(t: Table, first: nat, count: nat) returns (p: nat, q: nat)
    requires Regions(t) && first + count <= |t| && !CoversRegions(t, first, count)
    ensures first <= p < first + count && q < |t| && !(first <= q < first + count)
    ensures !IsFree(t[q]) && t[q].base <= p < t[q].base + t[q].count
  {
    RegionsMean(t);
    p :| first <= p < first + count && p < |t| && !IsFree(t[p])
         && !(first <= t[p].base && t[p].base + t[p].count <= first + count);
    assert InRegion(t, p);
    q := if t[p].base < first then t[p].base else t[p].base + t[p].count - 1;
    assert t[q].reserved && t[q].base == t[p].base && t[q].count == t[p].count;
  }

  /** The pages that a page claims for its region agree with it. */
  lemma {:induction false} ClaimedPage(t: Table, p: nat, q: nat)
    requires Regions(t) && q < |t| && !IsFree(t[q]) && t[q].base <= p < t[q].base + t[q].count
    ensures p < |t| && t[p].reserved && t[p].base == t[q].base && t[p].count == t[q].count
    ensures t[q].base <= q < t[q].base + t[q].count
  {
    RegionsMean(t);
    assert InRegion(t, q);
  }

  /** An allocation that sets a new region keeps the partition exactly when it swallows whole regions only. */
  lemma {:induction false} PinKeepsRegions(t: Table, first: nat, count: nat, commit: bool, protect: Protection)
    requires Regions(t) && count > 0 && first + count <= |t|
    ensures Regions(Pinned(t, first, count, true, commit, protect)) <==> CoversRegions(t, first, count)
  {
    var t' := Pinned(t, first, count, true, commit, protect);
    if CoversRegions(t, first, count) {
      CoveredPinKeepsRegions(t, first, count, commit, protect);
    } else if Regions(t') {
      var p, q := CutRegion(t, first, count);
      // The page of the old region outside the range still claims the page inside.
      ClaimedPage(t', p, q);
    }
  }

  /** A region that was cut by a reservation is still cut when the reservation is gone. */
  lemma {:induction false} CutStaysCut(t: Table, first: nat, count: nat, commit: bool, protect: Protection)
    requires Regions(t) && count > 0 && first + count <= |t| && !CoversRegions(t, first, count)
    ensures !Regions(Cleared(Pinned(t, first, count, true, commit, protect), first, count))
  {
    var t' := Cleared(Pinned(t, first, count, true, commit, protect), first, count);
    if Regions(t') {
      var p, q := CutRegion(t, first, count);
      ClaimedPage(t', p, q);
    }
  }

  lemma {:induction false} RecommitKeepsRegions(t: Table, first: nat, count: nat, protect: Protection)
    requires Regions(t) && first + count <= |t|
    requires forall p :: first <= p < first + count ==> t[p].reserved
    ensures Regions(Pinned(t, first, count, false, true, protect))
  {
    var t' := Pinned(t, first, count, false, true, protect);
    RegionsMean(t);
    forall p: nat | p < |t'| ensures PageOk(t', p) {
      assert PageOk(t, p);
    }
    RegionsFrom(t');
  }

  /** Clearing a region from its first page on leaves a partition. */
  lemma {:induction false} ClearKeepsRegions(t: Table, first: nat, count: nat)
    requires Regions(t) && RegionAt(t, first, count)
    ensures first + count <= |t| && count > 0
    ensures Regions(Cleared(t, first, count))
  {
    RegionsMean(t);
    assert InRegion(t, first);
    var t' := Cleared(t, first, count);
    forall p: nat | p < |t'| ensures PageOk(t', p) {
      assert PageOk(t, p);
      if !IsFree(t'[p]) {
        forall q: nat | t[p].base <= q < t[p].base + t[p].count ensures t'[q] == t[q] {
          assert t[q].base == t[p].base;
          assert t[q].base == first || !(first <= q < first + count);
        }
      }
    }
    RegionsFrom(t');
  }

  lemma {:induction false} SameFreePages(t: Table, t': Table)
    requires |t| == |t'| && forall p :: 0 <= p < |t| ==> IsFree(t[p]) == IsFree(t'[p])
    ensures FreePages(t) == FreePages(t') && FreeBits(t) == FreeBits(t')
  {
    if |t| > 0 {
      SameFreePages(t[..|t| - 1], t'[..|t| - 1]);
    }
  }

  /** Dropping commit bits frees no page. */
  lemma {:induction false} DecommitEntries(t: Table, lo: nat, hi: nat)
    requires Entries(t)
    ensures var d := Decommitted(t, lo, hi);
            Entries(d) && FreeBits(d) == FreeBits(t) && FreePages(d) == FreePages(t)
  {
    var d := Decommitted(t, lo, hi);
    forall p: nat | p < |d| ensures EntryOk(d[p]) && IsFree(d[p]) == IsFree(t[p]) {
      assert EntryOk(t[p]);
    }
    SameFreePages(t, d);
  }

  lemma {:induction false} DecommitKeeps(t: Table, lo: nat, hi: nat)
    requires Regions(t)
    ensures var d := Decommitted(t, lo, hi);
            Regions(d) && FreeBits(d) == FreeBits(t) && FreePages(d) == FreePages(t)
  {
    var d := Decommitted(t, lo, hi);
    RegionsHaveEntries(t);
    DecommitEntries(t, lo, hi);
    RegionsMean(t);
    forall p: nat | p < |d| ensures PageOk(d, p) {
      assert PageOk(t, p);
    }
    RegionsFrom(d);
  }

  /** Changing the protection of committed pages frees no page. */
  lemma {:induction false} ProtectEntries(t: Table, lo: nat, hi: nat, protect: Protection)
    requires Entries(t) && hi <= |t| && forall p: nat :: lo <= p < hi ==> t[p].committed
    ensures var r := Protected(t, lo, hi, protect);
            Entries(r) && FreeBits(r) == FreeBits(t) && FreePages(r) == FreePages(t)
  {
    var r := Protected(t, lo, hi, protect);
    forall p: nat | p < |r| ensures EntryOk(r[p]) && IsFree(r[p]) == IsFree(t[p]) {
      assert EntryOk(t[p]);
    }
    SameFreePages(t, r);
  }

  lemma {:induction false} ProtectKeeps(t: Table, lo: nat, hi: nat, protect: Protection)
    requires Regions(t) && hi <= |t| && forall p: nat :: lo <= p < hi ==> t[p].committed
    ensures var r := Protected(t, lo, hi, protect);
            Regions(r) && FreeBits(r) == FreeBits(t) && FreePages(r) == FreePages(t)
  {
    var r := Protected(t, lo, hi, protect);
    RegionsHaveEntries(t);
    ProtectEntries(t, lo, hi, protect);
    RegionsMean(t);
    forall p: nat | p < |r| ensures PageOk(r, p) {
      assert PageOk(t, p);
    }
    RegionsFrom(r);
  }
}
