/** What the host lets a view do, page by page: the guest's access, lowered to read-only on watched pages. */
module WatchLaws {
  import opened Options
  import opened Bits
  import opened Arithmetic
  import opened FreeIndex
  import opened PageTable
  import opened Geometry
  import opened BaseHeaps

  /** The page table of a view, the accesses of its host pages, and which of them are watched. */
  datatype State = State(table: Table, host: seq<PageAccess>, watched: seq<bool>)

  /** Host pages are no larger than guest pages, so each lies in one of them. */
  predicate SmallPages(g: Geometry) {
    g.Valid() && g.sysShift <= g.pageShift
  }

  predicate Fits(g: Geometry, s: State) {
    SmallPages(g) && |s.table| == g.pages && |s.host| == g.HostPages() <= |s.watched|
  }

  /** Host page `i` backs part of the heap. */
  predicate InHeap(g: Geometry, i: nat) {
    Shr(g.hostOffset, g.sysShift) <= i < g.HostPages()
  }

  /** The guest page a host page belongs to. */
  function GuestPage(g: Geometry, i: nat): nat {
    Shr(Max(Shl(i, g.sysShift) - g.hostOffset, 0), g.pageShift)
  }

  /** First host page of a guest page, and how many host pages some guest pages have. */
  function HostFirst(g: Geometry, page: nat): nat {
    Shr(g.HostOffsetOf(page), g.sysShift)
  }

  function HostCount(g: Geometry, count: nat): nat {
    Shr(Shl(count, g.pageShift), g.sysShift)
  }

  function Lowered(access: PageAccess, watched: bool): PageAccess {
    if watched && access == ReadWrite then ReadOnly else access
  }

  function GuestAccess(g: Geometry, t: Table, i: nat): PageAccess
    requires GuestPage(g, i) < |t|
  {
    ToPageAccess(t[GuestPage(g, i)].currentProtect)
  }

  predicate ExactAt(g: Geometry, s: State, i: nat)
    requires i < |s.host| && i < |s.watched|
  {
    var p := GuestPage(g, i);
    p < |s.table|
    && (s.table[p].committed ==> s.host[i] == Lowered(GuestAccess(g, s.table, i), s.watched[i]))
    && (s.watched[i] ==> !IsFree(s.table[p]))
  }

  /** The host access of every committed page is the guest's, lowered exactly when watched; free pages are not
      watched. */
  ghost predicate Exact(g: Geometry, s: State) {
    Fits(g, s) && forall i: nat {:trigger InHeap(g, i)} :: InHeap(g, i) ==> ExactAt(g, s, i)
  }

  // ----- guest pages and host pages

  lemma {:induction false} GuestPageInside(g: Geometry, i: nat)
    requires g.Valid() && InHeap(g, i)
    ensures GuestPage(g, i) < g.pages
  {
    g.LastPageStarts(i);
    g.SizePositive();
    ShiftGalois(g.pages, Max(Shl(i, g.sysShift) - g.hostOffset, 0), g.pageShift);
  }

  /** A host page lies in guest page `p` or after exactly when it is at or after the first host page of `p`. */
  lemma {:induction false} GuestPageAtLeast(g: Geometry, i: nat, p: nat)
    requires SmallPages(g) && Shr(g.hostOffset, g.sysShift) <= i
    ensures p <= GuestPage(g, i) <==> HostFirst(g, p) <= i
  {
    var s := g.sysShift;
    g.SmallHostPages(p);
    LowCoarser(g.hostOffset, s, g.pageShift);
    ShiftAligned(g.hostOffset, s);
    ShlMono(Shr(g.hostOffset, s), i, s);
    ShiftGalois(p, Shl(i, s) - g.hostOffset, g.pageShift);
    ShiftAligned(g.HostOffsetOf(p), s);
    ShlMono(HostFirst(g, p), i, s);
    ShlMono(i, HostFirst(g, p), s);
  }

  lemma {:induction false} HostFirstAdd(g: Geometry, page: nat, count: nat)
    requires SmallPages(g)
    ensures HostFirst(g, page + count) == HostFirst(g, page) + HostCount(g, count)
    ensures Shr(g.hostOffset, g.sysShift) <= HostFirst(g, page)
  {
    g.SmallHostPages(page);
    g.SmallHostPages(count);
    ShlAdd(page, count, g.pageShift);
    ShiftSum(g.HostOffsetOf(page), Shl(count, g.pageShift), g.sysShift);
    ShrMono(g.hostOffset, g.HostOffsetOf(page), g.sysShift);
  }

  /** The host pages of a range of guest pages. */
  lemma {:induction false} GuestRange(g: Geometry, i: nat, page: nat, count: nat)
    requires SmallPages(g) && InHeap(g, i)
    ensures page <= GuestPage(g, i) < page + count
            <==> HostFirst(g, page) <= i < HostFirst(g, page) + HostCount(g, count)
  {
    GuestPageAtLeast(g, i, page);
    GuestPageAtLeast(g, i, page + count);
    HostFirstAdd(g, page, count);
  }

  // ----- steps

  /** A watched page that the guest may write to. */
  predicate Armed(g: Geometry, t: Table, w: seq<bool>, i: nat)
    requires i < |w|
  {
    w[i] && GuestPage(g, i) < |t| && GuestAccess(g, t, i) == ReadWrite
  }

  /** A page that may be watched: the guest may write to it and it is not watched yet. */
  predicate Watchable(g: Geometry, t: Table, w: seq<bool>, i: nat)
    requires i < |w|
  {
    GuestPage(g, i) < |t| && GuestAccess(g, t, i) == ReadWrite && !w[i]
  }

  /** The armed pages in `[lo, hi)` are opened for writing. */
  function Opened(g: Geometry, t: Table, h: seq<PageAccess>, w: seq<bool>, lo: nat, hi: nat): (r: seq<PageAccess>)
    requires |h| <= |w|
    ensures |r| == |h|
    ensures forall i :: 0 <= i < |h| ==> r[i] == if lo <= i < hi && Armed(g, t, w, i) then ReadWrite else h[i]
  {
    seq(|h|, i requires 0 <= i < |h| => if lo <= i < hi && Armed(g, t, w, i) then ReadWrite else h[i])
  }

  /** The watchable pages in `[lo, hi)` are closed for writing. */
  function Closed(g: Geometry, t: Table, h: seq<PageAccess>, w: seq<bool>, lo: nat, hi: nat): (r: seq<PageAccess>)
    requires |h| <= |w|
    ensures |r| == |h|
    ensures forall i :: 0 <= i < |h| ==> r[i] == if lo <= i < hi && Watchable(g, t, w, i) then ReadOnly else h[i]
  {
    seq(|h|, i requires 0 <= i < |h| => if lo <= i < hi && Watchable(g, t, w, i) then ReadOnly else h[i])
  }

  /** The watchable pages in `[lo, hi)` are watched. */
  function WatchedIn(g: Geometry, t: Table, w: seq<bool>, lo: nat, hi: nat): (r: seq<bool>)
    ensures |r| == |w|
    ensures forall i :: 0 <= i < |w| ==> r[i] == (w[i] || (lo <= i < hi && Watchable(g, t, w, i)))
  {
    seq(|w|, i requires 0 <= i < |w| => w[i] || (lo <= i < hi && Watchable(g, t, w, i)))
  }

  /** The watches on pages `[first, last]` fire: writable pages are unprotected and all become unwatched. */
  function Triggered(g: Geometry, s: State, first: nat, last: nat): State
    requires first <= last && |s.watched| >= |s.host|
  {
    State(s.table, Opened(g, s.table, s.host, s.watched, first, last + 1),
          Fill(s.watched, first, last + 1 - first, false))
  }

  /** Watches on pages `[first, last]` are dropped without touching the host. */
  function Unwatched(s: State, first: nat, last: nat): State
    requires first <= last
  {
    s.(watched := Fill(s.watched, first, last + 1 - first, false))
  }

  /** Pages `[first, last]` are watched if the guest may write to them. */
  function WatchEnabled(g: Geometry, s: State, first: nat, last: nat): State
    requires |s.watched| >= |s.host|
  {
    State(s.table, Closed(g, s.table, s.host, s.watched, first, last + 1),
          WatchedIn(g, s.table, s.watched, first, last + 1))
  }

  /** Free pages are reserved, and committed on the host when asked. */
  function Allocated(g: Geometry, s: State, page: nat, count: nat, commit: bool, protect: Protection): State {
    State(Pinned(s.table, page, count, true, commit, protect),
          if commit then Overwrite(s.host, HostFirst(g, page), HostCount(g, count), ToPageAccess(protect)) else s.host,
          s.watched)
  }

  /** Guest pages get a new protection on both sides. */
  function Reprotected(g: Geometry, s: State, page: nat, count: nat, protect: Protection): State {
    State(Protected(s.table, page, page + count, protect),
          Overwrite(s.host, HostFirst(g, page), HostCount(g, count), ToPageAccess(protect)), s.watched)
  }

  // ----- one host call for a run of pages does what one call a page would

  lemma {:induction false} OpenRun(g: Geometry, t: Table, h: seq<PageAccess>, w: seq<bool>, lo: nat, start: nat,
                                   end: nat)
    requires |h| <= |w| && lo <= start <= end <= |h|
    requires forall i :: start <= i < end ==> Armed(g, t, w, i)
    ensures Overwrite(Opened(g, t, h, w, lo, start), start, end - start, ReadWrite) == Opened(g, t, h, w, lo, end)
  {
  }

  lemma {:induction false} OpenNothing(g: Geometry, t: Table, h: seq<PageAccess>, w: seq<bool>, lo: nat, i: nat)
    requires |h| <= |w| && i < |h| && !Armed(g, t, w, i)
    ensures Opened(g, t, h, w, lo, i + 1) == Opened(g, t, h, w, lo, i)
  {
  }

  /** After `i` pages, all armed ones are open except those of the pending run. */
  ghost predicate OpenedSoFar(g: Geometry, t: Table, h: seq<PageAccess>, w: seq<bool>, now: seq<PageAccess>, lo: nat,
                              i: nat, run: Option<nat>)
  {
    && |h| <= |w| && lo <= i <= |h|
    && (run.Some? ==> lo <= run.value < i && forall j :: run.value <= j < i ==> Armed(g, t, w, j))
    && now == Opened(g, t, h, w, lo, if run.Some? then run.value else i)
  }

  lemma {:induction false} OpenStep(g: Geometry, t: Table, h: seq<PageAccess>, w: seq<bool>, now: seq<PageAccess>,
                                    lo: nat, i: nat, run: Option<nat>)
    requires OpenedSoFar(g, t, h, w, now, lo, i, run) && i < |h|
    ensures Armed(g, t, w, i) ==> OpenedSoFar(g, t, h, w, now, lo, i + 1, if run.None? then Some(i) else run)
    ensures !Armed(g, t, w, i) && run.None? ==> OpenedSoFar(g, t, h, w, now, lo, i + 1, None)
    ensures !Armed(g, t, w, i) && run.Some? ==>
              OpenedSoFar(g, t, h, w, Overwrite(now, run.value, i - run.value, ReadWrite), lo, i + 1, None)
  {
    if !Armed(g, t, w, i) {
      OpenNothing(g, t, h, w, lo, i);
      if run.Some? {
        OpenRun(g, t, h, w, lo, run.value, i);
      }
    }
  }

  lemma {:induction false} OpenEnd(g: Geometry, t: Table, h: seq<PageAccess>, w: seq<bool>, now: seq<PageAccess>,
                                   lo: nat, end: nat, run: Option<nat>)
    requires OpenedSoFar(g, t, h, w, now, lo, end, run)
    ensures (if run.Some? then Overwrite(now, run.value, end - run.value, ReadWrite) else now)
            == Opened(g, t, h, w, lo, end)
  {
    if run.Some? {
      OpenRun(g, t, h, w, lo, run.value, end);
    }
  }

  lemma {:induction false} CloseRun(g: Geometry, t: Table, h: seq<PageAccess>, w: seq<bool>, lo: nat, start: nat,
                                    end: nat)
    requires |h| <= |w| && lo <= start <= end <= |h|
    requires forall i :: start <= i < end ==> Watchable(g, t, w, i)
    ensures Overwrite(Closed(g, t, h, w, lo, start), start, end - start, ReadOnly) == Closed(g, t, h, w, lo, end)
  {
  }

  lemma {:induction false} CloseNothing(g: Geometry, t: Table, h: seq<PageAccess>, w: seq<bool>, lo: nat, i: nat)
    requires |h| <= |w| && i < |h| && !Watchable(g, t, w, i)
    ensures Closed(g, t, h, w, lo, i + 1) == Closed(g, t, h, w, lo, i)
  {
  }

  /** After `i` pages, all watchable ones are watched, and closed except those of the pending run. */
  ghost predicate ClosedSoFar(g: Geometry, s: State, now: State, lo: nat, i: nat, run: Option<nat>) {
    && |s.host| <= |s.watched| && lo <= i <= |s.host|
    && (run.Some? ==> lo <= run.value < i && forall j :: run.value <= j < i ==> Watchable(g, s.table, s.watched, j))
    && now == State(s.table, Closed(g, s.table, s.host, s.watched, lo, if run.Some? then run.value else i),
                    WatchedIn(g, s.table, s.watched, lo, i))
  }

  lemma {:induction false} CloseStep(g: Geometry, s: State, now: State, lo: nat, i: nat, run: Option<nat>)
    requires ClosedSoFar(g, s, now, lo, i, run) && i < |s.host|
    ensures i < |now.watched| && (Watchable(g, now.table, now.watched, i) <==> Watchable(g, s.table, s.watched, i))
    ensures Watchable(g, s.table, s.watched, i) ==>
              ClosedSoFar(g, s, now.(watched := now.watched[i := true]), lo, i + 1, if run.None? then Some(i) else run)
    ensures !Watchable(g, s.table, s.watched, i) && run.None? ==> ClosedSoFar(g, s, now, lo, i + 1, None)
    ensures !Watchable(g, s.table, s.watched, i) && run.Some? ==>
              ClosedSoFar(g, s, now.(host := Overwrite(now.host, run.value, i - run.value, ReadOnly)), lo, i + 1, None)
  {
    WatchOne(g, s.table, s.watched, lo, i);
    if !Watchable(g, s.table, s.watched, i) {
      CloseNothing(g, s.table, s.host, s.watched, lo, i);
      if run.Some? {
        CloseRun(g, s.table, s.host, s.watched, lo, run.value, i);
      }
    }
  }

  lemma {:induction false} CloseEnd(g: Geometry, s: State, now: State, lo: nat, end: nat, run: Option<nat>)
    requires ClosedSoFar(g, s, now, lo, end + 1, run) && lo <= end
    ensures (if run.Some? then now.(host := Overwrite(now.host, run.value, end + 1 - run.value, ReadOnly)) else now)
            == WatchEnabled(g, s, lo, end)
  {
    if run.Some? {
      CloseRun(g, s.table, s.host, s.watched, lo, run.value, end + 1);
    }
  }

  lemma {:induction false} WatchOne(g: Geometry, t: Table, w: seq<bool>, lo: nat, i: nat)
    requires lo <= i < |w|
    ensures WatchedIn(g, t, w, lo, i + 1) ==
              if Watchable(g, t, w, i) then WatchedIn(g, t, w, lo, i)[i := true] else WatchedIn(g, t, w, lo, i)
    ensures WatchedIn(g, t, w, lo, i)[i] == w[i]
  {
  }

  /** Firing watches where there are none changes nothing. */
  lemma {:induction false} NothingToTrigger(g: Geometry, s: State, first: nat, last: nat)
    requires first <= last < |s.watched| && |s.host| <= |s.watched|
    requires forall i :: first <= i <= last ==> !s.watched[i]
    ensures Triggered(g, s, first, last) == s && Unwatched(s, first, last) == s
  {
    assert Opened(g, s.table, s.host, s.watched, first, last + 1) == s.host;
    assert Fill(s.watched, first, last + 1 - first, false) == s.watched;
  }

  // ----- what each step keeps

  lemma {:induction false} TriggerKeepsExact(g: Geometry, s: State, first: nat, last: nat)
    requires Exact(g, s) && first <= last
    ensures Exact(g, Triggered(g, s, first, last))
  {
    var s' := Triggered(g, s, first, last);
    forall i: nat | InHeap(g, i) ensures ExactAt(g, s', i) {
      assert ExactAt(g, s, i);
    }
  }

  lemma {:induction false} EnableKeepsExact(g: Geometry, s: State, first: nat, last: nat)
    requires Exact(g, s) && Regions(s.table)
    ensures Exact(g, WatchEnabled(g, s, first, last))
  {
    var s' := WatchEnabled(g, s, first, last);
    RegionsMean(s.table);
    forall i: nat | InHeap(g, i) ensures ExactAt(g, s', i) {
      assert ExactAt(g, s, i);
      var p := GuestPage(g, i);
      assert IsFree(s.table[p]) ==> s.table[p] == FREE_ENTRY;
    }
  }

  /** Allocating free pages: they were not watched, and a commit gives them the guest's access. */
  lemma {:induction false} AllocateKeepsExact(g: Geometry, s: State, page: nat, count: nat, commit: bool,
                                              protect: Protection)
    requires Exact(g, s) && page + count <= |s.table| && !SomeTaken(s.table, page, page + count)
    ensures Exact(g, Allocated(g, s, page, count, commit, protect))
  {
    var s' := Allocated(g, s, page, count, commit, protect);
    forall i: nat | InHeap(g, i) ensures ExactAt(g, s', i) {
      assert ExactAt(g, s, i);
      GuestRange(g, i, page, count);
    }
  }

  /** A watch is left on one of the host pages of the guest pages `[page, page + count)`. */
  ghost predicate WatchLeft(g: Geometry, s: State, page: nat, count: nat) {
    exists i: nat :: InHeap(g, i) && HostFirst(g, page) <= i < HostFirst(g, page) + HostCount(g, count)
                     && i < |s.watched| && s.watched[i]
  }

  /** Freeing pages keeps host accesses exact exactly when none of them is watched any more. */
  lemma {:induction false} ClearKeepsExact(g: Geometry, s: State, page: nat, count: nat)
    requires Exact(g, s) && page + count <= |s.table|
    ensures Exact(g, s.(table := Cleared(s.table, page, count))) <==> !WatchLeft(g, s, page, count)
  {
    var s' := s.(table := Cleared(s.table, page, count));
    forall i: nat | InHeap(g, i)
      ensures ExactAt(g, s', i) <==>
                !(HostFirst(g, page) <= i < HostFirst(g, page) + HostCount(g, count) && s.watched[i])
    {
      assert ExactAt(g, s, i);
      GuestRange(g, i, page, count);
    }
    if WatchLeft(g, s, page, count) {
      var i: nat :| InHeap(g, i) && HostFirst(g, page) <= i < HostFirst(g, page) + HostCount(g, count)
                    && i < |s.watched| && s.watched[i];
      assert !ExactAt(g, s', i);
    }
  }

  /** Releasing pages fires at least their own watches first, so freed pages are not watched. */
  lemma {:induction false} ReleaseKeepsExact(g: Geometry, s: State, first: nat, last: nat, page: nat, count: nat)
    requires Exact(g, s) && page + count <= |s.table| && first <= last
    requires first <= HostFirst(g, page) && HostFirst(g, page) + HostCount(g, count) <= last + 1
    ensures var s' := Triggered(g, s, first, last);
            Exact(g, State(Cleared(s.table, page, count), s'.host, s'.watched))
  {
    TriggerKeepsExact(g, s, first, last);
    ClearKeepsExact(g, Triggered(g, s, first, last), page, count);
  }

  lemma {:induction false} DecommitKeepsExact(g: Geometry, s: State, lo: nat, hi: nat)
    requires Exact(g, s) && Regions(s.table)
    ensures Exact(g, State(Decommitted(s.table, lo, hi), s.host, s.watched))
  {
    var s' := State(Decommitted(s.table, lo, hi), s.host, s.watched);
    RegionsMean(s.table);
    forall i: nat | InHeap(g, i) ensures ExactAt(g, s', i) {
      assert ExactAt(g, s, i);
      var p := GuestPage(g, i);
      assert !IsFree(s.table[p]) ==> InRegion(s.table, p);
    }
  }

  /** A watch on a page the guest may write to is about to be dropped. */
  ghost predicate DropsArmedWatch(g: Geometry, s: State, first: nat, last: nat) {
    exists i: nat :: InHeap(g, i) && first <= i <= last && i < |s.watched| && s.watched[i]
                     && GuestPage(g, i) < |s.table| && s.table[GuestPage(g, i)].committed
                     && GuestAccess(g, s.table, i) == ReadWrite
  }

  /** Dropping watches without unprotecting keeps host accesses exact exactly when no armed watch is dropped. */
  lemma {:induction false} DropKeepsExact(g: Geometry, s: State, first: nat, last: nat)
    requires Exact(g, s) && first <= last
    ensures Exact(g, Unwatched(s, first, last)) <==> !DropsArmedWatch(g, s, first, last)
  {
    var s' := Unwatched(s, first, last);
    if DropsArmedWatch(g, s, first, last) {
      var i: nat :| InHeap(g, i) && first <= i <= last && i < |s.watched| && s.watched[i]
                    && GuestPage(g, i) < |s.table| && s.table[GuestPage(g, i)].committed
                    && GuestAccess(g, s.table, i) == ReadWrite;
      assert ExactAt(g, s, i) && !ExactAt(g, s', i);
    } else {
      forall i: nat | InHeap(g, i) ensures ExactAt(g, s', i) {
        assert ExactAt(g, s, i);
      }
    }
  }

  /** A successful `Protect`: watches on host pages `[first, last]` are dropped before the change if `drops`, and those
      pages all belong to the changed guest pages. Host accesses stay exact exactly when the new access is not
      writable or no watch is left on a changed page. */
  lemma {:induction false} ProtectKeepsExact(g: Geometry, s: State, drops: bool, first: nat, last: nat, page: nat,
                                             count: nat, protect: Protection)
    requires Exact(g, s) && Regions(s.table) && page + count <= |s.table| && first <= last
    requires forall p :: page <= p < page + count ==> s.table[p].committed
    requires HostFirst(g, page) <= first && last < HostFirst(g, page) + HostCount(g, count)
    ensures var s1 := if drops then Unwatched(s, first, last) else s;
            Exact(g, Reprotected(g, s1, page, count, protect))
            <==> (ToPageAccess(protect) == ReadWrite ==> !WatchLeft(g, s1, page, count))
  {
    var s1 := if drops then Unwatched(s, first, last) else s;
    var s' := Reprotected(g, s1, page, count, protect);
    forall i: nat | InHeap(g, i)
      ensures ExactAt(g, s', i) <==>
                !(ToPageAccess(protect) == ReadWrite && s1.watched[i]
                  && HostFirst(g, page) <= i < HostFirst(g, page) + HostCount(g, count))
    {
      ProtectAt(g, s, drops, first, last, page, count, protect, i);
    }
    if ToPageAccess(protect) == ReadWrite && WatchLeft(g, s1, page, count) {
      var i: nat :| InHeap(g, i) && HostFirst(g, page) <= i < HostFirst(g, page) + HostCount(g, count)
                    && i < |s1.watched| && s1.watched[i];
      assert !ExactAt(g, s', i);
    }
  }

  lemma {:induction false} ProtectAt(g: Geometry, s: State, drops: bool, first: nat, last: nat, page: nat, count: nat,
                                     protect: Protection, i: nat)
    requires Exact(g, s) && page + count <= |s.table| && InHeap(g, i) && first <= last
    requires forall p :: page <= p < page + count ==> s.table[p].committed
    requires HostFirst(g, page) <= first && last < HostFirst(g, page) + HostCount(g, count)
    ensures var s1 := if drops then Unwatched(s, first, last) else s;
            ExactAt(g, Reprotected(g, s1, page, count, protect), i) <==>
              !(ToPageAccess(protect) == ReadWrite && s1.watched[i]
                && HostFirst(g, page) <= i < HostFirst(g, page) + HostCount(g, count))
  {
    assert ExactAt(g, s, i);
    GuestRange(g, i, page, count);
  }

  /** Dropping the watches of whole guest pages leaves none on them. */
  lemma {:induction false} DropsAll(g: Geometry, s: State, page: nat, count: nat)
    requires HostCount(g, count) > 0
    ensures !WatchLeft(g, Unwatched(s, HostFirst(g, page), HostFirst(g, page) + HostCount(g, count) - 1), page, count)
  {
  }

  /** No write to a watched page of committed memory goes untrapped. */
  lemma {:induction false} WatchedWritesTrap(g: Geometry, s: State, i: nat)
    requires Exact(g, s) && InHeap(g, i)
    ensures GuestPage(g, i) < |s.table|
    ensures s.watched[i] && s.table[GuestPage(g, i)].committed ==> s.host[i] != ReadWrite
  {
    assert ExactAt(g, s, i);
  }

  /** After the watches around a faulting page fired, a write the guest may make there succeeds. */
  lemma {:induction false} RetriedWriteSucceeds(g: Geometry, s: State, first: nat, last: nat, i: nat)
    requires Exact(g, s) && InHeap(g, i) && first <= i <= last
    requires GuestPage(g, i) < |s.table| && s.table[GuestPage(g, i)].committed
    requires GuestAccess(g, s.table, i) == ReadWrite
    ensures Triggered(g, s, first, last).host[i] == ReadWrite
  {
    assert ExactAt(g, s, i);
  }
}
