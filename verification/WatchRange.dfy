/** Which host pages a triggered watch unprotects and unwatches. */
module WatchRange {
  import opened Bits
  import opened Arithmetic
  import opened Geometry

  /** The range a callback says may be unwatched: physical start address and length. */
  datatype Answer = Answer(start: uint32, length: uint32)

  /** The last address of an answer; a length of zero counts as one. */
  function AnswerEnd(a: Answer): uint32 {
    SatAdd(a.start, Max(a.length, 1) - 1)
  }

  /** `2^22` bytes, 4 MB, is the most that is unwatched in excess; the lemmas hold for any such limit. */
  const MAX_EXCESS_SHIFT: nat := 22

  /** A view of physical memory: heap geometry and the physical address of the heap's first byte. */
  datatype Window = Window(g: Geometry, physical: uint32) {
    /** The host window and the physical addresses agree about where host pages begin. */
    predicate Valid() {
      && g.Valid() && g.hostOffset <= physical <= 0x1000 && Low(physical - g.hostOffset, g.sysShift) == 0
      && physical + g.Size() <= 0x2000_0000
    }

    /** First physical address of host page `i` inside the heap. */
    function PageStart(i: nat): nat {
      Max(Shl(i, g.sysShift) - g.hostOffset, 0) + physical
    }

    /** Last physical address of host page `i` inside the heap. */
    function PageEnd(i: nat): int {
      Min(Shl(i + 1, g.sysShift) - g.hostOffset, g.Size()) + physical - 1
    }

    /** What the callbacks are told about pages `[first, last]`. */
    function NoticeStart(first: nat): nat {
      Max(Shl(first, g.sysShift) - g.hostOffset, 0) + physical
    }

    function NoticeLength(first: nat, last: nat): int {
      Min(Max(Shl(last, g.sysShift) + Pow2(g.sysShift) - g.hostOffset, 0) + physical - NoticeStart(first),
          g.Size() - (NoticeStart(first) - physical))
    }

    function NoticeEnd(first: nat, last: nat): int {
      NoticeStart(first) + NoticeLength(first, last) - 1
    }
  }

  /** The intersection of the answers, as first and last address. */
  function Common(answers: seq<Answer>): (uint32, uint32) {
    if |answers| == 0 then (0, U32 - 1)
    else
      var (lo, hi) := Common(answers[..|answers| - 1]);
      var a := answers[|answers| - 1];
      (Max(lo, a.start), Min(hi, AnswerEnd(a)))
  }

  /** The address the first unwatched page holds: the excess is limited to a hull of `2^k` bytes. */
  function FirstAddress(noticeStart: uint32, common: uint32, k: nat): nat
    requires k < 32
  {
    Max(Min(common, noticeStart), MaskDown(noticeStart, k))
  }

  function LastAddress(noticeEnd: uint32, common: uint32, k: nat): nat {
    Min(Max(common, noticeEnd), MaskUp(noticeEnd, k))
  }

  /** The host page of a physical address, clamped to the heap. */
  function ClampedPage(w: Window, address: nat): nat {
    Shr(Max(Min(Max(address - w.physical, 0), w.g.Size() - 1), 0) + w.g.hostOffset, w.g.sysShift)
  }

  /** The first and the last host page to unwatch. */
  function UnwatchFirst(w: Window, noticeStart: uint32, common: uint32, k: nat): nat
    requires k < 32
  {
    ClampedPage(w, FirstAddress(noticeStart, common, k))
  }

  function UnwatchLast(w: Window, noticeEnd: uint32, common: uint32, k: nat): nat {
    ClampedPage(w, LastAddress(noticeEnd, common, k))
  }

  // ----- host pages of a window

  lemma {:induction false} PageBounds(w: Window, i: nat)
    requires w.Valid() && Shr(w.g.hostOffset, w.g.sysShift) <= i < w.g.HostPages()
    ensures w.physical <= w.PageStart(i) <= w.PageEnd(i) < w.physical + w.g.Size()
  {
    var g := w.g;
    ShiftGalois(i + 1, g.hostOffset, g.sysShift);
    ShiftGalois(i, g.Size() + g.hostOffset + Pow2(g.sysShift) - 1, g.sysShift);
    ShlMono(i, i + 1, g.sysShift);
    g.LastPageStarts(i);
    g.SizePositive();
  }

  /** The notice covers exactly the requested pages' bytes. */
  lemma {:induction false} NoticeIsPages(w: Window, first: nat, last: nat)
    requires w.Valid() && Shr(w.g.hostOffset, w.g.sysShift) <= first <= last < w.g.HostPages()
    ensures w.NoticeStart(first) == w.PageStart(first) && w.NoticeEnd(first, last) == w.PageEnd(last)
    ensures w.physical <= w.NoticeStart(first) <= w.NoticeEnd(first, last) < w.physical + w.g.Size()
    ensures w.NoticeEnd(first, last) < U32
  {
    var s := w.g.sysShift;
    PageBounds(w, first);
    PageBounds(w, last);
    ShlAdd(last, 1, s);
    ShlPow2(s, 0);
    ShlMono(first, last, s);
    ShlMono(last, last + 1, s);
    ShiftGalois(last + 1, w.g.hostOffset, s);
  }

  /** From the page of an address on, every page starts at or after any page boundary at or before that address. */
  lemma {:induction false} StartsAfter(w: Window, x: nat, b: nat, i: nat)
    requires w.Valid() && Low(x, w.g.sysShift) == 0 && x <= b < w.physical + w.g.Size() && ClampedPage(w, b) <= i
    ensures x <= w.PageStart(i)
  {
    var s := w.g.sysShift;
    if x > w.physical {
      var gap := w.physical - w.g.hostOffset;
      ShiftDifference(x, gap, s);
      ShrMono(x - gap, b - gap, s);
      ShiftAligned(x - gap, s);
      ShlMono(Shr(x - gap, s), i, s);
    }
  }

  /** Up to the page of an address, every page ends at or before any last byte of a page at or after that address. */
  lemma {:induction false} EndsBefore(w: Window, e: nat, d: nat, i: nat)
    requires w.Valid() && Low(e + 1, w.g.sysShift) == 0 && w.physical <= d <= e && i <= ClampedPage(w, d)
    ensures w.PageEnd(i) <= e
  {
    var gap := w.physical - w.g.hostOffset;
    w.g.SizePositive();
    ShiftDifference(e + 1, gap, w.g.sysShift);
    UnitEndsBefore(i, Min(d - w.physical, w.g.Size() - 1) + w.g.hostOffset, e - gap, w.g.sysShift);
  }

  /** A unit that starts at or before `y` ends at or before `e`, the last byte of a unit at or after `y`. */
  lemma {:induction false} UnitEndsBefore(i: nat, y: nat, e: nat, k: nat)
    requires y <= e && Low(e + 1, k) == 0 && i <= Shr(y, k)
    ensures Shl(i + 1, k) <= e + 1
  {
    ShiftAligned(e + 1, k);
    ShiftBelow(e + 1, k);
    ShrMono(y, e, k);
    ShlMono(i + 1, Shr(e + 1, k), k);
  }

  /** The hull of blocks of `2^k` bytes around an address ends at page boundaries. */
  lemma {:induction false} HullAligned(x: uint32, s: nat, k: nat)
    requires s <= k < 32
    ensures MaskDown(x, k) <= x <= MaskUp(x, k) < U32
    ensures Low(MaskDown(x, k), s) == 0 && Low(MaskUp(x, k) + 1, s) == 0
  {
    MaskIsFloor(x, k);
    ShiftSplit(x, k);
    ShlAligned(Shr(x, k), k);
    ShlAdd(Shr(x, k), 1, k);
    ShlPow2(k, 0);
    ShlAligned(Shr(x, k) + 1, k);
    LowCoarser(Shl(Shr(x, k), k), s, k);
    LowCoarser(Shl(Shr(x, k) + 1, k), s, k);
    WordAligned(k);
    ShiftAligned(U32, k);
    ShlMono(Shr(U32, k), Shr(x, k), k);
    ShlMono(Shr(x, k) + 1, Shr(U32, k), k);
  }

  lemma {:induction false} ClampedMono(w: Window, x: nat, y: nat)
    requires x <= y
    ensures ClampedPage(w, x) <= ClampedPage(w, y)
  {
    ShrMono(Max(Min(Max(x - w.physical, 0), w.g.Size() - 1), 0) + w.g.hostOffset,
            Max(Min(Max(y - w.physical, 0), w.g.Size() - 1), 0) + w.g.hostOffset, w.g.sysShift);
  }

  /** The pages of the first and last byte of a stretch of host pages are its first and last page. */
  lemma {:induction false} PageOfBounds(w: Window, first: nat, last: nat)
    requires w.Valid() && Shr(w.g.hostOffset, w.g.sysShift) <= first <= last < w.g.HostPages()
    requires 0 <= w.PageEnd(last)
    ensures ClampedPage(w, w.PageStart(first)) <= first && last <= ClampedPage(w, w.PageEnd(last)) < w.g.HostPages()
  {
    StartsOn(w, first);
    EndsOn(w, last);
    ClampedInside(w, w.PageEnd(last));
  }

  lemma {:induction false} StartsOn(w: Window, first: nat)
    requires w.Valid() && Shr(w.g.hostOffset, w.g.sysShift) <= first < w.g.HostPages()
    ensures ClampedPage(w, w.PageStart(first)) <= first
  {
    w.g.SizePositive();
    w.g.LastPageStarts(first);
    UnitStarts(first, w.g.hostOffset, w.g.sysShift);
  }

  /** The unit of the later one of a unit's start and an address before its end is not after the unit. */
  lemma {:induction false} UnitStarts(i: nat, offset: nat, k: nat)
    requires Shr(offset, k) <= i
    ensures Shr(Max(Shl(i, k) - offset, 0) + offset, k) <= i
  {
    ShlAligned(i, k);
  }

  lemma {:induction false} EndsOn(w: Window, last: nat)
    requires w.Valid() && Shr(w.g.hostOffset, w.g.sysShift) <= last < w.g.HostPages() && 0 <= w.PageEnd(last)
    ensures last <= ClampedPage(w, w.PageEnd(last))
  {
    PageBounds(w, last);
    w.g.LastPageStarts(last);
    UnitEnds(last, w.g.hostOffset, w.g.Size(), w.g.sysShift);
  }

  /** The last byte of a unit, or of the heap if that is before, lies in the unit. */
  lemma {:induction false} UnitEnds(i: nat, offset: nat, size: nat, k: nat)
    requires Shl(i, k) < size + offset && 0 < Min(Shl(i + 1, k) - offset, size)
    ensures i <= Shr(Min(Shl(i + 1, k) - offset, size) - 1 + offset, k)
  {
    ShlMono(i, i + 1, k);
    ShiftGalois(i, Min(Shl(i + 1, k) - offset, size) - 1 + offset, k);
  }

  lemma {:induction false} ClampedInside(w: Window, x: nat)
    requires w.Valid()
    ensures ClampedPage(w, x) < w.g.HostPages()
  {
    w.g.SizePositive();
    ShrMono(Max(Min(Max(x - w.physical, 0), w.g.Size() - 1), 0) + w.g.hostOffset, w.g.Size() + w.g.hostOffset - 1,
            w.g.sysShift);
    w.g.HostPagesCover();
  }

  /** The range that is unwatched contains the request and stays in the hull, whatever the callbacks answer. */
  lemma {:induction false} UnwatchContainsRequest(w: Window, first: nat, last: nat, answers: seq<Answer>, k: nat)
    requires w.Valid() && w.g.sysShift <= k < 32
    requires Shr(w.g.hostOffset, w.g.sysShift) <= first <= last < w.g.HostPages()
    ensures w.physical <= w.NoticeStart(first) <= w.NoticeEnd(first, last) < U32
    ensures UnwatchFirst(w, w.NoticeStart(first), Common(answers).0, k) <= first
    ensures last <= UnwatchLast(w, w.NoticeEnd(first, last), Common(answers).1, k) < w.g.HostPages()
  {
    NoticeIsPages(w, first, last);
    var ns, ne := w.NoticeStart(first), w.NoticeEnd(first, last);
    HullAligned(ns, w.g.sysShift, k);
    HullAligned(ne, w.g.sysShift, k);
    PageOfBounds(w, first, last);
    ClampedMono(w, FirstAddress(ns, Common(answers).0, k), ns);
    ClampedMono(w, ne, LastAddress(ne, Common(answers).1, k));
    ClampedInside(w, LastAddress(ne, Common(answers).1, k));
  }

  lemma {:induction false} UnwatchInHull(w: Window, first: nat, last: nat, answers: seq<Answer>, k: nat, i: nat)
    requires w.Valid() && w.g.sysShift <= k < 32
    requires Shr(w.g.hostOffset, w.g.sysShift) <= first <= last < w.g.HostPages()
    requires w.physical <= w.NoticeStart(first) <= w.NoticeEnd(first, last) < U32
    requires UnwatchFirst(w, w.NoticeStart(first), Common(answers).0, k) <= i
             <= UnwatchLast(w, w.NoticeEnd(first, last), Common(answers).1, k)
    ensures MaskDown(w.NoticeStart(first), k) <= w.PageStart(i)
    ensures w.PageEnd(i) <= MaskUp(w.NoticeEnd(first, last), k)
  {
    NoticeIsPages(w, first, last);
    var ns, ne := w.NoticeStart(first), w.NoticeEnd(first, last);
    HullAligned(ns, w.g.sysShift, k);
    HullAligned(ne, w.g.sysShift, k);
    StartsAfter(w, MaskDown(ns, k), FirstAddress(ns, Common(answers).0, k), i);
    EndsBefore(w, MaskUp(ne, k), LastAddress(ne, Common(answers).1, k), i);
  }

  // ----- what callbacks are asked to return

  /** An answer that surrounds the notice with whole host pages; it may reach the end of the address space. */
  predicate Surrounds(a: Answer, noticeStart: uint32, noticeEnd: uint32, sysShift: nat) {
    && a.start <= noticeStart && noticeEnd <= AnswerEnd(a)
    && Low(a.start, sysShift) == 0 && Low(AnswerEnd(a) + 1, sysShift) == 0
  }

  lemma {:induction false} CommonOf(answers: seq<Answer>, lo: uint32, hi: uint32)
    requires forall a :: a in answers ==> a.start <= lo && hi <= AnswerEnd(a)
    ensures Common(answers).0 <= lo && hi <= Common(answers).1
    ensures forall a :: a in answers ==> a.start <= Common(answers).0 && Common(answers).1 <= AnswerEnd(a)
  {
    if |answers| > 0 {
      CommonOf(answers[..|answers| - 1], lo, hi);
    }
  }

  /** Every page unwatched besides the requested ones lies in the range each callback returned. */
  lemma {:induction false} ExtraPagesAgreed(w: Window, first: nat, last: nat, answers: seq<Answer>, k: nat, a: Answer,
                                            i: nat)
    requires w.Valid() && w.g.sysShift <= k < 32
    requires Shr(w.g.hostOffset, w.g.sysShift) <= first <= last < w.g.HostPages()
    requires w.physical <= w.NoticeStart(first) <= w.NoticeEnd(first, last) < U32
    requires forall b :: b in answers ==>
               Surrounds(b, w.NoticeStart(first), w.NoticeEnd(first, last), w.g.sysShift)
    requires a in answers
    requires UnwatchFirst(w, w.NoticeStart(first), Common(answers).0, k) <= i
             <= UnwatchLast(w, w.NoticeEnd(first, last), Common(answers).1, k)
    ensures a.start <= w.PageStart(i) && w.PageEnd(i) <= AnswerEnd(a)
  {
    NoticeIsPages(w, first, last);
    var ns, ne := w.NoticeStart(first), w.NoticeEnd(first, last);
    CommonOf(answers, ns, ne);
    var lo, hi := Common(answers).0, Common(answers).1;
    AnswerBounds(ns, ne, lo, hi, a, w.g.sysShift, k);
    PageAgreed(w, a, FirstAddress(ns, lo, k), LastAddress(ne, hi, k), i);
  }

  lemma {:induction false} PageAgreed(w: Window, a: Answer, b: nat, d: nat, i: nat)
    requires w.Valid() && Low(a.start, w.g.sysShift) == 0 && Low(AnswerEnd(a) + 1, w.g.sysShift) == 0
    requires a.start <= b < w.physical + w.g.Size() && w.physical <= d <= AnswerEnd(a)
    requires ClampedPage(w, b) <= i <= ClampedPage(w, d)
    ensures a.start <= w.PageStart(i) && w.PageEnd(i) <= AnswerEnd(a)
  {
    StartsAfter(w, a.start, b, i);
    EndsBefore(w, AnswerEnd(a), d, i);
  }

  lemma {:induction false} AnswerBounds(ns: uint32, ne: uint32, lo: uint32, hi: uint32, a: Answer, s: nat, k: nat)
    requires s <= k < 32 && lo <= ns <= ne <= hi && a.start <= lo && hi <= AnswerEnd(a)
    ensures a.start <= FirstAddress(ns, lo, k) <= ns && ne <= LastAddress(ne, hi, k) <= AnswerEnd(a)
  {
    HullAligned(ns, s, k);
    HullAligned(ne, s, k);
  }
}
