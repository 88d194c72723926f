/** Looking for an aligned window of free pages through the index of free blocks. */
module FreeSearch {
  import opened Options
  import opened Bits
  import opened Arithmetic
  import opened FreeIndex

  /** `value % modulus`, by a mask when the modulus is a power of two. */
  function QuickMod(value: nat, modulus: nat): nat
    requires modulus > 0
  {
    if And(modulus, modulus - 1) == 0 then And(value, modulus - 1) else value % modulus
  }

  lemma {:induction false} AndSelf(x: nat)
    ensures And(x, x) == x
  {
    if x > 0 {
      AndSelf(x / 2);
    }
  }

  /** Only a power of two shares no digit with its predecessor. */
  lemma {:induction false} Pow2Test(m: nat) returns (k: nat)
    requires m > 0 && And(m, m - 1) == 0
    ensures m == Pow2(k)
  {
    if m == 1 {
      k := 0;
    } else {
      AndSelf(m / 2);
      assert (m - 1) / 2 == if m % 2 == 1 then m / 2 else m / 2 - 1;
      k := Pow2Test(m / 2);
      k := k + 1;
    }
  }

  lemma {:induction false} QuickModIsMod(value: nat, modulus: nat)
    requires modulus > 0
    ensures QuickMod(value, modulus) == value % modulus
  {
    if And(modulus, modulus - 1) == 0 {
      var k := Pow2Test(modulus);
      AndLowMask(value, k);
      ShiftIsDiv(value, k);
    }
  }

  /** An aligned window `[w, w + count)` of free pages inside `[low, high)`. */
  predicate Window(free: seq<bool>, w: nat, count: nat, stride: nat, low: nat, high: nat)
    requires stride > 0
  {
    low <= w && w + count <= high && w + count <= |free| && w % stride == 0 && FreeRange(free, w, w + count)
  }

  /** The bound a search treats as exclusive: top-down it is rounded down to the stride. */
  function HighBound(high: nat, stride: nat, topDown: bool): nat
    requires stride > 0
  {
    if topDown then FloorTo(high, stride) else high
  }

  /** The best window of the block `[block, end)` when searching downwards. */
  function LatestStart(block: nat, end: nat, low: nat, bound: nat, count: nat, stride: nat): Option<nat>
    requires stride > 0
  {
    if Min(end, bound) < count then None
    else
      var latest := FloorTo(Min(end, bound) - count, stride);
      if latest >= Max(block, low) && latest + count <= end then Some(latest) else None
  }

  /** The best window of the block `[block, end)` when searching upwards. */
  function EarliestStart(block: nat, end: nat, low: nat, high: nat, count: nat, stride: nat): Option<nat>
    requires stride > 0
  {
    var earliest := FloorTo(Max(block, low) + stride - 1, stride);
    if earliest + count <= end && earliest + count <= high then Some(earliest) else None
  }

  /** Rounding to the stride loses no aligned value. */
  lemma {:induction false} StrideBounds(w: nat, x: nat, stride: nat)
    requires stride > 0 && w % stride == 0
    ensures w <= x ==> w <= FloorTo(x, stride)
    ensures w >= x ==> w >= FloorTo(x + stride - 1, stride)
  {
    if FloorTo(x, stride) < w {
      MultiplesApart(FloorTo(x, stride), w, stride);
    }
    if w < FloorTo(x + stride - 1, stride) {
      MultiplesApart(w, FloorTo(x + stride - 1, stride), stride);
    }
  }

  /** An aligned start in a block of `size` pages whose window lies in the bounds. */
  predicate StartsIn(block: nat, size: nat, low: nat, bound: nat, count: nat, stride: nat, w: nat)
    requires stride > 0
  {
    Max(block, low) <= w && w + count <= Min(block + size, bound) && w % stride == 0
  }

  lemma {:induction false} LastStart(block: nat, size: nat, low: nat, bound: nat, count: nat, stride: nat, w: nat)
    requires stride > 0
    ensures var best := LatestStart(block, block + size, low, bound, count, stride);
            && (best.Some? ==> StartsIn(block, size, low, bound, count, stride, best.value))
            && (StartsIn(block, size, low, bound, count, stride, w) ==> best.Some? && w <= best.value)
  {
    if StartsIn(block, size, low, bound, count, stride, w) {
      StrideBounds(w, Min(block + size, bound) - count, stride);
    }
  }

  lemma {:induction false} FirstStart(block: nat, size: nat, low: nat, high: nat, count: nat, stride: nat, w: nat)
    requires stride > 0
    ensures var best := EarliestStart(block, block + size, low, high, count, stride);
            && (best.Some? ==> StartsIn(block, size, low, high, count, stride, best.value))
            && (StartsIn(block, size, low, high, count, stride, w) ==> best.Some? && w >= best.value)
  {
    CeilingUnique(Max(block, low), stride);
    if StartsIn(block, size, low, high, count, stride, w) {
      StrideBounds(w, Max(block, low), stride);
    }
  }

  lemma {:induction false} LatestIsBest(free: seq<bool>, block: nat, end: nat, low: nat, bound: nat, count: nat,
                                        stride: nat, w: nat)
    requires stride > 0 && block <= end <= |free| && FreeRange(free, block, end)
    ensures var best := LatestStart(block, end, low, bound, count, stride);
            && (best.Some? ==> Window(free, best.value, count, stride, low, bound) && block <= best.value)
            && (Window(free, w, count, stride, low, bound) && block <= w && w + count <= end ==>
                  best.Some? && w <= best.value)
  {
    LastStart(block, end - block, low, bound, count, stride, w);
  }

  lemma {:induction false} EarliestIsBest(free: seq<bool>, block: nat, end: nat, low: nat, high: nat, count: nat,
                                          stride: nat, w: nat)
    requires stride > 0 && block <= end <= |free| && FreeRange(free, block, end)
    ensures var best := EarliestStart(block, end, low, high, count, stride);
            && (best.Some? ==> Window(free, best.value, count, stride, low, high) && block <= best.value)
            && (Window(free, w, count, stride, low, high) && block <= w && w + count <= end ==>
                  best.Some? && w >= best.value)
  {
    FirstStart(block, end - block, low, high, count, stride, w);
  }

  /** The block reaches past `low` and holds the window. */
  predicate Reaches(m: map<nat, nat>, b: nat, w: nat, count: nat, low: nat) {
    InBlock(m, b, w, count) && low < b + m[b]
  }

  /** A window that a search can settle on: it lies in a block that reaches past `low`. Every window of at least one
      page does; one of no pages may lie between taken pages, or at the end of a block that ends at `low`. */
  ghost predicate Candidate(free: seq<bool>, m: map<nat, nat>, w: nat, count: nat, stride: nat, low: nat, bound: nat)
    requires stride > 0
  {
    Window(free, w, count, stride, low, bound) && exists b :: Reaches(m, b, w, count, low)
  }

  /** What a search of the index reports: the last candidate downwards, the first one upwards, or that there is none. */
  ghost predicate SearchResult(free: seq<bool>, m: map<nat, nat>, low: nat, high: nat, count: nat, stride: nat,
                               topDown: bool, found: Option<nat>)
    requires stride > 0
  {
    var bound := HighBound(high, stride, topDown);
    && (found.Some? ==> Candidate(free, m, found.value, count, stride, low, bound))
    && (forall w: nat :: Candidate(free, m, w, count, stride, low, bound)
          ==> found.Some? && (if topDown then w <= found.value else w >= found.value))
  }

  /** Pages are only searched in free blocks, yet no window of the page table is missed. */
  lemma {:induction false} WindowIsCandidate(free: seq<bool>, w: nat, count: nat, stride: nat, low: nat, bound: nat)
    requires stride > 0 && count > 0 && Window(free, w, count, stride, low, bound)
    ensures Candidate(free, Runs(free), w, count, stride, low, bound)
  {
    var b := RangeInBlock(free, w, count);
    assert Reaches(Runs(free), b, w, count, low);
  }

  /** The best window of a search is the best of all windows of the page table. */
  lemma {:induction false} BestWindow(free: seq<bool>, low: nat, high: nat, count: nat, stride: nat, topDown: bool,
                                      found: Option<nat>, w: nat)
    requires stride > 0 && count > 0 && SearchResult(free, Runs(free), low, high, count, stride, topDown, found)
    requires Window(free, w, count, stride, low, HighBound(high, stride, topDown))
    ensures found.Some? && (if topDown then w <= found.value else w >= found.value)
  {
    WindowIsCandidate(free, w, count, stride, low, HighBound(high, stride, topDown));
  }

  /** The page table and the bounds fix the answer of a search, also of one for no pages. */
  lemma {:induction false} SearchUnique(free: seq<bool>, m: map<nat, nat>, low: nat, high: nat, count: nat, stride: nat,
                                        topDown: bool, found: Option<nat>, found': Option<nat>)
    requires stride > 0
    requires SearchResult(free, m, low, high, count, stride, topDown, found)
    requires SearchResult(free, m, low, high, count, stride, topDown, found')
    ensures found == found'
  {
  }

  lemma {:induction false} PageByPage(high: nat, topDown: bool)
    ensures HighBound(high, 1, topDown) == high
  {
  }

  lemma {:induction false} FreePageIsCandidate(free: seq<bool>, w: nat, low: nat, high: nat)
    requires low <= w <= high && w < |free| && free[w]
    ensures Candidate(free, Runs(free), w, 0, 1, low, high)
  {
    var b := BlockOf(free, w);
    assert Reaches(Runs(free), b, w, 0, low);
  }

  /** Page by page, an upward search for no pages settles on `low` and a downward one on `high` if that page is free,
      and otherwise at the edge of a block. */
  lemma {:induction false} EmptySearch(free: seq<bool>, low: nat, high: nat, topDown: bool, found: Option<nat>)
    requires low <= high < |free| && SearchResult(free, Runs(free), low, high, 0, 1, topDown, found)
    ensures var edge := if topDown then high else low;
            && (free[edge] ==> found == Some(edge))
            && (found.Some? && Splits(free, found.value) <==> Splits(free, edge))
  {
    PageByPage(high, topDown);
    var edge := if topDown then high else low;
    if free[edge] {
      FreePageIsCandidate(free, edge, low, high);
    } else if found.Some? && Splits(free, found.value) {
      // One page nearer to the edge would have been a candidate as well.
      FreePageIsCandidate(free, found.value, low, high);
      if topDown {
        NextInBlock(free, found.value, low, high);
      } else {
        FreePageIsCandidate(free, found.value - 1, low, high);
      }
    }
  }

  lemma {:induction false} NextInBlock(free: seq<bool>, w: nat, low: nat, high: nat)
    requires low <= w < high && w < |free| && free[w]
    ensures Candidate(free, Runs(free), w + 1, 0, 1, low, high)
  {
    var b := BlockOf(free, w);
    assert Reaches(Runs(free), b, w + 1, 0, low);
  }

  /** Every candidate lies in a block in `[from, to)`. */
  ghost predicate WindowsIn(free: seq<bool>, m: map<nat, nat>, low: nat, bound: nat, count: nat, stride: nat, from: nat,
                            to: nat)
    requires stride > 0
  {
    forall b: nat, w: nat :: Reaches(m, b, w, count, low) && Window(free, w, count, stride, low, bound) ==>
      from <= b < to
  }

  lemma {:induction false} AllWindowsIn(free: seq<bool>, m: map<nat, nat>, low: nat, bound: nat, count: nat,
                                        stride: nat)
    requires stride > 0 && m == Runs(free)
    ensures WindowsIn(free, m, low, bound, count, stride, 0, bound + 1)
    ensures WindowsIn(free, m, low, bound, count, stride, 0, |free|)
  {
  }

  lemma {:induction false} NothingLeft(free: seq<bool>, m: map<nat, nat>, low: nat, high: nat, count: nat, stride: nat,
                                       topDown: bool, position: nat)
    requires m == Runs(free) && stride > 0
    requires WindowsIn(free, m, low, HighBound(high, stride, topDown), count, stride, position, position)
    ensures SearchResult(free, m, low, high, count, stride, topDown, None)
  {
    forall w: nat | Candidate(free, m, w, count, stride, low, HighBound(high, stride, topDown)) ensures false {
    }
  }

  // ----- downwards

  lemma {:induction false} SkipDown(free: seq<bool>, m: map<nat, nat>, low: nat, bound: nat, count: nat, stride: nat,
                                    position: nat, block: nat)
    requires m == Runs(free) && stride > 0
    requires WindowsIn(free, m, low, bound, count, stride, 0, position)
    requires position > 0 && FloorKey(m, position - 1) == Some(block)
    requires LatestStart(block, RunEnd(free, block), low, bound, count, stride).None?
    ensures WindowsIn(free, m, low, bound, count, stride, 0, block)
  {
    forall w: nat {
      LatestIsBest(free, block, RunEnd(free, block), low, bound, count, stride, w);
    }
  }

  /** A candidate lies in the block of the search or before it. */
  lemma {:induction false} InThisOrBefore(free: seq<bool>, m: map<nat, nat>, low: nat, bound: nat, count: nat,
                                          stride: nat, position: nat, block: nat, w: nat)
    returns (b: nat)
    requires m == Runs(free) && stride > 0
    requires WindowsIn(free, m, low, bound, count, stride, 0, position)
    requires position > 0 && FloorKey(m, position - 1) == Some(block)
    requires Candidate(free, m, w, count, stride, low, bound)
    ensures Reaches(m, b, w, count, low) && (b == block || w < block)
  {
    b :| Reaches(m, b, w, count, low);
    if b < block {
      BlocksApart(free, b, block);
    }
  }

  lemma {:induction false} FoundDown(free: seq<bool>, m: map<nat, nat>, low: nat, high: nat, count: nat, stride: nat,
                                     position: nat, block: nat, best: nat)
    requires m == Runs(free) && stride > 0
    requires WindowsIn(free, m, low, HighBound(high, stride, true), count, stride, 0, position)
    requires position > 0 && FloorKey(m, position - 1) == Some(block)
    requires LatestStart(block, RunEnd(free, block), low, HighBound(high, stride, true), count, stride) == Some(best)
    requires low < RunEnd(free, block)
    ensures SearchResult(free, m, low, high, count, stride, true, Some(best))
  {
    var bound := HighBound(high, stride, true);
    LatestIsBest(free, block, RunEnd(free, block), low, bound, count, stride, best);
    assert Reaches(m, block, best, count, low);
    forall w: nat | Candidate(free, m, w, count, stride, low, bound) ensures w <= best {
      var b := InThisOrBefore(free, m, low, bound, count, stride, position, block, w);
      LatestIsBest(free, block, RunEnd(free, block), low, bound, count, stride, w);
    }
  }

  /** Once a block ends at or below `low`, no block before it matters. */
  lemma {:induction false} StopDown(free: seq<bool>, m: map<nat, nat>, low: nat, bound: nat, count: nat, stride: nat,
                                    position: nat, block: nat)
    requires m == Runs(free) && stride > 0
    requires WindowsIn(free, m, low, bound, count, stride, 0, position)
    requires position > 0 && FloorKey(m, position - 1) == Some(block) && RunEnd(free, block) <= low
    ensures WindowsIn(free, m, low, bound, count, stride, 0, 0)
  {
    forall b: nat | b <= block && b in m ensures b + m[b] <= low {
      if b < block { BlocksApart(free, b, block); }
    }
  }

  /** The highest aligned start within one block. */
  method HighestInBlock(blockStart: nat, blockCount: nat, low: nat, high: nat, count: nat, stride: nat)
    returns (best: Option<nat>)
    requires stride > 0
    ensures best == LatestStart(blockStart, blockStart + blockCount, low, FloorTo(high, stride), count, stride)
    ensures best.Some? ==> StartsIn(blockStart, blockCount, low, FloorTo(high, stride), count, stride, best.value)
    ensures forall w: nat :: StartsIn(blockStart, blockCount, low, FloorTo(high, stride), count, stride, w)
                             ==> best.Some? && w <= best.value
  {
    forall w: nat {
      LastStart(blockStart, blockCount, low, FloorTo(high, stride), count, stride, w);
    }
    var blockEnd := blockStart + blockCount;
    if blockCount < count {
      return None;
    }
    QuickModIsMod(high, stride);
    var highAligned := high - QuickMod(high, stride);
    var usableEnd := Min(blockEnd, highAligned);
    if usableEnd < count {
      return None;
    }
    QuickModIsMod(usableEnd - count, stride);
    var latestStart := usableEnd - count - QuickMod(usableEnd - count, stride);
    var usableStart := Max(blockStart, low);
    if latestStart >= usableStart && latestStart + count <= blockEnd {
      return Some(latestStart);
    }
    return None;
  }

  /** The search from high addresses downward. */
  method FindTopDown(m: map<nat, nat>, ghost free: seq<bool>, low: nat, high: nat, count: nat, stride: nat)
    returns (found: Option<nat>)
    requires m == Runs(free) && stride > 0
    ensures SearchResult(free, m, low, high, count, stride, true, found)
  {
    ghost var bound := FloorTo(high, stride);
    AllWindowsIn(free, m, low, bound, count, stride);
    // All blocks that start before `position` are still to be visited.
    var position: nat := high + 1;
    while position > 0 && FloorKey(m, position - 1).Some?
      invariant WindowsIn(free, m, low, bound, count, stride, 0, position)
      decreases position
    {
      var blockStart := FloorKey(m, position - 1).value;
      var blockCount := m[blockStart];
      var blockEnd := blockStart + blockCount;
      if blockEnd <= low {
        StopDown(free, m, low, bound, count, stride, position, blockStart);
        position := 0;
        break;
      }
      var best := HighestInBlock(blockStart, blockCount, low, high, count, stride);
      if best.Some? {
        FoundDown(free, m, low, high, count, stride, position, blockStart, best.value);
        return best;
      }
      SkipDown(free, m, low, bound, count, stride, position, blockStart);
      position := blockStart;
    }
    NothingLeft(free, m, low, high, count, stride, true, 0);
    return None;
  }

  // ----- upwards

  lemma {:induction false} SkipUp(free: seq<bool>, m: map<nat, nat>, low: nat, high: nat, count: nat, stride: nat,
                                  position: nat, block: nat)
    requires m == Runs(free) && stride > 0
    requires WindowsIn(free, m, low, high, count, stride, position, |free|)
    requires CeilKey(m, position, |free|) == Some(block)
    requires EarliestStart(block, RunEnd(free, block), low, high, count, stride).None?
    ensures WindowsIn(free, m, low, high, count, stride, block + 1, |free|)
  {
    forall w: nat {
      EarliestIsBest(free, block, RunEnd(free, block), low, high, count, stride, w);
    }
  }

  lemma {:induction false} FoundUp(free: seq<bool>, m: map<nat, nat>, low: nat, high: nat, count: nat, stride: nat,
                                   position: nat, block: nat, best: nat)
    requires m == Runs(free) && stride > 0
    requires WindowsIn(free, m, low, high, count, stride, position, |free|)
    requires CeilKey(m, position, |free|) == Some(block)
    requires EarliestStart(block, RunEnd(free, block), low, high, count, stride) == Some(best)
    requires low < RunEnd(free, block)
    ensures SearchResult(free, m, low, high, count, stride, false, Some(best))
  {
    EarliestIsBest(free, block, RunEnd(free, block), low, high, count, stride, best);
    assert Reaches(m, block, best, count, low);
    forall w: nat | Candidate(free, m, w, count, stride, low, high) ensures w >= best {
      var b :| Reaches(m, b, w, count, low);
      if block < b { BlocksApart(free, block, b); }
      EarliestIsBest(free, block, RunEnd(free, block), low, high, count, stride, w);
    }
  }

  /** The search may start at the block before `low` if that one reaches past `low`, else at `low` itself. */
  lemma {:induction false} StartUp(free: seq<bool>, m: map<nat, nat>, low: nat, high: nat, count: nat, stride: nat)
    requires m == Runs(free) && stride > 0
    ensures var before := if low == 0 then None else FloorKey(m, low - 1);
            var position := if before.Some? && before.value + m[before.value] > low then before.value else low;
            && WindowsIn(free, m, low, high, count, stride, position, |free|)
            && forall b: nat :: b in m && b >= position ==> low < b + m[b]
  {
    AllWindowsIn(free, m, low, high, count, stride);
    var before := if low == 0 then None else FloorKey(m, low - 1);
    if before.Some? {
      var p := before.value;
      forall b: nat | b in m && b < p ensures b + m[b] < low {
        BlocksApart(free, b, p);
      }
    }
  }

  /** The lowest aligned start within one block. */
  method LowestInBlock(blockStart: nat, blockCount: nat, low: nat, high: nat, count: nat, stride: nat)
    returns (best: Option<nat>)
    requires stride > 0
    ensures best == EarliestStart(blockStart, blockStart + blockCount, low, high, count, stride)
    ensures best.Some? ==> StartsIn(blockStart, blockCount, low, high, count, stride, best.value)
    ensures forall w: nat :: StartsIn(blockStart, blockCount, low, high, count, stride, w)
                             ==> best.Some? && w >= best.value
  {
    forall w: nat {
      FirstStart(blockStart, blockCount, low, high, count, stride, w);
    }
    var blockEnd := blockStart + blockCount;
    CeilingUnique(Max(blockStart, low), stride);
    if blockCount < count {
      return None;
    }
    var earliest := Max(blockStart, low);
    var alignedStart := FloorTo(earliest + stride - 1, stride);
    if alignedStart + count <= blockEnd && alignedStart + count <= high {
      return Some(alignedStart);
    }
    return None;
  }

  /** Where the search from low addresses begins: the previous block counts if it extends into the range. */
  method StartPosition(m: map<nat, nat>, ghost free: seq<bool>, low: nat, ghost high: nat, ghost count: nat,
                       ghost stride: nat)
    returns (position: nat)
    requires m == Runs(free) && stride > 0
    ensures WindowsIn(free, m, low, high, count, stride, position, |free|)
    ensures forall b: nat :: b in m && b >= position ==> low < b + m[b]
  {
    StartUp(free, m, low, high, count, stride);
    if low > 0 {
      var previous := FloorKey(m, low - 1);
      if previous.Some? && previous.value + m[previous.value] > low {
        return previous.value;
      }
    }
    return low;
  }

  /** The search from low addresses upward. */
  method FindBottomUp(m: map<nat, nat>, ghost free: seq<bool>, limit: nat, low: nat, high: nat, count: nat, stride: nat)
    returns (found: Option<nat>)
    requires m == Runs(free) && stride > 0 && limit == |free|
    ensures SearchResult(free, m, low, high, count, stride, false, found)
  {
    // All blocks that start at or after `position` are still to be visited.
    var position := StartPosition(m, free, low, high, count, stride);
    while CeilKey(m, position, limit).Some?
      invariant WindowsIn(free, m, low, high, count, stride, position, limit)
      invariant forall b: nat :: b in m && b >= position ==> low < b + m[b]
      decreases limit - position
    {
      var blockStart := CeilKey(m, position, limit).value;
      var blockCount := m[blockStart];
      var blockEnd := blockStart + blockCount;
      if blockStart > high {
        break;
      }
      var best := LowestInBlock(blockStart, blockCount, low, high, count, stride);
      if best.Some? {
        FoundUp(free, m, low, high, count, stride, position, blockStart, best.value);
        return best;
      }
      SkipUp(free, m, low, high, count, stride, position, blockStart);
      position := blockStart + 1;
    }
    NothingLeft(free, m, low, high, count, stride, false, position);
    return None;
  }
}
