/** The auxiliary index of free blocks: the maximal runs of free pages, keyed by start page.
    `free[p]` says that page `p` is unreserved. */
module FreeIndex {
  import opened Options

  predicate FreeRange(free: seq<bool>, lo: nat, hi: nat)
    requires hi <= |free|
  {
    forall p :: lo <= p < hi ==> free[p]
  }

  /** The same pages with `count` of them from `start` on set to `value`. */
  function Fill(free: seq<bool>, start: nat, count: nat, value: bool): (r: seq<bool>)
    ensures |r| == |free|
    ensures forall p :: 0 <= p < |free| ==> r[p] == if start <= p < start + count then value else free[p]
  {
    seq(|free|, p requires 0 <= p < |free| => if start <= p < start + count then value else free[p])
  }

  /** The page `s` starts a maximal run of free pages. */
  predicate RunStart(free: seq<bool>, s: nat) {
    s < |free| && free[s] && (s == 0 || !free[s - 1])
  }

  /** The first page at or after `s` that is not free. */
  function RunEnd(free: seq<bool>, s: nat): (e: nat)
    requires s <= |free|
    ensures s <= e <= |free| && FreeRange(free, s, e) && (e == |free| || !free[e])
    decreases |free| - s
  {
    if s < |free| && free[s] then RunEnd(free, s + 1) else s
  }

  /** The decomposition of the free pages into maximal runs. */
  function Runs(free: seq<bool>): map<nat, nat> {
    map s: nat | 0 <= s < |free| && RunStart(free, s) :: RunEnd(free, s) - s
  }

  ghost predicate Covered(m: map<nat, nat>, p: nat) {
    exists s :: s in m && s <= p < s + m[s]
  }

  /** What an index of free blocks promises, block by block and page by page. */
  ghost predicate IsIndex(free: seq<bool>, m: map<nat, nat>) {
    && (forall s :: s in m ==> m[s] > 0 && s + m[s] <= |free| && FreeRange(free, s, s + m[s])
                               && (s == 0 || !free[s - 1]) && (s + m[s] == |free| || !free[s + m[s]]))
    && (forall p {:trigger Covered(m, p)} :: 0 <= p < |free| && free[p] ==> Covered(m, p))
  }

  lemma {:induction false} RunEndIs(free: seq<bool>, s: nat, e: nat)
    requires s <= e <= |free| && FreeRange(free, s, e) && (e == |free| || !free[e])
    ensures RunEnd(free, s) == e
  {
    var r := RunEnd(free, s);
    assert r < |free| ==> !free[r];
    assert e < |free| ==> !free[e];
  }

  /** The start of the run that holds the free page `p`. */
  lemma {:induction false} BlockOf(free: seq<bool>, p: nat) returns (s: nat)
    requires p < |free| && free[p]
    ensures s <= p < RunEnd(free, s) && RunStart(free, s) && s in Runs(free)
  {
    if p == 0 || !free[p - 1] {
      s := p;
    } else {
      s := BlockOf(free, p - 1);
      assert RunEnd(free, s) < |free| ==> !free[RunEnd(free, s)];
    }
  }

  lemma {:induction false} RunsIsIndex(free: seq<bool>)
    ensures IsIndex(free, Runs(free))
  {
    var m := Runs(free);
    forall p: nat | p < |free| && free[p] ensures Covered(m, p) {
      var s := BlockOf(free, p);
    }
    forall s | s in m ensures RunEnd(free, s) > s {
      assert free[s];
    }
  }

  lemma {:induction false} IndexKey(free: seq<bool>, m: map<nat, nat>, s: nat)
    requires IsIndex(free, m)
    ensures s in m ==> RunStart(free, s) && m[s] == RunEnd(free, s) - s
    ensures RunStart(free, s) ==> s in m
  {
    if s in m {
      assert free[s];
      RunEndIs(free, s, s + m[s]);
    }
    if RunStart(free, s) {
      assert Covered(m, s);
      var b :| b in m && b <= s < b + m[b];
      assert s == 0 || !free[s - 1];
    }
  }

  /** There is exactly one faithful index. */
  lemma {:induction false} IndexUnique(free: seq<bool>, m: map<nat, nat>)
    ensures IsIndex(free, m) <==> m == Runs(free)
  {
    RunsIsIndex(free);
    if IsIndex(free, m) {
      forall s: nat ensures s in m <==> s in Runs(free) {
        IndexKey(free, m, s);
      }
      forall s | s in m ensures m[s] == Runs(free)[s] {
        IndexKey(free, m, s);
      }
    }
  }

  /** A map that agrees with the run starts and run ends, key by key, is the index. */
  lemma {:induction false} RunsFromKeys(free: seq<bool>, m: map<nat, nat>)
    requires forall s: nat {:trigger s in m} :: s in m <==> RunStart(free, s)
    requires forall s :: s in m ==> s <= |free| && m[s] == RunEnd(free, s) - s
    ensures m == Runs(free)
  {
  }

  // ----- blocks

  /** `[w, w + count)` lies in the block `b` of the index; an empty range may lie at its end. */
  predicate InBlock(m: map<nat, nat>, b: nat, w: nat, count: nat) {
    b in m && b <= w && w + count <= b + m[b]
  }

  /** Two blocks are separated by a page that is not free. */
  lemma {:induction false} BlocksApart(free: seq<bool>, s: nat, t: nat)
    requires RunStart(free, s) && RunStart(free, t) && s < t
    ensures RunEnd(free, s) < t
  {
    assert !free[t - 1];
  }

  /** A free range lies inside one block. */
  lemma {:induction false} RangeInBlock(free: seq<bool>, start: nat, count: nat) returns (s: nat)
    requires count > 0 && start + count <= |free| && FreeRange(free, start, start + count)
    ensures InBlock(Runs(free), s, start, count)
  {
    s := BlockOf(free, start);
    assert RunEnd(free, s) < |free| ==> !free[RunEnd(free, s)];
  }

  // ----- ordered lookup

  /** The greatest key that is at most `k`. */
  function FloorKey(m: map<nat, nat>, k: nat): (r: Option<nat>)
    ensures r.Some? ==> r.value in m && r.value <= k && forall s :: s in m && s <= k ==> s <= r.value
    ensures r.None? ==> forall s :: s in m ==> s > k
  {
    if k in m then Some(k) else if k == 0 then None else FloorKey(m, k - 1)
  }

  /** The least key in `[k, limit)`. */
  function CeilKey(m: map<nat, nat>, k: nat, limit: nat): (r: Option<nat>)
    ensures r.Some? ==> r.value in m && k <= r.value < limit && forall s :: s in m && s >= k ==> s >= r.value
    ensures r.None? ==> forall s :: s in m ==> s < k || s >= limit
    decreases limit - k
  {
    if k >= limit then None else if k in m then Some(k) else CeilKey(m, k + 1, limit)
  }

  /** The last block that starts no later than a range is the one that holds it. */
  lemma {:induction false} FloorKeyOfBlock(free: seq<bool>, b: nat, start: nat, count: nat)
    requires InBlock(Runs(free), b, start, count)
    ensures FloorKey(Runs(free), start) == Some(b)
  {
    var f := FloorKey(Runs(free), start).value;
    if f != b {
      BlocksApart(free, b, f);
    }
  }

  lemma {:induction false} SameFloor(m: map<nat, nat>, m': map<nat, nat>, k: nat)
    requires forall s :: s in m && s <= k <==> s in m' && s <= k
    ensures FloorKey(m, k) == FloorKey(m', k)
  {
    if k !in m && k > 0 {
      SameFloor(m, m', k - 1);
    }
  }

  // ----- splitting and merging

  /** The index with `count` pages from `start` on cut out of the block at `block`. */
  function Carved(m: map<nat, nat>, block: nat, start: nat, count: nat): map<nat, nat>
    requires block in m
  {
    var end := block + m[block];
    var cut := m - {block};
    var before := if block < start then cut[block := start - block] else cut;
    if start + count < end then before[start + count := end - (start + count)] else before
  }

  /** The index with the block `[start, start + count)` added and merged with its neighbours. */
  function Merged(m: map<nat, nat>, start: nat, count: nat): map<nat, nat> {
    var total := if start + count in m then count + m[start + count] else count;
    var rest := m - {start + count};
    var prev := if start == 0 then None else FloorKey(rest, start - 1);
    if prev.Some? && prev.value + rest[prev.value] == start
    then (rest - {prev.value})[prev.value := total + rest[prev.value]]
    else rest[start := total]
  }

  /** The block `RemoveFreeBlock` works on: the last one at or before `start`, else the first one after it. */
  function BlockFor(m: map<nat, nat>, start: nat, limit: nat): Option<nat> {
    if FloorKey(m, start).Some? then FloorKey(m, start) else CeilKey(m, start + 1, limit)
  }

  /** Which runs there are once `[start, stop)` is cut out of the run that starts at `block`. */
  lemma {:induction false} RunStartAfterCut(free: seq<bool>, block: nat, start: nat, stop: nat, s: nat)
    requires RunStart(free, block) && block <= start < stop <= RunEnd(free, block)
    ensures RunStart(Fill(free, start, stop - start, false), s) <==>
              (RunStart(free, s) && s != block) || (s == block && block < start)
              || (s == stop && stop < RunEnd(free, block))
  {
    if s == stop && s < |free| {
      assert stop < RunEnd(free, block) ==> free[stop];
      assert RunEnd(free, block) < |free| ==> !free[RunEnd(free, block)];
    } else if RunStart(free, s) && s != block {
      if s < block { assert s < start; } else { BlocksApart(free, block, s); }
    }
  }

  lemma {:induction false} RunEndAfterCut(free: seq<bool>, block: nat, start: nat, stop: nat, s: nat)
    requires RunStart(free, block) && block <= start < stop <= RunEnd(free, block)
    requires RunStart(Fill(free, start, stop - start, false), s)
    ensures RunEnd(Fill(free, start, stop - start, false), s) ==
              if s == stop then RunEnd(free, block) else if s == block then start else RunEnd(free, s)
  {
    var free' := Fill(free, start, stop - start, false);
    RunStartAfterCut(free, block, start, stop, s);
    if s == stop {
      RunEndIs(free', s, RunEnd(free, block));
    } else if s == block {
      RunEndIs(free', s, start);
    } else {
      if s < block { BlocksApart(free, s, block); }
      RunEndIs(free', s, RunEnd(free, s));
    }
  }

  /** The carved index, key by key. */
  lemma {:induction false} CarvedShape(m: map<nat, nat>, block: nat, start: nat, count: nat)
    requires InBlock(m, block, start, count) && (count > 0 || block < start)
    requires forall k :: k in m ==> !(block < k <= block + m[block])
    ensures var cut, end := Carved(m, block, start, count), block + m[block];
            && (forall s {:trigger s in cut} :: s in cut <==>
                  (s in m && s != block) || (s == block && block < start)
                  || (s == start + count && start + count < end))
            && (start + count < end ==> cut[start + count] == end - (start + count))
            && (block < start ==> cut[block] == start - block)
            && (forall s :: s in cut && s != block && s != start + count ==> cut[s] == m[s])
  {
  }

  lemma {:induction false} NoneInside(free: seq<bool>, block: nat)
    requires block in Runs(free)
    ensures forall k :: k in Runs(free) ==> !(block < k <= block + Runs(free)[block]) && k + Runs(free)[k] != block
  {
    forall k | k in Runs(free) ensures !(block < k <= block + Runs(free)[block]) && k + Runs(free)[k] != block {
      if k < block { BlocksApart(free, k, block); }
      if block < k { BlocksApart(free, block, k); }
      assert free[k];
    }
  }

  lemma {:induction false} CutIsIndex(free: seq<bool>, block: nat, start: nat, stop: nat, cut: map<nat, nat>)
    requires RunStart(free, block) && block <= start < stop <= RunEnd(free, block)
    requires forall s: nat {:trigger s in cut} :: s in cut <==>
               (RunStart(free, s) && s != block) || (s == block && block < start)
               || (s == stop && stop < RunEnd(free, block))
    requires stop < RunEnd(free, block) ==> cut[stop] == RunEnd(free, block) - stop
    requires block < start ==> cut[block] == start - block
    requires forall s :: s in cut && s != block && s != stop ==> s <= |free| && cut[s] == RunEnd(free, s) - s
    ensures cut == Runs(Fill(free, start, stop - start, false))
  {
    var free' := Fill(free, start, stop - start, false);
    forall s: nat ensures s in cut <==> RunStart(free', s) {
      RunStartAfterCut(free, block, start, stop, s);
    }
    forall s | s in cut ensures cut[s] == RunEnd(free', s) - s {
      RunEndAfterCut(free, block, start, stop, s);
    }
    RunsFromKeys(free', cut);
  }

  /** Taking a free range away from the index is what `RemoveFreeBlock` does to it. */
  lemma {:induction false} RemoveKeepsIndex(free: seq<bool>, block: nat, start: nat, count: nat, limit: nat)
    requires count > 0 && InBlock(Runs(free), block, start, count)
    ensures BlockFor(Runs(free), start, limit) == Some(block)
    ensures Carved(Runs(free), block, start, count) == Runs(Fill(free, start, count, false))
  {
    FloorKeyOfBlock(free, block, start, count);
    NoneInside(free, block);
    CarvedShape(Runs(free), block, start, count);
    CutIsIndex(free, block, start, start + count, Carved(Runs(free), block, start, count));
  }

  /** The start of the block that absorbs a range freed from `start` on. */
  lemma {:induction false} BackTo(free: seq<bool>, start: nat) returns (first: nat)
    requires start < |free| && !free[start]
    ensures first <= start && FreeRange(free, first, start) && (first == 0 || !free[first - 1])
    ensures first < start ==> RunStart(free, first) && RunEnd(free, first) == start
  {
    first := start;
    if start > 0 && free[start - 1] {
      first := BlockOf(free, start - 1);
      RunEndIs(free, first, start);
    }
  }

  /** Which runs there are once the taken range `[start, start + count)` is freed. */
  lemma {:induction false} RunStartAfterFree(free: seq<bool>, start: nat, count: nat, first: nat, s: nat)
    requires count > 0 && start + count <= |free| && forall p :: start <= p < start + count ==> !free[p]
    requires first <= start && FreeRange(free, first, start) && (first == 0 || !free[first - 1])
    ensures RunStart(Fill(free, start, count, true), s) <==>
              s == first || (RunStart(free, s) && s != start + count)
  {
    if first < s <= start {
      assert free[s - 1] || s - 1 < first;
    }
  }

  lemma {:induction false} RunEndAfterFree(free: seq<bool>, start: nat, count: nat, first: nat, s: nat)
    requires count > 0 && start + count <= |free| && forall p :: start <= p < start + count ==> !free[p]
    requires first <= start && FreeRange(free, first, start) && (first == 0 || !free[first - 1])
    requires RunStart(Fill(free, start, count, true), s)
    ensures RunEnd(Fill(free, start, count, true), s) ==
              if s == first then RunEnd(free, start + count) else RunEnd(free, s)
  {
    var free' := Fill(free, start, count, true);
    RunStartAfterFree(free, start, count, first, s);
    if s == first {
      RunEndIs(free', s, RunEnd(free, start + count));
    } else {
      assert s < first ==> RunEnd(free, s) < first by {
        if s < first { assert !free[first - 1]; }
      }
      RunEndIs(free', s, RunEnd(free, s));
    }
  }

  /** The merged index, with the block it looks for before `start` named. */
  lemma {:induction false} MergedShape(m: map<nat, nat>, start: nat, count: nat, first: nat)
    requires first <= start && start !in m && count > 0
    requires if first < start then first in m && first + m[first] == start && FloorKey(m, start - 1) == Some(first)
             else forall k :: k in m ==> k + m[k] != start
    ensures forall s {:trigger s in Merged(m, start, count)} ::
              s in Merged(m, start, count) <==> s == first || (s in m && s != start + count)
    ensures Merged(m, start, count)[first] ==
              start + count + (if start + count in m then m[start + count] else 0) - first
    ensures forall s :: s in Merged(m, start, count) && s != first ==> Merged(m, start, count)[s] == m[s]
  {
    if first < start {
      SameFloor(m, m - {start + count}, start - 1);
    }
  }

  /** The block that ends where a taken range begins is the one that the code looks for. */
  lemma {:induction false} BlockBefore(free: seq<bool>, start: nat, first: nat)
    requires start < |free| && !free[start] && first <= start && FreeRange(free, first, start)
    requires first < start ==> RunStart(free, first) && RunEnd(free, first) == start
    requires first == 0 || !free[first - 1]
    ensures start !in Runs(free)
    ensures var m := Runs(free);
            if first < start then first in m && first + m[first] == start && FloorKey(m, start - 1) == Some(first)
            else forall k :: k in m ==> k + m[k] != start
  {
    var m := Runs(free);
    if first < start {
      FloorKeyOfBlock(free, first, start - 1, 0);
    } else {
      forall k | k in m ensures k + m[k] != start {
        assert free[k] && (start == 0 || !free[start - 1]);
      }
    }
  }

  /** The block after a taken range, if there is one, ends with the run there. */
  lemma {:induction false} BlockAfter(free: seq<bool>, e: nat)
    requires 0 < e <= |free| && !free[e - 1]
    ensures e + (if e in Runs(free) then Runs(free)[e] else 0) == RunEnd(free, e)
  {
    if e !in Runs(free) {
      RunEndIs(free, e, e);
    }
  }

  /** The index into which a taken range is merged has the runs of the pages but for the one after the range, and one
      from `first` to the end of that. */
  lemma {:induction false} MergedOfRuns(free: seq<bool>, start: nat, count: nat, first: nat)
    requires count > 0 && start + count <= |free| && forall p :: start <= p < start + count ==> !free[p]
    requires first <= start && FreeRange(free, first, start) && (first == 0 || !free[first - 1])
    requires first < start ==> RunStart(free, first) && RunEnd(free, first) == start
    ensures var m := Merged(Runs(free), start, count);
            && first in m && m[first] == RunEnd(free, start + count) - first
            && (forall s: nat {:trigger s in m} :: s in m <==> s == first || (RunStart(free, s) && s != start + count))
            && (forall s :: s in m && s != first ==> m[s] == RunEnd(free, s) - s)
  {
    BlockBefore(free, start, first);
    BlockAfter(free, start + count);
    MergedShape(Runs(free), start, count, first);
  }

  /** Giving a taken range back to the index is what `InsertFreeBlock` does to it. */
  lemma {:induction false} InsertKeepsIndex(free: seq<bool>, start: nat, count: nat)
    requires count > 0 && start + count <= |free| && forall p :: start <= p < start + count ==> !free[p]
    ensures Merged(Runs(free), start, count) == Runs(Fill(free, start, count, true))
  {
    var m', free' := Merged(Runs(free), start, count), Fill(free, start, count, true);
    var first := BackTo(free, start);
    MergedOfRuns(free, start, count, first);
    forall s: nat ensures s in m' <==> RunStart(free', s) {
      RunStartAfterFree(free, start, count, first, s);
    }
    forall s | s in m' ensures m'[s] == RunEnd(free', s) - s {
      RunEndAfterFree(free, start, count, first, s);
    }
    RunsFromKeys(free', m');
  }

  /** Inserting no pages at a taken page keeps the index faithful exactly if a block ends there. */
  lemma {:induction false} InsertNothing(free: seq<bool>, start: nat)
    requires start < |free| && !free[start]
    ensures Merged(Runs(free), start, 0) == Runs(free) <==> start > 0 && free[start - 1]
  {
    var m: map<nat, nat> := Runs(free);
    var first := BackTo(free, start);
    BlockBefore(free, start, first);
    if first < start {
      MergeNothing(m, start, first);
    } else {
      assert start in Merged(m, start, 0);
    }
  }

  lemma {:induction false} MergeNothing(m: map<nat, nat>, start: nat, first: nat)
    requires start > 0 && start !in m && FloorKey(m, start - 1) == Some(first) && first + m[first] == start
    ensures Merged(m, start, 0) == m
  {
    SameFloor(m, m - {start}, start - 1);
    MergedInto(m, start, 0, first, m[first]);
    SwapBlock(m, m, first, start);
  }

  /** Freeing a range with a free page behind a taken one leaves a block of the index inside the new one. */
  lemma {:induction false} FreedTwiceBreaksIndex(free: seq<bool>, start: nat, count: nat, p: nat)
    requires start <= p < start + count <= |free| && !free[start] && free[p]
    ensures Merged(Runs(free), start, count) != Runs(Fill(free, start, count, true))
  {
    var b := BlockOf(free, p);
    assert !free[start];
    assert start < b;
    var m := Merged(Runs(free), start, count);
    assert b in m;
    assert !RunStart(Fill(free, start, count, true), b);
  }

  /** Removing pages from a block and inserting them again restores the index. */
  lemma {:induction false} InsertUndoesRemove(free: seq<bool>, block: nat, start: nat, count: nat)
    requires count > 0 && InBlock(Runs(free), block, start, count)
    ensures Merged(Carved(Runs(free), block, start, count), start, count) == Runs(free)
  {
    RefillIsIdentity(free, start, count);
    RemoveKeepsIndex(free, block, start, count, |free|);
    InsertKeepsIndex(Fill(free, start, count, false), start, count);
  }

  lemma {:induction false} RefillIsIdentity(free: seq<bool>, start: nat, count: nat)
    requires start + count <= |free| && FreeRange(free, start, start + count)
    ensures Fill(Fill(free, start, count, false), start, count, true) == free
  {
  }

  /** The page and the one before it are both free: cutting there splits a block. */
  predicate Splits(free: seq<bool>, start: nat) {
    0 < start < |free| && free[start - 1] && free[start]
  }

  lemma {:induction false} SplitsInside(free: seq<bool>, block: nat, start: nat)
    requires InBlock(Runs(free), block, start, 0)
    ensures Splits(free, start) <==> block < start < RunEnd(free, block)
  {
    var end := RunEnd(free, block);
    assert start == end < |free| ==> !free[end];
  }

  /** Removing no pages keeps the index faithful exactly unless it splits a block. */
  lemma {:induction false} RemoveNothing(free: seq<bool>, block: nat, start: nat, limit: nat)
    requires InBlock(Runs(free), block, start, 0)
    ensures BlockFor(Runs(free), start, limit) == Some(block)
    ensures Carved(Runs(free), block, start, 0) == Runs(free) <==> !Splits(free, start)
  {
    FloorKeyOfBlock(free, block, start, 0);
    SplitsInside(free, block, start);
    if Splits(free, start) {
      assert Carved(Runs(free), block, start, 0)[block] == start - block;
    }
  }

  /** Once a block is split, the index hides exactly the windows that reach across the cut. */
  lemma {:induction false} SplitHides(free: seq<bool>, block: nat, start: nat, w: nat, count: nat)
    requires InBlock(Runs(free), block, start, 0) && count > 0
    requires w + count <= |free| && FreeRange(free, w, w + count)
    ensures (exists b :: InBlock(Carved(Runs(free), block, start, 0), b, w, count)) <==> !(w < start < w + count)
  {
    var m, cut := Runs(free), Carved(Runs(free), block, start, 0);
    var b := RangeInBlock(free, w, count);
    var end := block + m[block];
    if b < block {
      BlocksApart(free, b, block);
    } else if block < b {
      BlocksApart(free, block, b);
    }
    if !(w < start < w + count) {
      assert InBlock(cut, if b == block && start <= w then start else b, w, count);
    } else {
      forall c: nat | InBlock(cut, c, w, count) ensures false {
        if c != block && c != start {
          assert c in m;
          if c < block { BlocksApart(free, c, block); } else { BlocksApart(free, block, c); }
        }
      }
    }
  }

  /** Inserting no pages where a block was split joins its parts again. */
  lemma {:induction false} InsertUndoesSplit(free: seq<bool>, block: nat, start: nat)
    requires InBlock(Runs(free), block, start, 0)
    ensures Merged(Carved(Runs(free), block, start, 0), start, 0) == Runs(free)
  {
    var m := Runs(free);
    NoneInside(free, block);
    if start == block {
      assert Carved(m, block, start, 0) == m;
      assert Merged(m, start, 0) == m;
    } else {
      FloorKeyOfBlock(free, block, start - 1, 0);
      CarvedShape(m, block, start, 0);
      RejoinSplit(m, Carved(m, block, start, 0), block, start);
    }
  }

  lemma {:induction false} RejoinSplit(m: map<nat, nat>, cut: map<nat, nat>, block: nat, start: nat)
    requires InBlock(m, block, start, 0) && block < start && start !in m
    requires FloorKey(m, start - 1) == Some(block)
    requires forall s {:trigger s in cut} :: s in cut <==> s in m || (s == start && start < block + m[block])
    requires start < block + m[block] ==> cut[start] == block + m[block] - start
    requires cut[block] == start - block
    requires forall s :: s in m && s != block ==> cut[s] == m[s]
    ensures Merged(cut, start, 0) == m
  {
    SameFloor(m, cut - {start}, start - 1);
    MergedInto(cut, start, 0, block, m[block]);
    SwapBlock(m, cut, block, start);
  }

  lemma {:induction false} MergedInto(m: map<nat, nat>, start: nat, count: nat, prev: nat, total: nat)
    requires start > 0 && FloorKey(m - {start + count}, start - 1) == Some(prev)
    requires prev in m && prev + m[prev] == start
    requires total == m[prev] + count + if start + count in m then m[start + count] else 0
    ensures Merged(m, start, count) == (m - {start + count} - {prev})[prev := total]
  {
  }

  lemma {:induction false} SwapBlock(m: map<nat, nat>, cut: map<nat, nat>, block: nat, start: nat)
    requires block in m && block != start && start !in m
    requires forall s :: s in cut - {start} <==> s in m
    requires forall s :: s in m && s != block ==> s in cut && cut[s] == m[s]
    ensures (cut - {start} - {block})[block := m[block]] == m
  {
  }

  // ----- scanning the pages from left to right

  /** After `i` pages, `m` holds the runs that ended and `open` is the start of the one that has not. */
  ghost predicate Scanned(free: seq<bool>, m: map<nat, nat>, i: nat, open: Option<nat>) {
    && i <= |free|
    && (open.None? ==> i == 0 || !free[i - 1])
    && (open.Some? ==> open.value < i && RunStart(free, open.value) && FreeRange(free, open.value, i))
    && (forall s: nat {:trigger s in m} :: s in m <==> RunStart(free, s) && s < (if open.Some? then open.value else i))
    && (forall s :: s in m ==> m[s] == RunEnd(free, s) - s)
  }

  lemma {:induction false} ScanStep(free: seq<bool>, m: map<nat, nat>, i: nat, open: Option<nat>)
    requires i < |free| && Scanned(free, m, i, open)
    ensures free[i] ==> Scanned(free, m, i + 1, if open.None? then Some(i) else open)
    ensures !free[i] && open.None? ==> Scanned(free, m, i + 1, None)
    ensures !free[i] && open.Some? ==> Scanned(free, m[open.value := i - open.value], i + 1, None)
  {
    if !free[i] && open.Some? {
      RunEndIs(free, open.value, i);
    }
  }

  lemma {:induction false} ScanEnd(free: seq<bool>, m: map<nat, nat>, open: Option<nat>)
    requires Scanned(free, m, |free|, open)
    ensures Runs(free) == if open.Some? then m[open.value := |free| - open.value] else m
  {
    if open.Some? {
      RunEndIs(free, open.value, |free|);
      RunsFromKeys(free, m[open.value := |free| - open.value]);
    } else {
      RunsFromKeys(free, m);
    }
  }

  /** Rebuilds the index from the pages alone. */
  method ScanRuns(free: seq<bool>) returns (blocks: map<nat, nat>)
    ensures blocks == Runs(free)
  {
    blocks := map[];
    var runStart: Option<nat> := None;
    for i := 0 to |free|
      invariant Scanned(free, blocks, i, runStart)
    {
      ScanStep(free, blocks, i, runStart);
      if free[i] {
        if runStart.None? {
          runStart := Some(i);
        }
      } else if runStart.Some? {
        blocks := blocks[runStart.value := i - runStart.value];
        runStart := None;
      }
    }
    ScanEnd(free, blocks, runStart);
    if runStart.Some? {
      blocks := blocks[runStart.value := |free| - runStart.value];
    }
  }
}
