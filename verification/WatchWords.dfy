/** Watch bits, one per host page, packed in blocks of 64. */
module WatchWords {
  import opened Bits
  import opened Arithmetic
  import opened FreeIndex

  type Words = seq<nat>

  /** `2^64`: blocks are 64-bit words. */
  const WORD: nat := 0x1_0000_0000_0000_0000

  predicate ValidWords(w: Words) {
    forall k :: 0 <= k < |w| ==> w[k] < WORD
  }

  /** Host page `i` is watched. */
  predicate Watched(w: Words, i: nat) {
    i / 64 < |w| && Bit(w[i / 64], i % 64)
  }

  /** The packed bits, page by page. */
  function Unpacked(w: Words): (r: seq<bool>)
    ensures |r| == 64 * |w|
    ensures forall i :: 0 <= i < 64 * |w| ==> r[i] == Watched(w, i)
  {
    seq(64 * |w|, i requires 0 <= i < 64 * |w| => Watched(w, i))
  }

  /** `~((1 << a) - 1)` in 64 bits. */
  function HighMask(a: nat): nat
    requires a <= 64
  {
    HighMaskBit(a, 0);
    WORD - Pow2(a)
  }

  /** The mask is the complement of the low bits. */
  lemma {:induction false} HighMaskBit(a: nat, j: nat)
    requires a <= 64
    ensures Pow2(a) <= WORD
    ensures j < 64 ==> (Bit(WORD - Pow2(a), j) <==> a <= j)
  {
    Pow2Values();
    NotLowMask(a, 64, j);
  }

  lemma {:induction false} NotLowMask(a: nat, width: nat, j: nat)
    requires a <= width
    ensures Pow2(a) <= Pow2(width)
    ensures j < width ==> (Bit(Pow2(width) - Pow2(a), j) <==> a <= j)
  {
    Pow2Mono(a, width);
    if j < width {
      NotBit(Pow2(a) - 1, width, j);
      LowMaskBit(a, j);
    }
  }

  /** The bits of a word from bit `a` on. */
  function FromBit(word: nat, a: nat): nat
    requires a < 64
  {
    And(word, HighMask(a))
  }

  /** The bits of a word up to bit `b`. */
  function UpToBit(word: nat, b: nat): nat {
    And(word, Pow2(b + 1) - 1)
  }

  /** The bits of block `k` that belong to pages `[first, last]`. */
  function BlockInRange(word: nat, k: nat, first: nat, last: nat): nat {
    var block := if k == first / 64 then FromBit(word, first % 64) else word;
    if k == last / 64 && last % 64 != 63 then UpToBit(block, last % 64) else block
  }

  /** The mask that keeps the bits of block `k` outside pages `[first, last]`. */
  function KeepMask(k: nat, first: nat, last: nat): nat {
    var mask := if k == first / 64 then Or(0, Pow2(first % 64) - 1) else 0;
    if k == last / 64 && last % 64 != 63 then Or(mask, HighMask(last % 64 + 1)) else mask
  }

  lemma {:induction false} FromBitBit(word: nat, a: nat, j: nat)
    requires a < 64 && j < 64
    ensures Bit(FromBit(word, a), j) <==> Bit(word, j) && a <= j
    ensures FromBit(word, a) <= word
  {
    AndBit(word, HighMask(a), j);
    AndBound(word, HighMask(a));
    HighMaskBit(a, j);
  }

  lemma {:induction false} UpToBitBit(word: nat, b: nat, j: nat)
    ensures Bit(UpToBit(word, b), j) <==> Bit(word, j) && j <= b
    ensures UpToBit(word, b) <= word
  {
    AndBit(word, Pow2(b + 1) - 1, j);
    AndBound(word, Pow2(b + 1) - 1);
    LowMaskBit(b + 1, j);
  }

  lemma {:induction false} BlockInRangeBit(word: nat, k: nat, first: nat, last: nat, j: nat)
    requires j < 64 && first / 64 <= k <= last / 64
    ensures Bit(BlockInRange(word, k, first, last), j) <==> Bit(word, j) && first <= 64 * k + j <= last
    ensures BlockInRange(word, k, first, last) <= word
  {
    FromBitBit(word, first % 64, j);
    UpToBitBit(if k == first / 64 then FromBit(word, first % 64) else word, last % 64, j);
  }

  lemma {:induction false} LowPartBit(inFirst: bool, a: nat, j: nat)
    ensures Bit(if inFirst then Or(0, Pow2(a) - 1) else 0, j) <==> inFirst && j < a
  {
    ZeroBit(j);
    LowMaskBit(a, j);
    OrBit(0, Pow2(a) - 1, j);
  }

  /** Where a bit of a block lies relative to a range that reaches into the block. */
  lemma {:induction false} BlockPosition(k: nat, first: nat, last: nat, j: nat)
    requires j < 64 && first / 64 <= k <= last / 64
    ensures first <= 64 * k + j <= last
            <==> (k == first / 64 ==> first % 64 <= j) && (k == last / 64 ==> j <= last % 64)
  {
  }

  lemma {:induction false} KeepMaskBit(k: nat, first: nat, last: nat, j: nat)
    requires j < 64 && first / 64 <= k <= last / 64 && first <= last
    ensures Bit(KeepMask(k, first, last), j) <==> !(first <= 64 * k + j <= last)
  {
    LowPartBit(k == first / 64, first % 64, j);
    HighMaskBit(last % 64 + 1, j);
    OrBit(if k == first / 64 then Or(0, Pow2(first % 64) - 1) else 0, HighMask(last % 64 + 1), j);
    BlockPosition(k, first, last, j);
  }

  /** A block meets the range in a set bit exactly when some page of it in the range is watched. */
  lemma {:induction false} BlockHasWatch(word: nat, k: nat, first: nat, last: nat) returns (j: nat)
    requires word < WORD && first / 64 <= k <= last / 64
    ensures BlockInRange(word, k, first, last) != 0 ==> j < 64 && Bit(word, j) && first <= 64 * k + j <= last
    ensures BlockInRange(word, k, first, last) == 0 ==>
              forall j' :: 0 <= j' < 64 && first <= 64 * k + j' <= last ==> !Bit(word, j')
  {
    j := 0;
    var block := BlockInRange(word, k, first, last);
    if block != 0 {
      BlockInRangeBit(word, k, first, last, 0);
      Pow2Values();
      j := NonZeroBit(block, 64);
      BlockInRangeBit(word, k, first, last, j);
    } else {
      forall j' | 0 <= j' < 64 && first <= 64 * k + j' <= last ensures !Bit(word, j') {
        BlockInRangeBit(word, k, first, last, j');
        ZeroBit(j');
      }
    }
  }

  /** Whether any page in `[first, last]` is watched, block by block. */
  method AnyWatched(w: Words, first: nat, last: nat) returns (any: bool)
    requires ValidWords(w) && first <= last && last / 64 < |w|
    ensures any <==> exists i :: first <= i <= last && Watched(w, i)
  {
    for k := first / 64 to last / 64 + 1
      invariant forall i :: first <= i <= last && i / 64 < k ==> !Watched(w, i)
    {
      ghost var j := BlockHasWatch(w[k], k, first, last);
      if BlockInRange(w[k], k, first, last) != 0 {
        assert Watched(w, 64 * k + j);
        return true;
      }
    }
    return false;
  }

  /** Marks pages `[first, last]` as not watched, block by block. */
  method ClearWatches(flags: array<nat>, first: nat, last: nat)
    requires ValidWords(flags[..]) && first <= last && last / 64 < flags.Length
    modifies flags
    ensures ValidWords(flags[..])
    ensures Unpacked(flags[..]) == Fill(old(Unpacked(flags[..])), first, last + 1 - first, false)
  {
    ghost var w := flags[..];
    for k := first / 64 to last / 64 + 1
      invariant forall b :: 0 <= b < flags.Length ==>
                  flags[b] == if first / 64 <= b < k then And(w[b], KeepMask(b, first, last)) else w[b]
    {
      flags[k] := And(flags[k], KeepMask(k, first, last));
    }
    ClearedWords(w, flags[..], first, last);
  }

  lemma {:induction false} ClearedWords(w: Words, w': Words, first: nat, last: nat)
    requires ValidWords(w) && first <= last && last / 64 < |w| && |w'| == |w|
    requires forall b :: 0 <= b < |w| ==>
               w'[b] == if first / 64 <= b <= last / 64 then And(w[b], KeepMask(b, first, last)) else w[b]
    ensures ValidWords(w') && Unpacked(w') == Fill(Unpacked(w), first, last + 1 - first, false)
  {
    forall b | 0 <= b < |w| ensures w'[b] < WORD {
      AndBound(w[b], KeepMask(b, first, last));
    }
    forall i: nat | i < 64 * |w| ensures Watched(w', i) == (Watched(w, i) && !(first <= i <= last)) {
      var k, j := i / 64, i % 64;
      if first / 64 <= k <= last / 64 {
        AndBit(w[k], KeepMask(k, first, last), j);
        KeepMaskBit(k, first, last, j);
      }
    }
  }

  lemma {:induction false} OrBoundWord(word: nat, j: nat)
    requires word < WORD && j < 64
    ensures Or(word, Pow2(j)) < WORD
  {
    Pow2Values();
    Pow2Mono(j + 1, 64);
    OrBound(word, Pow2(j), 64);
  }

  /** Setting one bit watches one page. */
  lemma {:induction false} SetWatch(w: Words, i: nat)
    requires ValidWords(w) && i / 64 < |w|
    ensures var w' := w[i / 64 := Or(w[i / 64], Pow2(i % 64))];
            ValidWords(w') && Unpacked(w') == Unpacked(w)[i := true]
  {
    var k := i / 64;
    var w' := w[k := Or(w[k], Pow2(i % 64))];
    OrBoundWord(w[k], i % 64);
    forall p: nat | p < 64 * |w| ensures Watched(w', p) == (Watched(w, p) || p == i) {
      OrBit(w[k], Pow2(i % 64), p % 64);
      OneBit(i % 64, p % 64);
    }
  }
}
