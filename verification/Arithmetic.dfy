/** The 32-bit address arithmetic of the heaps, wrap-around included. Page sizes are powers of two and are
    given by their shift. */
module Arithmetic {
  import opened Bits

  const U32: nat := 0x1_0000_0000

  type uint32 = x: nat | x < 0x1_0000_0000

  function Min(a: int, b: int): int { if a <= b then a else b }

  function Max(a: int, b: int): int { if a >= b then a else b }

  function Add32(a: uint32, b: uint32): uint32 {
    if a + b < U32 then a + b else a + b - U32
  }

  function Sub32(a: uint32, b: uint32): uint32 {
    if a >= b then a - b else a + U32 - b
  }

  function SatAdd(a: uint32, b: uint32): uint32 { if a + b < U32 then a + b else U32 - 1 }

  lemma {:induction false} Pow2Small(k: nat)
    requires k < 32
    ensures 0 < Pow2(k) <= 0x8000_0000 && Pow2(32) == U32
  {
    Pow2Values();
    ShlPow2(31 - k, k);
    ShlPow2(31 - k, 0);
    ShlMono(1, Pow2(k), 31 - k);
    Pow2Mono(k, 31);
  }

  lemma {:induction false} Pow2Mono(a: nat, b: nat)
    requires a <= b
    ensures Pow2(a) <= Pow2(b)
  {
    if a < b {
      Pow2Mono(a, b - 1);
    }
  }

  /** The multiple of the divisor at or below `x`. */
  function FloorTo(x: nat, d: nat): (r: nat)
    requires d > 0
    ensures r == x - x % d && r <= x < r + d && r % d == 0
  {
    DivMod(x, d);
    MultipleMod(x / d, d);
    x / d * d
  }

  /** The multiple of `d` in `[x, x + d)`. */
  lemma {:induction false} CeilingUnique(x: nat, d: nat)
    requires d > 0
    ensures x <= FloorTo(x + d - 1, d) < x + d
    ensures x % d == 0 ==> FloorTo(x + d - 1, d) == x
  {
    if x % d == 0 {
      DivMod(x, d);
      DivUnique(x + d - 1, d, x / d, d - 1);
    }
  }

  /** `round_up(value, 2^k)`: zero becomes one multiple. */
  function RoundUp(value: uint32, k: nat): (r: uint32)
    requires k < 32
    ensures Low(r, k) == 0
  {
    Pow2Small(k);
    var x := Add32(value, Pow2(k) - 1);
    ShiftSplit(x, k);
    ShlAligned(Shr(x, k), k);
    ShlAligned(1, k);
    ShlPow2(k, 0);
    if value == 0 then Pow2(k) else Shl(Shr(x, k), k)
  }

  function PageCount(size: uint32, k: nat): nat
    requires k < 32
  {
    Shr(RoundUp(size, k), k)
  }

  /** `(value + alignment - 1) & ~(alignment - 1)`; the mask of a zero alignment is zero. */
  function Align(value: uint32, alignment: uint32): (r: uint32) {
    if alignment == 0 then 0
    else
      AndBound(Add32(value, alignment - 1), U32 - alignment);
      And(Add32(value, alignment - 1), U32 - alignment)
  }

  lemma {:induction false} AlignIsMasked(value: uint32, alignment: uint32)
    requires 0 < alignment
    ensures alignment - 1 < Pow2(32)
    ensures Align(value, alignment) == And(Add32(value, alignment - 1), Not(alignment - 1, 32))
  {
    Pow2Small(0);
  }

  /** Rounding up stays within one unit of the value, unless the addition leaves the word. */
  lemma {:induction false} RoundUpBounds(value: uint32, k: nat)
    requires k < 32 && value + Pow2(k) <= U32
    ensures RoundUp(value, k) >= Pow2(k) && value <= RoundUp(value, k)
    ensures value > 0 ==> RoundUp(value, k) < value + Pow2(k)
    ensures value > 0 && Low(value, k) == 0 ==> RoundUp(value, k) == value
  {
    if value > 0 {
      var x := value + Pow2(k) - 1;
      ShiftSplit(x, k);
      ShlPow2(k, 0);
      ShlMono(1, Shr(x, k), k);
      if Shr(x, k) == 0 { LowZero(k); }
      if Low(value, k) == 0 {
        ShiftAligned(value, k);
        ShiftUnique(Shr(value, k), Pow2(k) - 1, k);
      }
    }
  }

  /** If the addition leaves the word, the result is zero. */
  lemma {:induction false} RoundUpWraps(value: uint32, k: nat)
    requires k < 32 && value + Pow2(k) > U32
    ensures RoundUp(value, k) == 0
  {
    Pow2Small(k);
    ShiftUnique(0, Add32(value, Pow2(k) - 1), k);
    LowZero(k);
    ShlPow2(k, 0);
  }

  /** For a power of two, aligning is rounding up, unless the addition leaves the word. */
  lemma {:induction false} AlignPow2(value: uint32, k: nat)
    requires k < 32 && value + Pow2(k) <= U32
    ensures 0 < Pow2(k) < U32
    ensures Align(value, Pow2(k)) == Shl(Shr(value + Pow2(k) - 1, k), k)
  {
    Pow2Small(k);
    AlignIsMasked(value, Pow2(k));
    AndHighMask(value + Pow2(k) - 1, k, 32);
  }

  /** Whatever the alignment, a multiple of the page size stays one. */
  lemma {:induction false} AlignKeepsPages(value: uint32, alignment: uint32, k: nat)
    requires k < 32 && Low(alignment, k) == 0
    ensures Low(Align(value, alignment), k) == 0
    ensures Align(value, alignment) <= U32 - alignment
  {
    if alignment == 0 {
      LowZero(k);
    } else {
      WordAligned(k);
      ShiftDifference(U32, alignment, k);
      AndMultiple(Add32(value, alignment - 1), U32 - alignment, k);
      AndBound(Add32(value, alignment - 1), U32 - alignment);
    }
  }

  lemma {:induction false} WordAligned(k: nat)
    requires k <= 32
    ensures Low(U32, k) == 0
  {
    Pow2Small(0);
    ShlPow2(k, 32 - k);
    ShlAligned(Pow2(32 - k), k);
  }

  /** Without wrap-around no alignment, power of two or not, moves an address down. */
  lemma {:induction false} AlignNotBelow(value: uint32, alignment: uint32)
    requires 0 < alignment && value + alignment <= U32
    ensures Align(value, alignment) >= value
  {
    Pow2Small(0);
    AlignIsMasked(value, alignment);
    MaskedBelow(value + alignment - 1, alignment - 1, 32);
  }

  /** `x & ~(2^k - 1)` */
  function MaskDown(x: uint32, k: nat): nat
    requires k < 32
  {
    Pow2Small(k);
    And(x, U32 - Pow2(k))
  }

  /** `x | (2^k - 1)` */
  function MaskUp(x: uint32, k: nat): nat {
    Or(x, Pow2(k) - 1)
  }

  lemma {:induction false} MaskIsFloor(x: uint32, k: nat)
    requires k < 32
    ensures MaskDown(x, k) == Shl(Shr(x, k), k)
    ensures MaskUp(x, k) == Shl(Shr(x, k), k) + Pow2(k) - 1
  {
    Pow2Small(k);
    AndHighMask(x, k, 32);
    OrLowMask(x, k);
  }

  /** A size yields no pages at all exactly when rounding it up leaves the word. */
  lemma {:induction false} PageCountZero(size: uint32, k: nat)
    requires k < 32
    ensures PageCount(size, k) == 0 <==> size + Pow2(k) > U32
  {
    Pow2Small(k);
    ShiftAligned(RoundUp(size, k), k);
    LowZero(k);
    ShlPow2(k, 0);
    if size + Pow2(k) > U32 {
      RoundUpWraps(size, k);
    } else {
      RoundUpBounds(size, k);
    }
  }

  /** The pages counted for a size hold that many bytes exactly unless rounding it up leaves the word. */
  lemma {:induction false} PagesCover(size: uint32, k: nat)
    requires k < 32
    ensures Shl(PageCount(size, k), k) == RoundUp(size, k)
    ensures Shl(PageCount(size, k), k) >= size <==> size + Pow2(k) <= U32
  {
    Pow2Small(k);
    ShiftAligned(RoundUp(size, k), k);
    if size + Pow2(k) > U32 {
      RoundUpWraps(size, k);
    } else {
      RoundUpBounds(size, k);
    }
  }
}
