/** Unsigned machine words as natural numbers, with the bitwise operators written as recursions
    over binary digits, so that masks can be reasoned about by induction. */
module Bits {

  function Pow2(k: nat): (r: nat)
    ensures r >= 1
  {
    if k == 0 then 1 else 2 * Pow2(k - 1)
  }

  /** Digit `i` of `x`. */
  predicate Bit(x: nat, i: nat) {
    if i == 0 then x % 2 == 1 else Bit(x / 2, i - 1)
  }

  function And(x: nat, y: nat): nat {
    if x == 0 || y == 0 then 0
    else (if x % 2 == 1 && y % 2 == 1 then 1 else 0) + 2 * And(x / 2, y / 2)
  }

  function Or(x: nat, y: nat): nat
    decreases x + y
  {
    if x == 0 then y else if y == 0 then x
    else (if x % 2 == 1 || y % 2 == 1 then 1 else 0) + 2 * Or(x / 2, y / 2)
  }

  /** The complement of `x` in a word of `width` bits. */
  function Not(x: nat, width: nat): nat
    requires x < Pow2(width)
  {
    Pow2(width) - 1 - x
  }

  lemma {:induction false} Pow2Values()
    ensures Pow2(6) == 64 && Pow2(12) == 0x1000 && Pow2(16) == 0x1_0000 && Pow2(20) == 0x10_0000
    ensures Pow2(22) == 0x40_0000 && Pow2(24) == 0x100_0000 && Pow2(32) == 0x1_0000_0000
    ensures Pow2(52) == 0x10_0000_0000_0000 && Pow2(64) == 0x1_0000_0000_0000_0000
  {
    assert Pow2(4) == 16;
    assert Pow2(8) == 256;
    assert Pow2(12) == 0x1000;
    assert Pow2(16) == 0x1_0000;
    assert Pow2(20) == 0x10_0000;
    assert Pow2(24) == 0x100_0000;
    assert Pow2(28) == 0x1000_0000;
    assert Pow2(32) == 0x1_0000_0000;
    assert Pow2(36) == 0x10_0000_0000;
    assert Pow2(40) == 0x100_0000_0000;
    assert Pow2(44) == 0x1000_0000_0000;
    assert Pow2(48) == 0x1_0000_0000_0000;
    assert Pow2(52) == 0x10_0000_0000_0000;
    assert Pow2(56) == 0x100_0000_0000_0000;
    assert Pow2(60) == 0x1000_0000_0000_0000;
  }

  // ----- shifts

  /** `x << k` */
  function Shl(x: nat, k: nat): nat {
    if k == 0 then x else 2 * Shl(x, k - 1)
  }

  /** `x >> k` */
  function Shr(x: nat, k: nat): nat {
    if k == 0 then x else Shr(x / 2, k - 1)
  }

  /** The digits that `x >> k` drops. */
  function Low(x: nat, k: nat): nat {
    if k == 0 then 0 else x % 2 + 2 * Low(x / 2, k - 1)
  }

  lemma {:induction false} ShiftSplit(x: nat, k: nat)
    ensures x == Shl(Shr(x, k), k) + Low(x, k) && Low(x, k) < Pow2(k)
  {
    if k > 0 {
      ShiftSplit(x / 2, k - 1);
    }
  }

  lemma {:induction false} ShiftUnique(a: nat, r: nat, k: nat)
    requires r < Pow2(k)
    ensures Shr(Shl(a, k) + r, k) == a && Low(Shl(a, k) + r, k) == r
  {
    if k > 0 {
      assert (Shl(a, k) + r) / 2 == Shl(a, k - 1) + r / 2;
      ShiftUnique(a, r / 2, k - 1);
    }
  }

  lemma {:induction false} ShlAdd(a: nat, b: nat, k: nat)
    ensures Shl(a + b, k) == Shl(a, k) + Shl(b, k)
  {
    if k > 0 {
      ShlAdd(a, b, k - 1);
    }
  }

  lemma {:induction false} ShlPow2(k: nat, n: nat)
    ensures Shl(Pow2(n), k) == Pow2(n + k)
    ensures Shl(1, k) == Pow2(k) && Shl(0, k) == 0
  {
    if k > 0 {
      ShlPow2(k - 1, n);
    }
  }

  lemma {:induction false} ShlMono(a: nat, b: nat, k: nat)
    ensures a <= b ==> Shl(a, k) <= Shl(b, k)
    ensures a < b ==> Shl(a, k) + Pow2(k) <= Shl(b, k)
  {
    ShlPow2(k, 0);
    if a <= b {
      ShlAdd(a, b - a, k);
    }
    if a < b {
      ShlAdd(1, b - a - 1, k);
    }
  }

  lemma {:induction false} ShrMono(x: nat, y: nat, k: nat)
    ensures x <= y ==> Shr(x, k) <= Shr(y, k)
  {
    if k > 0 {
      ShrMono(x / 2, y / 2, k - 1);
    }
  }

  lemma {:induction false} ShiftGalois(p: nat, x: nat, k: nat)
    ensures Shl(p, k) <= x <==> p <= Shr(x, k)
  {
    ShiftSplit(x, k);
    ShlMono(p, Shr(x, k), k);
    ShlMono(Shr(x, k), p, k);
  }

  lemma {:induction false} ShlShl(x: nat, a: nat, b: nat)
    ensures Shl(Shl(x, a), b) == Shl(x, a + b)
  {
    if b > 0 {
      ShlShl(x, a, b - 1);
    }
  }

  lemma {:induction false} ShrShr(x: nat, a: nat, b: nat)
    ensures Shr(Shr(x, a), b) == Shr(x, a + b)
  {
    if a > 0 {
      ShrShr(x / 2, a - 1, b);
    }
  }

  /** `x` is page-aligned: shifting loses nothing. */
  lemma {:induction false} ShiftAligned(x: nat, k: nat)
    requires Low(x, k) == 0
    ensures x == Shl(Shr(x, k), k)
  {
    ShiftSplit(x, k);
  }

  lemma {:induction false} ShlAligned(a: nat, k: nat)
    ensures Low(Shl(a, k), k) == 0 && Shr(Shl(a, k), k) == a
  {
    ShiftUnique(a, 0, k);
  }

  lemma {:induction false} ShiftSum(x: nat, y: nat, k: nat)
    requires Low(x, k) == 0
    ensures Low(x + y, k) == Low(y, k) && Shr(x + y, k) == Shr(x, k) + Shr(y, k)
  {
    ShiftSplit(x, k);
    ShiftSplit(y, k);
    ShlAdd(Shr(x, k), Shr(y, k), k);
    ShiftUnique(Shr(x, k) + Shr(y, k), Low(y, k), k);
  }

  /** Just below a multiple the quotient is one less. */
  lemma {:induction false} ShiftBelow(x: nat, k: nat)
    requires x > 0 && Low(x, k) == 0
    ensures Shr(x, k) > 0 && Shr(x - 1, k) == Shr(x, k) - 1
  {
    ShiftSplit(x, k);
    var q := Shr(x, k);
    ShlAdd(0, 0, k);
    ShlAdd(q - 1, 1, k);
    ShlPow2(k, 0);
    ShiftUnique(q - 1, Pow2(k) - 1, k);
  }

  /** Rounding up reaches past the last byte. */
  lemma {:induction false} CeilingCovers(x: nat, k: nat)
    requires x > 0
    ensures Shr(x - 1, k) < Shr(x + Pow2(k) - 1, k)
  {
    ShlAligned(1, k);
    ShlPow2(k, 0);
    ShiftSum(Pow2(k), x - 1, k);
  }

  lemma {:induction false} ShiftDifference(x: nat, y: nat, k: nat)
    requires Low(x, k) == 0 && Low(y, k) == 0 && x >= y
    ensures Low(x - y, k) == 0 && Shr(x - y, k) == Shr(x, k) - Shr(y, k)
  {
    ShiftSum(y, x - y, k);
  }

  lemma {:induction false} LowCoarser(x: nat, a: nat, b: nat)
    requires a <= b && Low(x, b) == 0
    ensures Low(x, a) == 0
  {
    if a > 0 {
      LowCoarser(x / 2, a - 1, b - 1);
    }
  }

  /** A multiple of a multiple of `2^k` is a multiple of `2^k`. */
  lemma {:induction false} MultipleAligned(q: nat, d: nat, k: nat)
    requires Low(d, k) == 0
    ensures Low(q * d, k) == 0
  {
    if q == 0 {
      LowZero(k);
    } else {
      MultipleAligned(q - 1, d, k);
      assert q * d == d + (q - 1) * d;
      ShiftSum(d, (q - 1) * d, k);
    }
  }

  lemma {:induction false} ShiftIsDiv(x: nat, k: nat)
    ensures Shr(x, k) == x / Pow2(k) && Low(x, k) == x % Pow2(k)
  {
    if k == 0 {
    } else {
      ShiftIsDiv(x / 2, k - 1);
      DivStep(x, Pow2(k - 1));
    }
  }

  // ----- division by an arbitrary divisor

  lemma {:induction false} MultipleMod(k: int, d: nat)
    requires d > 0
    ensures (k * d) % d == 0 && (k * d) / d == k
  {
    DivUnique(k * d, d, k, 0);
  }

  lemma {:induction false} DivUnique(x: int, d: nat, q: int, r: nat)
    requires d > 0 && r < d && x == q * d + r
    ensures x / d == q && x % d == r
  {
    DivMod(x, d);
    SameQuotient(d, x / d, x % d, q, r);
  }

  lemma {:induction false} DivMod(x: int, d: nat)
    requires d > 0
    ensures x == (x / d) * d + x % d && 0 <= x % d < d
  {
  }

  lemma {:induction false} SameQuotient(d: nat, q: int, r: nat, q': int, r': nat)
    requires r < d && r' < d && q * d + r == q' * d + r'
    ensures q == q' && r == r'
  {
    var k := q - q';
    assert k * d == q * d - q' * d;
    ScaleBound(k, d);
  }

  lemma {:induction false} ScaleBound(k: int, d: int)
    requires d >= 0
    ensures k >= 1 ==> k * d >= d
    ensures k <= -1 ==> k * d <= -d
  {
    if k >= 1 {
      assert (k - 1) * d >= 0;
    } else if k <= -1 {
      assert (-k - 1) * d >= 0;
    }
  }

  /** Two different multiples of `d` are at least `d` apart. */
  lemma {:induction false} MultiplesApart(a: int, b: int, d: nat)
    requires d > 0 && a % d == 0 && b % d == 0 && a < b
    ensures a + d <= b
  {
    DivMod(a, d);
    DivMod(b, d);
    assert b - a == (b / d - a / d) * d;
    ScaleBound(b / d - a / d, d);
  }

  lemma {:induction false} ShlIsTimes(x: nat, k: nat)
    ensures Shl(x, k) == x * Pow2(k)
  {
    if k > 0 {
      ShlIsTimes(x, k - 1);
    }
  }

  /** Quotient and remainder are what makes up the number. */
  lemma {:induction false} ShiftIs(x: nat, k: nat, unit: nat, q: nat, r: nat)
    requires unit == Pow2(k) && r < unit && x == q * unit + r
    ensures Shr(x, k) == q && Low(x, k) == r
  {
    ShiftIsDiv(x, k);
    DivUnique(x, unit, q, r);
  }

  lemma {:induction false} DivStep(x: nat, d: nat)
    requires d > 0
    ensures x % (2 * d) == x % 2 + 2 * ((x / 2) % d) && x / (2 * d) == (x / 2) / d
  {
    var q, r := (x / 2) / d, (x / 2) % d;
    DivMod(x / 2, d);
    assert x == 2 * (x / 2) + x % 2;
    assert 2 * (q * d) == q * (2 * d);
    DivUnique(x, 2 * d, q, x % 2 + 2 * r);
  }

  // ----- digit by digit

  /** The last digit of a conjunction or disjunction and the rest of it. */
  lemma {:induction false} AndDigits(x: nat, y: nat)
    requires x > 0 && y > 0
    ensures And(x, y) / 2 == And(x / 2, y / 2) && (And(x, y) % 2 == 1 <==> x % 2 == 1 && y % 2 == 1)
  {
  }

  lemma {:induction false} OrDigits(x: nat, y: nat)
    requires x > 0 && y > 0
    ensures Or(x, y) / 2 == Or(x / 2, y / 2) && (Or(x, y) % 2 == 1 <==> x % 2 == 1 || y % 2 == 1)
  {
  }

  lemma {:induction false} AndBit(x: nat, y: nat, i: nat)
    ensures Bit(And(x, y), i) <==> Bit(x, i) && Bit(y, i)
  {
    if x == 0 || y == 0 {
      ZeroBit(i);
    } else {
      AndDigits(x, y);
      if i > 0 {
        AndBit(x / 2, y / 2, i - 1);
      }
    }
  }

  lemma {:induction false} OrBit(x: nat, y: nat, i: nat)
    ensures Bit(Or(x, y), i) <==> Bit(x, i) || Bit(y, i)
  {
    if x == 0 || y == 0 {
      ZeroBit(i);
    } else {
      OrDigits(x, y);
      if i > 0 {
        OrBit(x / 2, y / 2, i - 1);
      }
    }
  }

  lemma {:induction false} ZeroBit(i: nat)
    ensures !Bit(0, i)
  {
    if i > 0 {
      ZeroBit(i - 1);
    }
  }

  lemma {:induction false} NotBit(x: nat, width: nat, i: nat)
    requires x < Pow2(width) && i < width
    ensures Bit(Not(x, width), i) <==> !Bit(x, i)
  {
    if i > 0 {
      assert Not(x, width) / 2 == Not(x / 2, width - 1);
      NotBit(x / 2, width - 1, i - 1);
    }
  }

  /** `(1 << n) - 1` holds exactly the digits below `n`. */
  lemma {:induction false} LowMaskBit(n: nat, i: nat)
    ensures Bit(Pow2(n) - 1, i) <==> i < n
  {
    if n == 0 {
      ZeroBit(i);
    } else if i > 0 {
      assert (Pow2(n) - 1) / 2 == Pow2(n - 1) - 1;
      LowMaskBit(n - 1, i - 1);
    }
  }

  /** `1 << n` holds exactly the digit `n`. */
  lemma {:induction false} OneBit(n: nat, i: nat)
    ensures Bit(Pow2(n), i) <==> i == n
  {
    if n == 0 {
      if i > 0 { ZeroBit(i - 1); }
    } else if i > 0 {
      assert Pow2(n) / 2 == Pow2(n - 1);
      OneBit(n - 1, i - 1);
    }
  }

  /** A word is zero exactly when it has no digit set. */
  lemma {:induction false} NonZeroBit(x: nat, width: nat) returns (i: nat)
    requires 0 < x < Pow2(width)
    ensures i < width && Bit(x, i)
  {
    if x % 2 == 1 {
      i := 0;
    } else {
      i := NonZeroBit(x / 2, width - 1);
      i := i + 1;
    }
  }

  lemma {:induction false} AndBound(x: nat, y: nat)
    ensures And(x, y) <= x && And(x, y) <= y
  {
    if x == 0 || y == 0 {
    } else {
      AndBound(x / 2, y / 2);
    }
  }

  lemma {:induction false} OrBound(x: nat, y: nat, width: nat)
    requires x < Pow2(width) && y < Pow2(width)
    ensures Or(x, y) < Pow2(width)
  {
    if x == 0 || y == 0 {
    } else {
      OrBound(x / 2, y / 2, width - 1);
    }
  }

  // ----- masks as arithmetic

  /** Masking with `m` and with its complement splits a word in two. */
  lemma {:induction false} AndSplit(x: nat, m: nat, width: nat)
    requires x < Pow2(width) && m < Pow2(width)
    ensures And(x, m) + And(x, Not(m, width)) == x
  {
    if x == 0 {
    } else {
      assert Not(m, width) / 2 == Not(m / 2, width - 1);
      AndSplit(x / 2, m / 2, width - 1);
      assert And(x, m) == (if x % 2 == 1 && m % 2 == 1 then 1 else 0) + 2 * And(x / 2, m / 2);
      assert And(x, Not(m, width)) == (if x % 2 == 1 && Not(m, width) % 2 == 1 then 1 else 0)
                                      + 2 * And(x / 2, Not(m, width) / 2);
    }
  }

  /** Masking with the complement of `m` takes away no more than `m`. */
  lemma {:induction false} MaskedBelow(x: nat, m: nat, width: nat)
    requires x < Pow2(width) && m < Pow2(width)
    ensures And(x, Not(m, width)) + m >= x
  {
    AndSplit(x, m, width);
    AndBound(x, m);
  }

  lemma {:induction false} AndLowMask(x: nat, k: nat)
    ensures And(x, Pow2(k) - 1) == Low(x, k)
  {
    if k > 0 {
      assert (Pow2(k) - 1) / 2 == Pow2(k - 1) - 1;
      AndLowMask(x / 2, k - 1);
      if x == 0 { LowZero(k); }
    }
  }

  lemma {:induction false} LowZero(k: nat)
    ensures Low(0, k) == 0 && Shr(0, k) == 0
  {
    if k > 0 {
      LowZero(k - 1);
    }
  }

  /** `x & ~(2^k - 1)` rounds down to a multiple of `2^k`. */
  lemma {:induction false} AndHighMask(x: nat, k: nat, width: nat)
    requires x < Pow2(width) && Pow2(k) - 1 < Pow2(width)
    ensures And(x, Not(Pow2(k) - 1, width)) == Shl(Shr(x, k), k)
  {
    AndLowMask(x, k);
    AndSplit(x, Pow2(k) - 1, width);
    ShiftSplit(x, k);
  }

  /** `x | (2^k - 1)` moves to the last value below the next multiple of `2^k`. */
  lemma {:induction false} OrLowMask(x: nat, k: nat)
    ensures Or(x, Pow2(k) - 1) == Shl(Shr(x, k), k) + Pow2(k) - 1
  {
    if k == 0 {
    } else if x == 0 {
      LowZero(k);
      ShlPow2(k, 0);
    } else {
      assert (Pow2(k) - 1) / 2 == Pow2(k - 1) - 1;
      OrLowMask(x / 2, k - 1);
    }
  }

  /** Masking with a multiple of `2^k` leaves a multiple of `2^k`. */
  lemma {:induction false} AndMultiple(x: nat, m: nat, k: nat)
    requires Low(m, k) == 0
    ensures Low(And(x, m), k) == 0
  {
    if k == 0 || x == 0 || m == 0 {
      LowZero(k);
    } else {
      AndMultiple(x / 2, m / 2, k - 1);
      assert And(x, m) / 2 == And(x / 2, m / 2);
    }
  }
}
