/** Where a heap lies, how large its pages are, and which host pages back them. */
module Geometry {
  import opened Bits
  import opened Arithmetic

  datatype HeapType = GuestVirtual | GuestXex | GuestPhysical

  /** Guest pages have `2^pageShift` bytes, host pages `2^sysShift`; the heap has `pages` guest pages. */
  datatype Geometry = Geometry(kind: HeapType, base: uint32, pages: nat, pageShift: nat, hostOffset: uint32,
                               sysShift: nat)
  {
    /** Page numbers and counts fit the 20-bit fields of a page entry. */
    predicate Valid() {
      && 12 <= pageShift <= 24 && 12 <= sysShift <= 16
      && 0 < pages < 0x10_0000 && base + Size() <= U32
      && hostOffset <= 0x1000 && Low(hostOffset, pageShift) == 0
    }

    function Size(): nat { Shl(pages, pageShift) }

    function LastAddress(): uint32
      requires Valid()
    {
      SizePositive();
      base + (Size() - 1)
    }

    /** Host pages from the start of the heap's host window to its end. */
    function HostPages(): nat {
      Shr(Size() + hostOffset + Pow2(sysShift) - 1, sysShift)
    }

    /** The page number the code computes for an address, which may lie outside the heap. */
    function PageOf(address: uint32): nat
      requires base < U32
    {
      Shr(Sub32(address, base), pageShift)
    }

    /** The host offset of the first byte of a guest page. */
    function HostOffsetOf(page: nat): nat {
      hostOffset + Shl(page, pageShift)
    }

    lemma {:induction false} SizePositive()
      requires Valid()
      ensures 0 < Size() <= U32
    {
      ShlMono(1, pages, pageShift);
      ShlPow2(pageShift, 0);
    }

    /** The last byte of the heap lies on the last host page. */
    lemma {:induction false} HostPagesCover()
      requires Valid()
      ensures Size() > 0 && Shr(Size() + hostOffset - 1, sysShift) < HostPages()
    {
      SizePositive();
      CeilingCovers(Size() + hostOffset, sysShift);
    }

    /** Every host page of the window starts before the heap's end. */
    lemma {:induction false} LastPageStarts(i: nat)
      requires Valid() && i < HostPages()
      ensures Shl(i, sysShift) < Size() + hostOffset
    {
      ShiftGalois(i + 1, Size() + hostOffset + Pow2(sysShift) - 1, sysShift);
      ShlAdd(i, 1, sysShift);
      ShlPow2(sysShift, 0);
    }

    /** An address is inside the heap exactly when its page number is. */
    lemma {:induction false} PageOfInside(address: uint32)
      requires Valid()
      ensures PageOf(address) < pages <==> base <= address < base + Size()
    {
      var x := Sub32(address, base);
      ShiftSplit(x, pageShift);
      ShlMono(Shr(x, pageShift), pages, pageShift);
      ShlMono(pages, Shr(x, pageShift), pageShift);
    }

    /** A stretch of guest pages that is aligned to host pages maps to whole host pages of the window. */
    lemma {:induction false} HostStretch(page: nat, count: nat)
      requires Valid() && page + count <= pages
      requires Low(HostOffsetOf(page), sysShift) == 0 && Low(Shl(count, pageShift), sysShift) == 0
      ensures Shr(HostOffsetOf(page), sysShift) + Shr(Shl(count, pageShift), sysShift) <= HostPages()
    {
      var a, b := HostOffsetOf(page), Shl(count, pageShift);
      ShiftSum(a, b, sysShift);
      ShlAdd(page, count, pageShift);
      ShlMono(page + count, pages, pageShift);
      ShrMono(a + b, Size() + hostOffset + Pow2(sysShift) - 1, sysShift);
    }

    /** When host pages are no larger than guest pages, every stretch of guest pages is aligned to them. */
    lemma {:induction false} SmallHostPages(page: nat)
      requires Valid() && sysShift <= pageShift
      ensures Low(HostOffsetOf(page), sysShift) == 0 && Low(Shl(page, pageShift), sysShift) == 0
    {
      ShlAligned(page, pageShift);
      LowCoarser(Shl(page, pageShift), sysShift, pageShift);
      LowCoarser(hostOffset, sysShift, pageShift);
      ShiftSum(hostOffset, Shl(page, pageShift), sysShift);
    }
  }
}
