/** The heaps of physical memory as the emulator lays them out: the parent of 4 KB pages and its three views. */
module Layout {
  import opened Bits
  import opened Arithmetic
  import opened Geometry

  function PhysicalMemory(s: nat): Geometry {
    Geometry(GuestPhysical, 0, 0x20000, 12, 0, s)
  }

  /** The view of 64 KB pages at 0xA0000000. */
  function MiddleView(s: nat): Geometry {
    Geometry(GuestPhysical, 0xA000_0000, 0x2000, 16, 0, s)
  }

  /** The view of 16 MB pages at 0xC0000000. */
  function LargeView(s: nat): Geometry {
    Geometry(GuestPhysical, 0xC000_0000, 0x20, 24, 0, s)
  }

  /** The view of 4 KB pages at 0xE0000000. Its host offset is 4 KB when the host allocates in larger units, otherwise
      zero. */
  function LastView(offset: uint32, s: nat): Geometry {
    Geometry(GuestPhysical, 0xE000_0000, 0x1FD00, 12, offset, s)
  }

  lemma {:induction false} PhysicalMemoryValid(s: nat)
    requires 12 <= s <= 16
    ensures PhysicalMemory(s).Valid() && PhysicalMemory(s).Size() == 0x2000_0000
  {
    Pow2Values();
    ShlIsTimes(0x20000, 12);
    LowZero(12);
  }

  lemma {:induction false} MiddleViewValid(s: nat)
    requires 12 <= s <= 16
    ensures MiddleView(s).Valid() && MiddleView(s).Size() == 0x2000_0000
  {
    Pow2Values();
    ShlIsTimes(0x2000, 16);
    LowZero(16);
  }

  lemma {:induction false} LargeViewValid(s: nat)
    requires 12 <= s <= 16
    ensures LargeView(s).Valid() && LargeView(s).Size() == 0x2000_0000
  {
    Pow2Values();
    ShlIsTimes(0x20, 24);
    LowZero(24);
  }

  lemma {:induction false} LastViewValid(offset: uint32, s: nat)
    requires 12 <= s <= 16 && (offset == 0 || offset == 0x1000)
    ensures LastView(offset, s).Valid() && LastView(offset, s).Size() == 0x1FD0_0000
  {
    Pow2Values();
    ShlIsTimes(0x1FD00, 12);
    LowZero(12);
    ShiftIs(0x1000, 12, 0x1000, 1, 0);
  }
}
