/** How guest addresses map to host addresses and to bytes of the backing file. Host addresses are relative to the
    mapping base; `2^k` is the allocation granularity of the host. */
module AddressMap {
  import opened Options
  import opened Bits
  import opened Arithmetic

  datatype HeapId = V00 | V40 | V80 | V90 | VA0 | VC0 | VE0

  function HeapBase(h: HeapId): uint32 {
    match h
    case V00 => 0 case V40 => 0x4000_0000 case V80 => 0x8000_0000 case V90 => 0x9000_0000
    case VA0 => 0xA000_0000 case VC0 => 0xC000_0000 case VE0 => 0xE000_0000
  }

  function HeapSize(h: HeapId): uint32 {
    match h
    case V00 => 0x4000_0000 case V40 => 0x3F00_0000 case V80 => 0x1000_0000 case V90 => 0x1000_0000
    case VA0 => 0x2000_0000 case VC0 => 0x2000_0000 case VE0 => 0x1FD0_0000
  }

  predicate IsPhysical(h: HeapId) {
    h.VA0? || h.VC0? || h.VE0?
  }

  /** The heap of an address by comparing it with the heap bounds. */
  function LookupHeap(address: uint32): Option<HeapId> {
    if address < 0x4000_0000 then Some(V00)
    else if address < 0x7F00_0000 then Some(V40)
    else if address < 0x8000_0000 then None
    else if address < 0x9000_0000 then Some(V80)
    else if address < 0xA000_0000 then Some(V90)
    else if address < 0xC000_0000 then Some(VA0)
    else if address < 0xE000_0000 then Some(VC0)
    else if address < 0xFFD0_0000 then Some(VE0)
    else None
  }

  /** The same by the top four bits, as compiled where the layout of the heaps allows it. */
  function LookupHeapByNibble(address: uint32): Option<HeapId> {
    var nibble := Shr(address, 28);
    if nibble < 0x4 then Some(V00)
    else if address < 0x7F00_0000 then Some(V40)
    else if nibble < 0x8 then None
    else if nibble < 0x9 then Some(V80)
    else if nibble < 0xA then Some(V90)
    else if nibble < 0xC then Some(VA0)
    else if nibble < 0xE then Some(VC0)
    else if address < 0xFFD0_0000 then Some(VE0)
    else None
  }

  /** Both lookups find the one heap whose range holds the address, or none if no heap's does. */
  lemma {:induction false} LookupFindsTheHeap(address: uint32)
    ensures LookupHeapByNibble(address) == LookupHeap(address)
    ensures forall h: HeapId :: LookupHeap(address) == Some(h)
                                <==> HeapBase(h) <= address < HeapBase(h) + HeapSize(h)
  {
    Nibble(address);
  }

  lemma {:induction false} Nibble(address: uint32)
    ensures 0x1000_0000 * Shr(address, 28) <= address < 0x1000_0000 * (Shr(address, 28) + 1)
  {
    Pow2Values();
    assert Pow2(28) == 0x1000_0000;
    ShiftIsDiv(address, 28);
  }

  // ----- the views of the backing file

  /** A stretch of host addresses that shows the backing file from `target` on. */
  datatype FileView = FileView(first: nat, last: nat, target: nat)

  const VIEWS: seq<FileView> := [
    FileView(0x0000_0000, 0x3FFF_FFFF, 0x0_0000_0000),
    FileView(0x4000_0000, 0x7EFF_FFFF, 0x0_4000_0000),
    FileView(0x7F00_0000, 0x7FFF_FFFF, 0x1_0000_0000),
    FileView(0x8000_0000, 0x8FFF_FFFF, 0x0_8000_0000),
    FileView(0x9000_0000, 0x9FFF_FFFF, 0x0_8000_0000),
    FileView(0xA000_0000, 0xBFFF_FFFF, 0x1_0000_0000),
    FileView(0xC000_0000, 0xDFFF_FFFF, 0x1_0000_0000),
    FileView(0xE000_0000, 0xFFFF_FFFF, 0x1_0000_1000),
    FileView(0x1_0000_0000, 0x1_1FFF_FFFF, 0x1_0000_0000)
  ]

  /** The byte of the backing file behind a host address: targets are rounded down to the granularity. */
  ghost predicate ShowsByte(host: nat, k: nat, byte: nat) {
    exists v :: v in VIEWS && v.first <= host <= v.last && byte == Shl(Shr(v.target, k), k) + (host - v.first)
  }

  /** Which view holds a host address. */
  function ViewIndex(host: nat): nat {
    if host <= 0x3FFF_FFFF then 0 else if host <= 0x7EFF_FFFF then 1 else if host <= 0x7FFF_FFFF then 2
    else if host <= 0x8FFF_FFFF then 3 else if host <= 0x9FFF_FFFF then 4 else if host <= 0xBFFF_FFFF then 5
    else if host <= 0xDFFF_FFFF then 6 else if host <= 0xFFFF_FFFF then 7 else 8
  }

  lemma {:induction false} ViewIndexIs(i: nat, host: nat)
    requires i < |VIEWS| && VIEWS[i].first <= host <= VIEWS[i].last
    ensures ViewIndex(host) == i
  {
    if i < 3 {
      assert i == 0 || i == 1 || i == 2;
    } else if i < 6 {
      assert i == 3 || i == 4 || i == 5;
    } else {
      assert i == 6 || i == 7 || i == 8;
    }
  }

  // ----- translations

  /** The offset of a heap's host addresses: only the last view, and only if the granularity exceeds 4 KB. */
  function HostOffset(h: HeapId, k: nat): nat {
    if h.VE0? && k > 12 then 0x1000 else 0
  }

  function TranslateVirtual(address: uint32, k: nat): nat {
    match LookupHeap(address)
    case Some(h) => address + HostOffset(h, k)
    case None => address
  }

  /** Windows always has a coarse granularity and skips the lookup. */
  function TranslateVirtualCoarse(address: uint32): nat {
    if address >= 0xE000_0000 then address + 0x1000 else address
  }

  function TranslatePhysical(address: uint32): nat {
    0x1_0000_0000 + And(address, 0x1FFF_FFFF)
  }

  /** The physical address of an address in a heap of physical memory. */
  function PhysicalAddress(h: HeapId, address: uint32): uint32
    requires IsPhysical(h) && HeapBase(h) <= address < HeapBase(h) + HeapSize(h)
  {
    address - HeapBase(h) + if HeapBase(h) >= 0xE000_0000 then 0x1000 else 0
  }

  function HostToGuestVirtual(host: nat, k: nat): uint32 {
    var first := HeapBase(VE0) + HostOffset(VE0, k);
    var virtual := if first <= host <= first + (HeapSize(VE0) - 1) then host - HostOffset(VE0, k) else host;
    virtual % U32
  }

  /** The targets of the views of physical memory after rounding. */
  lemma {:induction false} Targets(k: nat)
    requires 12 <= k <= 32
    ensures Shl(Shr(0x1_0000_0000, k), k) == 0x1_0000_0000
    ensures Shl(Shr(0x1_0000_1000, k), k) == if k == 12 then 0x1_0000_1000 else 0x1_0000_0000
  {
    WordAligned(k);
    ShiftAligned(U32, k);
    Pow2Values();
    Pow2Mono(12, k);
    if k > 12 {
      Pow2Mono(13, k);
      assert Pow2(13) == 0x2000;
      ShiftUnique(Shr(U32, k), 0x1000, k);
    } else {
      ShiftIsDiv(0x1_0000_1000, 12);
      ShiftAligned(0x1_0000_1000, 12);
    }
  }

  /** The low 29 bits of a physical address are all of it. */
  lemma {:induction false} PhysicalMask(address: uint32)
    requires address < 0x2000_0000
    ensures And(address, 0x1FFF_FFFF) == address
  {
    Pow2Values();
    assert Pow2(29) == 0x2000_0000;
    AndLowMask(address, 29);
    ShiftIsDiv(address, 29);
  }

  /** Every address in a view of physical memory and its physical address name the same byte of the file, whatever the
      granularity. */
  lemma {:induction false} TranslationsCommute(h: HeapId, address: uint32, k: nat)
    requires 12 <= k <= 32 && IsPhysical(h) && HeapBase(h) <= address < HeapBase(h) + HeapSize(h)
    ensures var byte := 0x1_0000_0000 + PhysicalAddress(h, address);
            ShowsByte(TranslateVirtual(address, k), k, byte)
            && ShowsByte(TranslatePhysical(PhysicalAddress(h, address)), k, byte)
    ensures k > 12 ==> TranslateVirtualCoarse(address) == TranslateVirtual(address, k)
  {
    LookupFindsTheHeap(address);
    Targets(k);
    PhysicalMask(PhysicalAddress(h, address));
    var byte := 0x1_0000_0000 + PhysicalAddress(h, address);
    var host := TranslateVirtual(address, k);
    var v := VIEWS[if h.VA0? then 5 else if h.VC0? then 6 else 7];
    assert v in VIEWS && v.first <= host <= v.last && byte == Shl(Shr(v.target, k), k) + (host - v.first);
    var w := VIEWS[8];
    var host' := TranslatePhysical(PhysicalAddress(h, address));
    assert w in VIEWS && w.first <= host' <= w.last && byte == Shl(Shr(w.target, k), k) + (host' - w.first);
  }

  /** The views do not overlap, so a host address shows one byte. */
  lemma {:induction false} OneByte(host: nat, k: nat, a: nat, b: nat)
    requires ShowsByte(host, k, a) && ShowsByte(host, k, b)
    ensures a == b
  {
    var v :| v in VIEWS && v.first <= host <= v.last && a == Shl(Shr(v.target, k), k) + (host - v.first);
    var w :| w in VIEWS && w.first <= host <= w.last && b == Shl(Shr(w.target, k), k) + (host - w.first);
    var i :| 0 <= i < |VIEWS| && VIEWS[i] == v;
    var j :| 0 <= j < |VIEWS| && VIEWS[j] == w;
    ViewIndexIs(i, host);
    ViewIndexIs(j, host);
  }

  /** Two addresses in views of physical memory share a byte exactly when their physical addresses are equal. */
  lemma {:induction false} SharedByte(h: HeapId, address: uint32, h': HeapId, address': uint32, k: nat, byte: nat)
    requires 12 <= k <= 32 && IsPhysical(h) && HeapBase(h) <= address < HeapBase(h) + HeapSize(h)
    requires IsPhysical(h') && HeapBase(h') <= address' < HeapBase(h') + HeapSize(h')
    requires ShowsByte(TranslateVirtual(address, k), k, byte)
    ensures ShowsByte(TranslateVirtual(address', k), k, byte)
            <==> PhysicalAddress(h, address) == PhysicalAddress(h', address')
  {
    TranslationsCommute(h, address, k);
    TranslationsCommute(h', address', k);
    OneByte(TranslateVirtual(address, k), k, byte, 0x1_0000_0000 + PhysicalAddress(h, address));
    if ShowsByte(TranslateVirtual(address', k), k, byte) {
      OneByte(TranslateVirtual(address', k), k, byte, 0x1_0000_0000 + PhysicalAddress(h', address'));
    }
  }

  /** Translating back undoes translating exactly unless the offset of the last view pulls in an address past its
      end. */
  lemma {:induction false} BackAndForth(address: uint32, k: nat)
    ensures HostToGuestVirtual(TranslateVirtual(address, k), k) == address
            <==> !(k > 12 && 0xFFD0_0000 <= address < 0xFFD0_1000)
    ensures k > 12 ==> (HostToGuestVirtual(TranslateVirtualCoarse(address), k) == address <==> address < 0xFFD0_0000)
  {
  }
}
