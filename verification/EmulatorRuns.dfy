/** The runs of the emulator's own heaps. */
module EmulatorRuns {
  import opened Bits
  import opened Arithmetic
  import opened PageTable
  import opened Geometry
  import opened Layout
  import opened BaseHeaps
  import opened WatchLaws
  import opened PhysicalHeaps
  import opened PhysicalSteps
  import opened PhysicalRuns

  /** What it takes to lie over the parent from the physical address `offset` on. */
  lemma {:induction false} FitsParent(g: Geometry, parent: Geometry, offset: uint32, k: nat, parentShift: nat)
    requires g.Valid() && parent.Valid() && parent.base == 0 < g.base && offset == PhysicalOffset(g)
    requires g.hostOffset <= offset && offset + g.Size() <= parent.Size() == 0x2000_0000
    requires k == g.pageShift && parentShift == parent.pageShift <= k
    requires Low(offset, parentShift) == 0 && Low(offset - g.hostOffset, g.sysShift) == 0 && Low(g.base, k) == 0
    ensures LaidOut(g, parent)
  {
  }

  lemma {:induction false} MiddleViewFits()
    ensures LaidOut(MiddleView(12), PhysicalMemory(12))
  {
    PhysicalMemoryValid(12);
    MiddleViewValid(12);
    LowZero(12);
    Aligned(0xA000_0000, 16, 0xA000);
    FitsParent(MiddleView(12), PhysicalMemory(12), 0, 16, 12);
  }

  lemma {:induction false} LargeViewFits()
    ensures LaidOut(LargeView(12), PhysicalMemory(12))
  {
    PhysicalMemoryValid(12);
    LargeViewValid(12);
    LowZero(12);
    Aligned(0xC000_0000, 24, 0xC0);
    FitsParent(LargeView(12), PhysicalMemory(12), 0, 24, 12);
  }

  lemma {:induction false} LastViewFits(offset: uint32)
    requires offset == 0 || offset == 0x1000
    ensures LaidOut(LastView(offset, 12), PhysicalMemory(12))
  {
    PhysicalMemoryValid(12);
    LastViewValid(offset, 12);
    LowZero(12);
    Aligned(0x1000, 12, 1);
    Aligned(0xE000_0000, 12, 0xE_0000);
    if offset == 0 {
      FitsParent(LastView(0, 12), PhysicalMemory(12), 0x1000, 12, 12);
    } else {
      FitsParent(LastView(0x1000, 12), PhysicalMemory(12), 0x1000, 12, 12);
    }
  }

  lemma {:induction false} Aligned(x: nat, k: nat, q: nat)
    requires k == 12 || k == 16 || k == 24
    requires x == q * if k == 12 then 0x1000 else if k == 16 then 0x1_0000 else 0x100_0000
    ensures Low(x, k) == 0 && Shr(x, k) == q
  {
    Pow2Values();
    ShiftIs(x, k, Pow2(k), q, 0);
  }

  /** The three views of physical memory; the host offset of the last one depends on the host. */
  function Views(offset: uint32): seq<Geometry> {
    [MiddleView(12), LargeView(12), LastView(offset, 12)]
  }

  /** On a host with pages of 4 KB the views fit the parent as the runs demand it. */
  lemma {:induction false} ViewsCompatible(offset: uint32, i: nat, heap: Snapshot, watched: seq<bool>)
    requires (offset == 0 || offset == 0x1000) && i < 3 && |heap.table| == Views(offset)[i].pages
    ensures Compatible(PhysicalMemory(12), ViewState(Views(offset)[i], heap, watched))
  {
    if i == 0 {
      MiddleViewFits();
    } else if i == 1 {
      LargeViewFits();
    } else {
      LastViewFits(offset);
    }
  }

  function FreeTable(n: nat): Table {
    seq(n, _ => FREE_ENTRY)
  }

  /** A heap with nothing allocated. */
  function FreeHeap(g: Geometry): Snapshot {
    Snapshot(FreeTable(g.pages), seq(g.HostPages(), _ => ReadWrite), map[0 := g.pages], g.pages % U32)
  }

  function FreeView(g: Geometry): ViewState {
    ViewState(g, FreeHeap(g), seq(g.HostPages(), _ => false))
  }

  lemma {:induction false} FreeViewUntouched(g: Geometry)
    requires SmallPages(g)
    ensures Untouched(FreeView(g)) && |FreeView(g).heap.table| == g.pages
  {
  }

  /** Heaps of physical memory before anything is allocated. */
  function Fresh(parent: Geometry, views: seq<Geometry>): System {
    System(parent, FreeHeap(parent), seq(|views|, i requires 0 <= i < |views| => FreeView(views[i])))
  }

  lemma {:induction false} FreshIsInitial(parent: Geometry, views: seq<Geometry>)
    requires forall i :: 0 <= i < |views| ==> Compatible(parent, FreeView(views[i]))
    ensures Initial(Fresh(parent, views))
  {
    var y := Fresh(parent, views);
    forall i | 0 <= i < |y.views| ensures Compatible(y.g, y.views[i]) && Untouched(y.views[i]) {
      assert y.views[i] == FreeView(views[i]);
    }
  }

  /** The emulator's own heaps start runs of the kind that stay sound. */
  lemma {:induction false} EmulatorIsInitial(offset: uint32)
    requires offset == 0 || offset == 0x1000
    ensures Initial(Fresh(PhysicalMemory(12), Views(offset)))
  {
    var views := Views(offset);
    forall i | 0 <= i < |views| ensures Compatible(PhysicalMemory(12), FreeView(views[i])) {
      ViewsCompatible(offset, i, FreeView(views[i]).heap, FreeView(views[i]).watched);
    }
    FreshIsInitial(PhysicalMemory(12), views);
  }
}
