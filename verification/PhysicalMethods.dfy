/** The methods of the heap classes perform the operations of the runs. */
module PhysicalMethods {
  import opened Bits
  import opened Arithmetic
  import opened PageTable
  import opened BaseHeaps
  import opened WatchWords
  import opened PhysicalHeaps
  import opened PhysicalRuns
  import SaveRestore

  ghost function ViewOf(heap: PhysicalHeap): ViewState
    reads heap.view, heap.view.pageTable, heap.view.host, heap.flags
  {
    ViewState(heap.view.g, heap.view.Now(), Unpacked(heap.flags[..]))
  }

  /** The heaps are valid, and host pages have 4 KB. */
  ghost predicate Ready(heap: PhysicalHeap)
    reads heap, heap.view, heap.view.pageTable, heap.view.host, heap.flags, heap.parent, heap.parent.pageTable
  {
    heap.Shape() && heap.view.Valid() && heap.parent.Valid() && Compatible(heap.parent.g, ViewOf(heap))
  }

  method Alloc(heap: PhysicalHeap, q: Request, parentOk: bool, viewOk: bool)
    returns (r: Outcome, address: uint32, ghost op: Op)
    requires Ready(heap)
    modifies heap.view, heap.view.pageTable, heap.view.host, heap.parent, heap.parent.pageTable, heap.parent.host
    ensures op.Allocate? && op.q == q.Rounded(heap.view.g) && op.topDown && op.r == r && op.address == address
    ensures Related(heap.parent.g, old(heap.parent.Now()), heap.parent.Now(), old(ViewOf(heap)), ViewOf(heap))
    ensures Performs(op, heap.parent.g, old(heap.parent.Now()), heap.parent.Now(), old(ViewOf(heap)), ViewOf(heap))
  {
    ghost var found;
    r, address, found := heap.Alloc(q, parentOk, viewOk);
    op := Op.Allocate(heap.GetPhysicalAddress(heap.view.g.base), heap.GetPhysicalAddress(heap.view.g.LastAddress()),
                      true, q.Rounded(heap.view.g), parentOk, viewOk, r, address, found);
  }

  method AllocRange(heap: PhysicalHeap, low: uint32, high: uint32, q: Request, topDown: bool, parentOk: bool,
                    viewOk: bool)
    returns (r: Outcome, address: uint32, ghost op: Op)
    requires Ready(heap)
    modifies heap.view, heap.view.pageTable, heap.view.host, heap.parent, heap.parent.pageTable, heap.parent.host
    ensures op.Allocate? && op.q == q.Rounded(heap.view.g) && op.topDown == topDown && op.r == r
            && op.address == address
    ensures Related(heap.parent.g, old(heap.parent.Now()), heap.parent.Now(), old(ViewOf(heap)), ViewOf(heap))
    ensures Performs(op, heap.parent.g, old(heap.parent.Now()), heap.parent.Now(), old(ViewOf(heap)), ViewOf(heap))
  {
    ghost var found;
    r, address, found := heap.AllocRange(low, high, q, topDown, parentOk, viewOk);
    op := Op.Allocate(heap.GetPhysicalAddress(ClipLow(heap.view.g, low)),
                      heap.GetPhysicalAddress(ClipHigh(heap.view.g, high)), topDown, q.Rounded(heap.view.g), parentOk,
                      viewOk, r, address, found);
  }

  method AllocFixed(heap: PhysicalHeap, address: uint32, q: Request, parentOk: bool, viewOk: bool)
    returns (r: Outcome, ghost op: Op)
    requires Ready(heap) && InView(heap.view.g, address)
    modifies heap.view, heap.view.pageTable, heap.view.host, heap.parent, heap.parent.pageTable, heap.parent.host
    ensures op == Op.AllocateAt(heap.GetPhysicalAddress(address), q.Rounded(heap.view.g), parentOk, viewOk, r)
    ensures Related(heap.parent.g, old(heap.parent.Now()), heap.parent.Now(), old(ViewOf(heap)), ViewOf(heap))
    ensures Performs(op, heap.parent.g, old(heap.parent.Now()), heap.parent.Now(), old(ViewOf(heap)), ViewOf(heap))
  {
    r := heap.AllocFixed(address, q, parentOk, viewOk);
    op := Op.AllocateAt(heap.GetPhysicalAddress(address), q.Rounded(heap.view.g), parentOk, viewOk, r);
  }

  method Release(heap: PhysicalHeap, address: uint32, callbacks: seq<Callback>) returns (r: Outcome, size: nat)
    requires Ready(heap) && InView(heap.view.g, address)
    modifies heap`notices, heap.view, heap.view.pageTable, heap.view.host, heap.flags, heap.parent,
             heap.parent.pageTable
    ensures Related(heap.parent.g, old(heap.parent.Now()), heap.parent.Now(), old(ViewOf(heap)), ViewOf(heap))
    ensures Performs(Op.Release(address), heap.parent.g, old(heap.parent.Now()), heap.parent.Now(), old(ViewOf(heap)),
                     ViewOf(heap))
  {
    r, size := heap.Release(address, callbacks);
  }

  method Decommit(heap: PhysicalHeap, address: uint32, size: uint32, callbacks: seq<Callback>)
    requires Ready(heap) && InView(heap.view.g, address)
    modifies heap`notices, heap.view.pageTable, heap.view.host, heap.flags, heap.parent.pageTable
    ensures Related(heap.parent.g, old(heap.parent.Now()), heap.parent.Now(), old(ViewOf(heap)), ViewOf(heap))
    ensures Performs(Op.Decommit(address, size), heap.parent.g, old(heap.parent.Now()), heap.parent.Now(),
                     old(ViewOf(heap)), ViewOf(heap))
  {
    heap.Decommit(address, size, callbacks);
  }

  method Protect(heap: PhysicalHeap, address: uint32, size: uint32, protect: Protection, parentOk: bool, viewOk: bool,
                 callbacks: seq<Callback>)
    returns (ok: bool, oldProtect: Protection)
    requires Ready(heap) && InView(heap.view.g, address)
    modifies heap`notices, heap.view.pageTable, heap.view.host, heap.flags, heap.parent.pageTable, heap.parent.host
    ensures Related(heap.parent.g, old(heap.parent.Now()), heap.parent.Now(), old(ViewOf(heap)), ViewOf(heap))
    ensures Performs(Op.Protect(address, size, protect, parentOk, viewOk), heap.parent.g, old(heap.parent.Now()),
                     heap.parent.Now(), old(ViewOf(heap)), ViewOf(heap))
  {
    ok, oldProtect := heap.Protect(address, size, protect, parentOk, viewOk, callbacks);
  }

  method EnableAccessCallbacks(heap: PhysicalHeap, physical: uint32, length: uint32) returns (r: Outcome)
    requires Ready(heap)
    modifies heap.view.host, heap.flags
    ensures Related(heap.parent.g, old(heap.parent.Now()), heap.parent.Now(), old(ViewOf(heap)), ViewOf(heap))
    ensures Performs(Op.Enable(physical, length), heap.parent.g, old(heap.parent.Now()), heap.parent.Now(),
                     old(ViewOf(heap)), ViewOf(heap))
  {
    r := heap.EnableAccessCallbacks(physical, length);
  }

  method TriggerCallbacks(heap: PhysicalHeap, address: uint32, length: uint32, exact: bool, unprotect: bool,
                          callbacks: seq<Callback>)
    returns (r: bool)
    requires Ready(heap)
    modifies heap`notices, heap.view.host, heap.flags
    ensures Related(heap.parent.g, old(heap.parent.Now()), heap.parent.Now(), old(ViewOf(heap)), ViewOf(heap))
    ensures Performs(Op.Fire(address, length, exact, unprotect, callbacks), heap.parent.g, old(heap.parent.Now()),
                     heap.parent.Now(), old(ViewOf(heap)), ViewOf(heap))
  {
    r := heap.TriggerCallbacks(address, length, exact, unprotect, callbacks);
  }

  // ----- the parent by itself

  /** An allocation in one heap: free pages are taken, or nothing changes. */
  method AllocIn(heap: BaseHeap, low: uint32, high: uint32, q: Request, topDown: bool, hostOk: bool)
    returns (ok: bool, address: uint32, ghost page: nat)
    requires heap.Valid()
    modifies heap, heap.pageTable, heap.host
    ensures heap.Shape()
    ensures if ok
            then page + PageCount(q.size, heap.g.pageShift) <= heap.g.pages
                 && heap.Table() == Pinned(old(heap.Table()), page, PageCount(q.size, heap.g.pageShift), true,
                                           q.kind != Reserve, q.protect)
            else heap.Now() == old(heap.Now())
  {
    ghost var found;
    var r;
    r, address, found := heap.AllocRange(low, high, q.size, q.alignment, q.kind, q.protect, topDown, hostOk);
    ok := r == Done;
    page := if ok then found.value else 0;
  }

  /** A successful allocation in the parent. */
  method AllocParent(heap: PhysicalHeap, low: uint32, high: uint32, q: Request, topDown: bool, hostOk: bool)
    returns (ok: bool, address: uint32, ghost page: nat)
    requires Ready(heap)
    modifies heap.parent, heap.parent.pageTable, heap.parent.host
    ensures Related(heap.parent.g, old(heap.parent.Now()), heap.parent.Now(), old(ViewOf(heap)), ViewOf(heap))
    ensures ok ==> Performs(Op.TakeParent(page, PageCount(q.size, heap.parent.g.pageShift), q.kind != Reserve,
                                          q.protect),
                            heap.parent.g, old(heap.parent.Now()), heap.parent.Now(), old(ViewOf(heap)), ViewOf(heap))
    ensures !ok ==> heap.parent.Now() == old(heap.parent.Now()) && ViewOf(heap) == old(ViewOf(heap))
  {
    ok, address, page := AllocIn(heap.parent, low, high, q, topDown, hostOk);
  }

  method ReleaseParent(heap: PhysicalHeap, address: uint32) returns (r: Outcome, size: nat)
    requires Ready(heap)
    modifies heap.parent, heap.parent.pageTable
    ensures Related(heap.parent.g, old(heap.parent.Now()), heap.parent.Now(), old(ViewOf(heap)), ViewOf(heap))
    ensures Performs(Op.ReleaseParent(heap.parent.g.PageOf(address)), heap.parent.g, old(heap.parent.Now()),
                     heap.parent.Now(), old(ViewOf(heap)), ViewOf(heap))
  {
    r, size := heap.parent.Release(address);
  }

  /** `Memory::Reset` resets the parent and no view. */
  method ResetParent(heap: PhysicalHeap)
    requires Ready(heap)
    modifies heap.parent, heap.parent.pageTable
    ensures heap.parent.Valid() && forall p :: 0 <= p < heap.parent.g.pages ==> heap.parent.pageTable[p] == FREE_ENTRY
    ensures Related(heap.parent.g, old(heap.parent.Now()), heap.parent.Now(), old(ViewOf(heap)), ViewOf(heap))
    ensures Performs(Op.ReplaceParent(heap.parent.Table()), heap.parent.g, old(heap.parent.Now()), heap.parent.Now(),
                     old(ViewOf(heap)), ViewOf(heap))
  {
    heap.parent.Reset();
  }

  /** `Memory::Restore` restores the parent and no view. */
  method RestoreParent(heap: PhysicalHeap, memory: array<seq<SaveRestore.byte>>, stream: seq<SaveRestore.byte>)
    returns (offset: nat)
    requires Ready(heap) && memory.Length == heap.parent.g.pages
    requires SaveRestore.Holds(SaveRestore.Unpack, stream, heap.parent.g.pages, Pow2(heap.parent.g.pageShift))
    modifies heap.parent, heap.parent.pageTable, heap.parent.host, memory
    ensures Related(heap.parent.g, old(heap.parent.Now()), heap.parent.Now(), old(ViewOf(heap)), ViewOf(heap))
    ensures heap.parent.Table() ==
              SaveRestore.AfterPages(SaveRestore.Unpack, heap.parent.g,
                                     SaveRestore.Image(old(heap.parent.Table()), old(memory[..]),
                                                       old(heap.parent.host[..])),
                                     stream, heap.parent.g.pages).table
    ensures Performs(Op.ReplaceParent(heap.parent.Table()), heap.parent.g, old(heap.parent.Now()), heap.parent.Now(),
                     old(ViewOf(heap)), ViewOf(heap))
  {
    offset := SaveRestore.Restore(heap.parent, memory, stream);
  }
}
