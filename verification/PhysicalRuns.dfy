/** All runs of the physical views over one parent: what the operations of the heap classes do, taken together. */
module PhysicalRuns {
  import opened Options
  import opened Bits
  import opened Arithmetic
  import opened PageTable
  import opened Geometry
  import opened BaseHeaps
  import opened WatchLaws
  import opened PhysicalHeaps
  import opened Coupling
  import opened PhysicalSteps

  datatype ViewState = ViewState(g: Geometry, heap: Snapshot, watched: seq<bool>) {
    function Watches(): WatchLaws.State {
      WatchLaws.State(heap.table, heap.host, watched)
    }
  }

  datatype System = System(g: Geometry, parent: Snapshot, views: seq<ViewState>)

  /** The view fits the parent, and its host pages are 4 KB like the parent's pages. */
  predicate Compatible(parent: Geometry, v: ViewState) {
    && LaidOut(v.g, parent) && SmallPages(v.g) && !SkipsHostCommit(v.g) && parent.pageShift == v.g.sysShift
    && |v.heap.table| == v.g.pages
  }

  predicate Built(y: System) {
    |y.parent.table| == y.g.pages && forall i :: 0 <= i < |y.views| ==> Compatible(y.g, y.views[i])
  }

  function MachineOf(y: System): Machine
    requires Built(y)
  {
    Machine(y.parent.table,
            seq(|y.views|, i requires 0 <= i < |y.views| => View(MappingOf(y.views[i].g, y.g), y.views[i].heap.table)))
  }

  /** Every region of a view has its own region of equal size in the parent, and every host access is the guest's,
      lowered exactly on watched pages. */
  ghost predicate Sound(y: System) {
    && Built(y) && Coupled(MachineOf(y))
    && forall i :: 0 <= i < |y.views| ==> Exact(y.views[i].g, y.views[i].Watches())
  }

  datatype Op =
    | Allocate(low: uint32, high: uint32, topDown: bool, q: Request, parentOk: bool, viewOk: bool, r: Outcome,
               address: uint32, found: Option<nat>)
    | AllocateAt(physical: uint32, q: Request, parentOk: bool, viewOk: bool, r: Outcome)
    | Release(address: uint32)
    | Decommit(address: uint32, size: uint32)
    | Protect(address: uint32, size: uint32, protect: Protection, parentOk: bool, viewOk: bool)
    | Enable(physical: uint32, length: uint32)
    | Fire(address: uint32, length: uint32, exact: bool, unprotect: bool, callbacks: seq<Callback>)
    | TakeParent(page: nat, count: nat, commit: bool, protect: Protection)
    | ReleaseParent(page: nat)
    | ReplaceParent(table: Table)

  // ----- what the operations do, as the methods of the class promise

  /** One view and the parent before and after an operation. */
  predicate Related(parent: Geometry, p: Snapshot, p': Snapshot, v: ViewState, v': ViewState) {
    && Compatible(parent, v) && Compatible(parent, v') && v'.g == v.g
    && |p.table| == |p'.table| == parent.pages && |v.heap.host| <= |v.watched|
  }

  ghost predicate Allocates(op: Op, parent: Geometry, p: Snapshot, p': Snapshot, v: ViewState, v': ViewState)
    requires op.Allocate? && Related(parent, p, p', v, v')
  {
    && op.q.Fits(v.g, parent) && Low(op.q.alignment, v.g.pageShift) == 0 && v'.watched == v.watched
    && AllocatedIn(v.g, parent, v.heap, v'.heap, p, p', op.low, op.high, op.q, op.topDown, op.parentOk, op.viewOk, op.r,
                   op.address, op.found)
  }

  ghost predicate AllocatesAt(op: Op, parent: Geometry, p: Snapshot, p': Snapshot, v: ViewState, v': ViewState)
    requires op.AllocateAt? && Related(parent, p, p', v, v')
  {
    && op.q.Fits(v.g, parent) && Low(op.q.alignment, v.g.pageShift) == 0 && v'.watched == v.watched
    && FixedIn(v.g, parent, v.heap, v'.heap, p, p', op.physical, op.q, op.parentOk, op.viewOk, op.r)
  }

  ghost predicate Releases(op: Op, parent: Geometry, p: Snapshot, p': Snapshot, v: ViewState, v': ViewState)
    requires op.Release? && Related(parent, p, p', v, v')
  {
    && InView(v.g, op.address)
    && ReleasedIn(v.g, parent, p.table, p'.table, v.Watches(), v'.Watches(), op.address)
  }

  ghost predicate Decommits(op: Op, parent: Geometry, p: Snapshot, p': Snapshot, v: ViewState, v': ViewState)
    requires op.Decommit? && Related(parent, p, p', v, v')
  {
    && InView(v.g, op.address)
    && DecommittedIn(v.g, parent, p.table, p'.table, v.Watches(), v'.Watches(), op.address, op.size)
  }

  ghost predicate Reprotects(op: Op, parent: Geometry, p: Snapshot, p': Snapshot, v: ViewState, v': ViewState)
    requires op.Protect? && Related(parent, p, p', v, v')
  {
    && InView(v.g, op.address)
    && BothReprotected(v.g, parent, p.table, p'.table, v.Watches(), v'.Watches(), op.address, op.size, op.protect,
                       op.parentOk, op.viewOk)
  }

  ghost predicate Enables(op: Op, p: Snapshot, p': Snapshot, v: ViewState, v': ViewState)
    requires op.Enable? && WindowOf(v.g).Valid() && |v.heap.host| <= |v.watched|
  {
    && p'.table == p.table
    && var pages := ClippedPages(v.g, PhysicalOffset(v.g), op.physical, op.length);
       v'.Watches() == if pages.Some? && EnableOutcome(v.g, pages) == Done
                       then WatchEnabled(v.g, v.Watches(), pages.value.0, pages.value.1) else v.Watches()
  }

  ghost predicate Fires(op: Op, p: Snapshot, p': Snapshot, v: ViewState, v': ViewState)
    requires op.Fire? && WindowOf(v.g).Valid() && |v.heap.host| <= |v.watched|
  {
    && p'.table == p.table
    && v'.Watches() == Fired(v.g, v.Watches(), ClippedPages(v.g, v.g.base, op.address, op.length),
                             op.exact || !op.unprotect, op.unprotect, op.callbacks)
  }

  /** The parent is used without the view: free pages are taken, a region is released, or the whole table is replaced
      when memory is reset or restored. */
  predicate UsesParent(op: Op, parent: Geometry, p: Snapshot, p': Snapshot, v: ViewState, v': ViewState)
    requires op.TakeParent? || op.ReleaseParent? || op.ReplaceParent?
  {
    && v' == v
    && match op
       case TakeParent(page, count, commit, protect) =>
         page + count <= |p.table| && p'.table == Pinned(p.table, page, count, true, commit, protect)
       case ReleaseParent(page) =>
         p'.table == if ReleaseOutcome(parent, p.table, page) == Done then Cleared(p.table, page, p.table[page].count)
                     else p.table
       case ReplaceParent(t) => p'.table == t
  }

  ghost predicate Performs(op: Op, parent: Geometry, p: Snapshot, p': Snapshot, v: ViewState, v': ViewState)
    requires Related(parent, p, p', v, v')
  {
    match op
    case Allocate(_, _, _, _, _, _, _, _, _) => Allocates(op, parent, p, p', v, v')
    case AllocateAt(_, _, _, _, _) => AllocatesAt(op, parent, p, p', v, v')
    case Release(_) => Releases(op, parent, p, p', v, v')
    case Decommit(_, _) => Decommits(op, parent, p, p', v, v')
    case Protect(_, _, _, _, _) => Reprotects(op, parent, p, p', v, v')
    case Enable(_, _) => Enables(op, p, p', v, v')
    case Fire(_, _, _, _, _) => Fires(op, p, p', v, v')
    case TakeParent(_, _, _, _) => UsesParent(op, parent, p, p', v, v')
    case ReleaseParent(_) => UsesParent(op, parent, p, p', v, v')
    case ReplaceParent(_) => UsesParent(op, parent, p, p', v, v')
  }

  // ----- what the callers have to see to

  /** Parent and view round the size alike. */
  predicate AllocateAllowed(op: Op, parent: Geometry, v: ViewState)
    requires op.Allocate? && Compatible(parent, v)
  {
    op.r == Done ==> ParentBytes(parent, op.q) == PinnedBytes(v.g, op.q)
  }

  /** The fixed range is free, and its aligned size is not zero unless the page sizes agree. */
  ghost predicate AllocateAtAllowed(op: Op, parent: Geometry, p: Snapshot, v: ViewState)
    requires op.AllocateAt? && Compatible(parent, v)
  {
    && (Align(op.q.size, op.q.alignment) == 0 ==> v.g.pageShift == parent.pageShift)
    && var page, count := parent.PageOf(op.physical), FixedCount(op.q.size, op.q.alignment, parent.pageShift);
       page + count <= |p.table| ==> !SomeTaken(p.table, page, page + count)
  }

  /** A region is released through the view that owns it. */
  predicate ReleaseAllowed(op: Op, parent: Geometry, p: Snapshot, v: ViewState)
    requires op.Release? && Compatible(parent, v)
  {
    InView(v.g, op.address) && ReleaseOutcome(parent, p.table, parent.PageOf(Physical(v.g, op.address))) == Done
    ==> ReleaseOutcome(v.g, v.heap.table, v.g.PageOf(op.address)) == Done
  }

  /** A change of protection is for whole guest pages, is not write-combined without the write flag, and does not fail
      after it dropped watches. */
  predicate ProtectAllowed(op: Op, parent: Geometry, p: Snapshot, v: ViewState)
    requires op.Protect? && Compatible(parent, v) && |p.table| == parent.pages
  {
    InView(v.g, op.address) ==>
      && WholePages(v.g, op.address, op.size) && (ToPageAccess(op.protect) == ReadWrite ==> op.protect.write)
      && (op.protect.write ==> BothReprotectable(v.g, parent, p.table, v.heap.table, op.address, op.size, op.parentOk,
                                                 op.viewOk))
  }

  /** Watches are dropped without unprotecting only where the guest may not write. */
  ghost predicate FireAllowed(op: Op, v: ViewState)
    requires op.Fire? && v.g.Valid()
  {
    var pages := ClippedPages(v.g, v.g.base, op.address, op.length);
    op.unprotect || !(pages.Some? && DropsArmedWatch(v.g, v.Watches(), pages.value.0, pages.value.1))
  }

  /** The parent itself is used for free pages, for regions that no view uses, or gets a partitioned table with every
      region that a view uses. */
  ghost predicate ParentAllowed(op: Op, m: Machine)
    requires op.TakeParent? || op.ReleaseParent? || op.ReplaceParent?
  {
    match op
    case TakeParent(page, count, _, _) => count > 0 && !SomeTakenIn(m.parent, page, count)
    case ReleaseParent(page) => forall i {:trigger m.views[i]} :: 0 <= i < |m.views| ==> !Backs(m.views[i], page)
    case ReplaceParent(t) => Regions(t) && KeepsBacking(m, t)
  }

  ghost predicate Careful(op: Op, y: System, i: nat)
    requires Built(y) && i < |y.views|
  {
    match op
    case Allocate(_, _, _, _, _, _, _, _, _) => AllocateAllowed(op, y.g, y.views[i])
    case AllocateAt(_, _, _, _, _) => AllocateAtAllowed(op, y.g, y.parent, y.views[i])
    case Release(_) => ReleaseAllowed(op, y.g, y.parent, y.views[i])
    case Decommit(_, _) => true
    case Protect(_, _, _, _, _) => ProtectAllowed(op, y.g, y.parent, y.views[i])
    case Enable(_, _) => true
    case Fire(_, _, _, _, _) => FireAllowed(op, y.views[i])
    case TakeParent(_, _, _, _) => ParentAllowed(op, MachineOf(y))
    case ReleaseParent(_) => ParentAllowed(op, MachineOf(y))
    case ReplaceParent(_) => ParentAllowed(op, MachineOf(y))
  }

  /** One view and the parent may change; the other views stand still. */
  predicate OneView(y: System, y': System, i: nat) {
    && Built(y) && Built(y') && y'.g == y.g && i < |y.views| == |y'.views|
    && y'.views == y.views[i := y'.views[i]]
    && Related(y.g, y.parent, y'.parent, y.views[i], y'.views[i])
  }

  /** A careful caller performs an operation on one view. */
  ghost predicate Step(y: System, y': System, i: nat, op: Op) {
    && OneView(y, y', i)
    && Performs(op, y.g, y.parent, y'.parent, y.views[i], y'.views[i])
    && Careful(op, y, i)
  }

  // ----- what every operation keeps

  /** The machine after one view and the parent changed. */
  lemma {:induction false} MachineStep(y: System, y': System, i: nat)
    requires OneView(y, y', i)
    ensures MachineOf(y') == Machine(y'.parent.table, MachineOf(y).views[i := View(MappingOf(y.views[i].g, y.g),
                                                                                   y'.views[i].heap.table)])
    ensures Shows(MachineOf(y), i, y.views[i].g, y.g, y.parent.table, y.views[i].heap.table)
  {
    assert MachineOf(y').views == MachineOf(y).views[i := View(MappingOf(y.views[i].g, y.g), y'.views[i].heap.table)];
  }

  /** When no table changes, the machine stays. */
  lemma {:induction false} SameMachine(y: System, y': System, i: nat)
    requires OneView(y, y', i) && y'.parent.table == y.parent.table && y'.views[i].heap.table == y.views[i].heap.table
    ensures MachineOf(y') == MachineOf(y)
  {
    MachineStep(y, y', i);
    assert MachineOf(y').views == MachineOf(y).views;
  }

  /** The state of a view in a sound system. */
  lemma {:induction false} SoundView(y: System, i: nat)
    requires Sound(y) && i < |y.views|
    ensures Compatible(y.g, y.views[i]) && Exact(y.views[i].g, y.views[i].Watches())
    ensures Regions(y.parent.table) && Regions(y.views[i].heap.table)
  {
    assert MachineOf(y).views[i] == View(MappingOf(y.views[i].g, y.g), y.views[i].heap.table);
  }

  lemma {:induction false} AllocateStepCouples(y: System, y': System, i: nat, op: Op)
    requires Sound(y) && OneView(y, y', i) && op.Allocate? && AllocateAllowed(op, y.g, y.views[i])
    requires Allocates(op, y.g, y.parent, y'.parent, y.views[i], y'.views[i])
    ensures Coupled(MachineOf(y'))
  {
    var v, v' := y.views[i], y'.views[i];
    MachineStep(y, y', i);
    AllocationCouples(MachineOf(y), i, v.g, y.g, v.heap, v'.heap, y.parent, y'.parent, op.low, op.high, op.q,
                      op.topDown, op.parentOk, op.viewOk, op.r, op.address, op.found);
  }

  lemma {:induction false} AllocateStepExact(y: System, y': System, i: nat, op: Op)
    requires Sound(y) && OneView(y, y', i) && op.Allocate? && AllocateAllowed(op, y.g, y.views[i])
    requires Allocates(op, y.g, y.parent, y'.parent, y.views[i], y'.views[i])
    ensures Exact(y'.views[i].g, y'.views[i].Watches())
  {
    var v, v' := y.views[i], y'.views[i];
    SoundView(y, i);
    MachineStep(y, y', i);
    AllocationExact(MachineOf(y), i, v.g, y.g, v.heap, v'.heap, y.parent, y'.parent, op.low, op.high, op.q, op.topDown,
                    op.parentOk, op.viewOk, op.r, op.address, op.found, v.watched);
  }

  lemma {:induction false} AllocateAtStep(y: System, y': System, i: nat, op: Op)
    requires Sound(y) && OneView(y, y', i) && op.AllocateAt? && AllocateAtAllowed(op, y.g, y.parent, y.views[i])
    requires AllocatesAt(op, y.g, y.parent, y'.parent, y.views[i], y'.views[i])
    ensures Coupled(MachineOf(y')) && Exact(y'.views[i].g, y'.views[i].Watches())
  {
    var v, v', m := y.views[i], y'.views[i], MachineOf(y);
    SoundView(y, i);
    MachineStep(y, y', i);
    FixedCouples(m, i, v.g, y.g, v.heap, v'.heap, y.parent, y'.parent, op.physical, op.q, op.parentOk, op.viewOk, op.r);
    FixedExact(m, i, v.g, y.g, v.heap, v'.heap, y.parent, y'.parent, op.physical, op.q, op.parentOk, op.viewOk, op.r,
               v.watched);
  }

  lemma {:induction false} ReleaseStepExact(y: System, y': System, i: nat, op: Op)
    requires Sound(y) && OneView(y, y', i) && op.Release? && ReleaseAllowed(op, y.g, y.parent, y.views[i])
    requires Releases(op, y.g, y.parent, y'.parent, y.views[i], y'.views[i])
    ensures Exact(y'.views[i].g, y'.views[i].Watches())
  {
    var v := y.views[i];
    SoundView(y, i);
    MachineStep(y, y', i);
    if ReleaseOutcome(y.g, y.parent.table, y.g.PageOf(Physical(v.g, op.address))) == Done {
      ReleaseExact(MachineOf(y), i, v.g, y.g, op.address, v.Watches());
    }
  }

  lemma {:induction false} ReleaseStepCouples(y: System, y': System, i: nat, op: Op)
    requires Sound(y) && OneView(y, y', i) && op.Release? && ReleaseAllowed(op, y.g, y.parent, y.views[i])
    requires Releases(op, y.g, y.parent, y'.parent, y.views[i], y'.views[i])
    ensures Coupled(MachineOf(y'))
  {
    var v, m := y.views[i], MachineOf(y);
    if ReleaseOutcome(y.g, y.parent.table, y.g.PageOf(Physical(v.g, op.address))) == Done {
      MachineStep(y, y', i);
      BothRelease(m, i, v.g, y.g, op.address);
      assert MachineOf(y') == AfterRelease(m, i, v.g, y.g, op.address);
    } else {
      SameMachine(y, y', i);
    }
  }

  lemma {:induction false} DecommitStep(y: System, y': System, i: nat, op: Op)
    requires Sound(y) && OneView(y, y', i) && op.Decommit?
    requires Decommits(op, y.g, y.parent, y'.parent, y.views[i], y'.views[i])
    ensures Coupled(MachineOf(y')) && Exact(y'.views[i].g, y'.views[i].Watches())
  {
    var v, m := y.views[i], MachineOf(y);
    SoundView(y, i);
    MachineStep(y, y', i);
    var range := BaseHeaps.DecommitRange(y.g, Physical(v.g, op.address), op.size);
    var range' := BaseHeaps.DecommitRange(v.g, op.address, op.size);
    DecommitCouples(m, i, range.0, range.1, range'.0, range'.1);
    DecommitWatches(v.g, v.Watches(), op.address, op.size);
  }

  lemma {:induction false} ProtectStepExact(y: System, y': System, i: nat, op: Op)
    requires Sound(y) && OneView(y, y', i) && op.Protect? && ProtectAllowed(op, y.g, y.parent, y.views[i])
    requires Reprotects(op, y.g, y.parent, y'.parent, y.views[i], y'.views[i])
    ensures Exact(y'.views[i].g, y'.views[i].Watches())
  {
    var v, v' := y.views[i], y'.views[i];
    SoundView(y, i);
    if BothReprotectable(v.g, y.g, y.parent.table, v.heap.table, op.address, op.size, op.parentOk, op.viewOk) {
      WholeProtectWatches(v.g, v.Watches(), v'.Watches(), op.address, op.size, op.protect);
    }
  }

  /** The tables after a change of protection. */
  lemma {:induction false} ReprotectedTables(op: Op, parent: Geometry, p: Snapshot, p': Snapshot, v: ViewState,
                                             v': ViewState)
    requires op.Protect? && Related(parent, p, p', v, v') && Reprotects(op, parent, p, p', v, v')
    ensures MaybeProtected(v.heap.table, v'.heap.table, op.protect)
    ensures var address := Physical(v.g, op.address);
            if Reprotectable(parent, p.table, address, op.size, op.parentOk)
            then var target := ProtectTarget(parent, p.table, address, op.size).value;
                 p'.table == Protected(p.table, target.0, target.1 + 1, op.protect)
            else p'.table == p.table && v'.heap.table == v.heap.table
  {
  }

  lemma {:induction false} BothProtected(y: System, y': System, i: nat, first: nat, last: nat, protect: Protection)
    requires Sound(y) && OneView(y, y', i) && last < |y.parent.table| && Protectable(y.parent.table, first, last)
    requires y'.parent.table == Protected(y.parent.table, first, last + 1, protect)
    requires MaybeProtected(y.views[i].heap.table, y'.views[i].heap.table, protect)
    ensures Coupled(MachineOf(y'))
  {
    MachineStep(y, y', i);
    ProtectCouples(MachineOf(y), i, first, last, protect, y'.views[i].heap.table);
  }

  lemma {:induction false} ProtectStepCouples(y: System, y': System, i: nat, op: Op)
    requires Sound(y) && OneView(y, y', i) && op.Protect?
    requires Reprotects(op, y.g, y.parent, y'.parent, y.views[i], y'.views[i])
    ensures Coupled(MachineOf(y'))
  {
    var v := y.views[i];
    ReprotectedTables(op, y.g, y.parent, y'.parent, v, y'.views[i]);
    if Reprotectable(y.g, y.parent.table, Physical(v.g, op.address), op.size, op.parentOk) {
      var target := ProtectTarget(y.g, y.parent.table, Physical(v.g, op.address), op.size);
      BothProtected(y, y', i, target.value.0, target.value.1, op.protect);
    } else {
      SameMachine(y, y', i);
    }
  }

  lemma {:induction false} EnableStep(y: System, y': System, i: nat, op: Op)
    requires Sound(y) && OneView(y, y', i) && op.Enable?
    requires Enables(op, y.parent, y'.parent, y.views[i], y'.views[i])
    ensures Coupled(MachineOf(y')) && Exact(y'.views[i].g, y'.views[i].Watches())
  {
    var v := y.views[i];
    SoundView(y, i);
    SameMachine(y, y', i);
    var pages := ClippedPages(v.g, PhysicalOffset(v.g), op.physical, op.length);
    if pages.Some? {
      EnableKeepsExact(v.g, v.Watches(), pages.value.0, pages.value.1);
    }
  }

  lemma {:induction false} FireStep(y: System, y': System, i: nat, op: Op)
    requires Sound(y) && OneView(y, y', i) && op.Fire? && FireAllowed(op, y.views[i])
    requires Fires(op, y.parent, y'.parent, y.views[i], y'.views[i])
    ensures Coupled(MachineOf(y')) && Exact(y'.views[i].g, y'.views[i].Watches())
  {
    var v := y.views[i];
    SoundView(y, i);
    FiredWatches(v.g, v.Watches(), ClippedPages(v.g, v.g.base, op.address, op.length), op.exact || !op.unprotect,
                 op.unprotect, op.callbacks);
    SameMachine(y, y', i);
  }

  lemma {:induction false} ParentStep(y: System, y': System, i: nat, op: Op)
    requires Sound(y) && OneView(y, y', i) && (op.TakeParent? || op.ReleaseParent? || op.ReplaceParent?)
    requires UsesParent(op, y.g, y.parent, y'.parent, y.views[i], y'.views[i]) && ParentAllowed(op, MachineOf(y))
    ensures Coupled(MachineOf(y')) && Exact(y'.views[i].g, y'.views[i].Watches())
  {
    var m := MachineOf(y);
    MachineStep(y, y', i);
    assert MachineOf(y').views == m.views;
    match op {
      case TakeParent(page, count, commit, protect) =>
        ParentPinKeepsCoupled(m, MachineOf(y'), page, count, commit, protect);
      case ReleaseParent(page) =>
        if ReleaseOutcome(y.g, m.parent, page) == Done {
          ParentOnly(m, y.g, page);
        }
      case ReplaceParent(t) =>
        ReplacedParentKeepsCoupled(m, t);
    }
  }

  lemma {:induction false} AllocationStep(y: System, y': System, i: nat, op: Op)
    requires Sound(y) && Step(y, y', i, op) && (op.Allocate? || op.AllocateAt?)
    ensures Coupled(MachineOf(y')) && Exact(y'.views[i].g, y'.views[i].Watches())
  {
    if op.Allocate? {
      AllocateStepCouples(y, y', i, op);
      AllocateStepExact(y, y', i, op);
    } else {
      AllocateAtStep(y, y', i, op);
    }
  }

  lemma {:induction false} ViewStep(y: System, y': System, i: nat, op: Op)
    requires Sound(y) && Step(y, y', i, op) && (op.Release? || op.Decommit? || op.Protect?)
    ensures Coupled(MachineOf(y')) && Exact(y'.views[i].g, y'.views[i].Watches())
  {
    if op.Release? {
      ReleaseStepCouples(y, y', i, op);
      ReleaseStepExact(y, y', i, op);
    } else if op.Decommit? {
      DecommitStep(y, y', i, op);
    } else {
      ProtectStepCouples(y, y', i, op);
      ProtectStepExact(y, y', i, op);
    }
  }

  /** Every operation a careful caller makes keeps the system sound. */
  lemma {:induction false} StepKeepsSound(y: System, y': System, i: nat, op: Op)
    requires Sound(y) && Step(y, y', i, op)
    ensures Sound(y')
  {
    if op.Allocate? || op.AllocateAt? {
      AllocationStep(y, y', i, op);
    } else if op.Release? || op.Decommit? || op.Protect? {
      ViewStep(y, y', i, op);
    } else if op.Enable? {
      EnableStep(y, y', i, op);
    } else if op.Fire? {
      FireStep(y, y', i, op);
    } else {
      ParentStep(y, y', i, op);
    }
    forall j | 0 <= j < |y'.views| ensures Exact(y'.views[j].g, y'.views[j].Watches()) {
      if j != i {
        assert y'.views[j] == y.views[j];
      }
    }
  }

  /** Nothing is allocated and nothing is watched. */
  ghost predicate Initial(y: System) {
    && Built(y)
    && (forall p :: 0 <= p < |y.parent.table| ==> y.parent.table[p] == FREE_ENTRY)
    && forall i :: 0 <= i < |y.views| ==> Untouched(y.views[i])
  }

  ghost predicate Untouched(v: ViewState) {
    && Fits(v.g, v.Watches())
    && (forall p :: 0 <= p < |v.heap.table| ==> v.heap.table[p] == FREE_ENTRY)
    && (forall p :: 0 <= p < |v.watched| ==> !v.watched[p])
  }

  lemma {:induction false} UntouchedIsExact(v: ViewState)
    requires Untouched(v)
    ensures Exact(v.g, v.Watches())
  {
    forall h: nat | InHeap(v.g, h) ensures ExactAt(v.g, v.Watches(), h) {
      GuestPageInside(v.g, h);
    }
  }

  lemma {:induction false} InitialIsSound(y: System)
    requires Initial(y)
    ensures Sound(y)
  {
    FreshIsCoupled(MachineOf(y));
    forall i | 0 <= i < |y.views| ensures Exact(y.views[i].g, y.views[i].Watches()) {
      UntouchedIsExact(y.views[i]);
    }
  }

  /** Along every run of careful operations of all views the system stays sound. */
  lemma {:induction false} RunsStaySound(run: seq<System>, views: seq<nat>, ops: seq<Op>, n: nat)
    requires |run| == |ops| + 1 == |views| + 1 && n <= |ops| && Initial(run[0])
    requires forall k :: 0 <= k < |ops| ==> Step(run[k], run[k + 1], views[k], ops[k])
    ensures Sound(run[n])
  {
    if n == 0 {
      InitialIsSound(run[0]);
    } else {
      RunsStaySound(run, views, ops, n - 1);
      assert Step(run[n - 1], run[n - 1 + 1], views[n - 1], ops[n - 1]);
      StepKeepsSound(run[n - 1], run[n], views[n - 1], ops[n - 1]);
    }
  }

  /** In a sound system two views never hold the same byte of physical memory. */
  lemma {:induction false} NoSharedMemory(y: System, i: nat, j: nat, p: nat, q: nat, x: nat)
    requires Sound(y) && i < j < |y.views| && p < y.views[i].g.pages && q < y.views[j].g.pages
    requires var (v, w) := (y.views[i], y.views[j]);
             && |v.heap.table| == v.g.pages && |w.heap.table| == w.g.pages
             && !IsFree(v.heap.table[p]) && !IsFree(w.heap.table[q])
    requires LaidOut(y.views[i].g, y.g) && LaidOut(y.views[j].g, y.g)
    ensures var (a, b) := (MappingOf(y.views[i].g, y.g), MappingOf(y.views[j].g, y.g));
            !(a.ParentPage(p) <= x < a.ParentPage(p + 1) && b.ParentPage(q) <= x < b.ParentPage(q + 1))
  {
    ViewsDisjoint(MachineOf(y), i, j, p, q, x);
  }

  // ----- a write that faults

  /** The host page of an address. */
  function HostPageOf(g: Geometry, address: uint32): nat
    requires g.Valid() && InView(g, address)
  {
    Shr(address - g.base + g.hostOffset, g.sysShift)
  }

  lemma {:induction false} HostPageInHeap(g: Geometry, address: uint32)
    requires g.Valid() && InView(g, address)
    ensures InHeap(g, HostPageOf(g, address))
  {
    var x := address - g.base;
    g.HostPagesCover();
    ShrMono(g.hostOffset, x + g.hostOffset, g.sysShift);
    ShrMono(x + g.hostOffset, g.Size() + g.hostOffset - 1, g.sysShift);
  }

  /** The host page of an address belongs to the guest page of that address. */
  lemma {:induction false} HostPageOfAddress(g: Geometry, address: uint32)
    requires SmallPages(g) && InView(g, address)
    ensures InHeap(g, HostPageOf(g, address)) && GuestPage(g, HostPageOf(g, address)) == g.PageOf(address) < g.pages
  {
    var x, page := address - g.base, g.PageOf(address);
    HostPageInHeap(g, address);
    g.PageOfInside(address);
    ShiftGalois(page, x, g.pageShift);
    ShrMono(g.HostOffsetOf(page), x + g.hostOffset, g.sysShift);
    EndsInside(g, page, page, x);
    GuestRange(g, HostPageOf(g, address), page, 1);
  }

  /** The guest may write to an address of committed memory. */
  predicate GuestMayWrite(g: Geometry, t: Table, address: uint32) {
    && g.Valid() && InView(g, address) && g.PageOf(address) < |t|
    && t[g.PageOf(address)].committed && ToPageAccess(t[g.PageOf(address)].currentProtect) == ReadWrite
  }

  /** A write to a host page faults if the page is watched. */
  predicate Traps(s: WatchLaws.State, h: nat) {
    h < |s.host| && h < |s.watched| && (s.watched[h] ==> s.host[h] != ReadWrite)
  }

  predicate WriteSucceeds(s: WatchLaws.State, h: nat) {
    h < |s.host| && s.host[h] == ReadWrite
  }

  /** The state once a fault at an address was handled. */
  ghost function AfterFault(g: Geometry, s: WatchLaws.State, address: uint32, callbacks: seq<Callback>)
    : WatchLaws.State
    requires WindowOf(g).Valid()
  {
    if |s.host| > |s.watched| then s
    else Fired(g, s, ClippedPages(g, g.base, address, 1), false, true, callbacks)
  }

  lemma {:induction false} FaultHandled(g: Geometry, s: WatchLaws.State, address: uint32, callbacks: seq<Callback>)
    requires WindowOf(g).Valid() && Exact(g, s) && GuestMayWrite(g, s.table, address)
    ensures Traps(s, HostPageOf(g, address))
    ensures WriteSucceeds(AfterFault(g, s, address, callbacks), HostPageOf(g, address))
  {
    var h := HostPageOf(g, address);
    HostPageOfAddress(g, address);
    assert ExactAt(g, s, h);
    ClippedInside(g, address, 1);
    if SomeWatched(s, ClippedPages(g, g.base, address, 1)) {
      var range := UnwatchPages(WindowOf(g), h, h, false, callbacks);
      RetriedWriteSucceeds(g, s, range.0, range.1, h);
    }
  }

  /** A write to a watched page of committed memory faults, and after the fault was handled a write that the guest may
      make succeeds, whatever range the callbacks let go. */
  lemma {:induction false} FaultedWriteSucceeds(y: System, i: nat, address: uint32, callbacks: seq<Callback>)
    requires Sound(y) && i < |y.views| && Compatible(y.g, y.views[i])
    requires GuestMayWrite(y.views[i].g, y.views[i].heap.table, address)
    ensures var (g, s) := (y.views[i].g, y.views[i].Watches());
            var h := HostPageOf(g, address);
            Traps(s, h) && WriteSucceeds(AfterFault(g, s, address, callbacks), h)
  {
    SoundView(y, i);
    FaultHandled(y.views[i].g, y.views[i].Watches(), address, callbacks);
  }
}
