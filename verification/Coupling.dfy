/** The parent heap of physical pages and the views that pin parts of it. A view's page `p` covers the parent pages
    from `offset + (p << shift)` on, `2^shift` of them. */
module Coupling {
  import opened Bits
  import opened PageTable

  /** How a view's pages map to parent pages. */
  datatype Mapping = Mapping(offset: nat, shift: nat) {
    function ParentPage(p: nat): nat { offset + Shl(p, shift) }
  }

  datatype View = View(mapping: Mapping, table: Table)

  datatype Machine = Machine(parent: Table, views: seq<View>)

  /** Every region of the view has its own region of equal byte size in the parent. */
  ghost predicate Backed(parent: Table, v: View) {
    forall p: nat {:trigger v.table[p]} :: p < |v.table| && v.table[p].reserved ==>
      RegionAt(parent, v.mapping.ParentPage(v.table[p].base), Shl(v.table[p].count, v.mapping.shift))
  }

  /** No region of one view is backed by the region that backs one of the other. */
  ghost predicate Apart(v: View, w: View) {
    forall p: nat, q: nat {:trigger v.table[p], w.table[q]} ::
      p < |v.table| && q < |w.table| && v.table[p].reserved && w.table[q].reserved ==>
        v.mapping.ParentPage(v.table[p].base) != w.mapping.ParentPage(w.table[q].base)
  }

  ghost predicate Coupled(m: Machine) {
    && Regions(m.parent)
    && (forall i {:trigger m.views[i]} :: 0 <= i < |m.views| ==>
          Regions(m.views[i].table) && Backed(m.parent, m.views[i]))
    && (forall i, j {:trigger m.views[i], m.views[j]} :: 0 <= i < j < |m.views| ==> Apart(m.views[i], m.views[j]))
  }

  /** The same regions with other flags. */
  ghost predicate SameRegions(t: Table, t': Table) {
    |t| == |t'| && forall p {:trigger t'[p]} :: 0 <= p < |t| ==>
      t'[p].reserved == t[p].reserved && t'[p].base == t[p].base && t'[p].count == t[p].count
  }

  // ----- steps

  /** A region is reserved on free parent pages and pinned in a view. */
  ghost predicate Pins(m: Machine, m': Machine, i: nat, first: nat, count: nat, commit: bool, protect: Protection) {
    && i < |m.views| && count > 0
    && var v := m.views[i];
       var (start, pages) := (v.mapping.ParentPage(first), Shl(count, v.mapping.shift));
    && first + count <= |v.table| && start + pages <= |m.parent| && !SomeTakenIn(m.parent, start, pages)
    && m' == Machine(Pinned(m.parent, start, pages, true, commit, protect),
                     m.views[i := View(v.mapping, Pinned(v.table, first, count, true, commit, protect))])
  }

  ghost predicate SomeTakenIn(t: Table, first: nat, count: nat) {
    exists p: nat :: first <= p < first + count && p < |t| && !IsFree(t[p])
  }

  /** A view releases one of its regions together with the parent region behind it. */
  ghost predicate Unpins(m: Machine, m': Machine, i: nat, first: nat, count: nat) {
    && i < |m.views|
    && var v := m.views[i];
    && RegionAt(v.table, first, count)
    && m' == Machine(Cleared(m.parent, v.mapping.ParentPage(first), Shl(count, v.mapping.shift)),
                     m.views[i := View(v.mapping, Cleared(v.table, first, count))])
  }

  /** Flags change in the parent and in one view: a commit of reserved pages, a decommit, a new protection. */
  ghost predicate Reflags(m: Machine, m': Machine, i: nat) {
    && i < |m.views| && SameRegions(m.parent, m'.parent) && Regions(m'.parent)
    && var v := m.views[i];
    && exists t :: SameRegions(v.table, t) && Regions(t) && m'.views == m.views[i := View(v.mapping, t)]
  }

  /** The parent heap is used directly: free pages are reserved there. */
  ghost predicate PinsParent(m: Machine, m': Machine, first: nat, count: nat, commit: bool, protect: Protection) {
    && count > 0 && first + count <= |m.parent| && !SomeTakenIn(m.parent, first, count)
    && m' == Machine(Pinned(m.parent, first, count, true, commit, protect), m.views)
  }

  /** The parent page `first` starts the region behind some region of the view. */
  ghost predicate Backs(v: View, first: nat) {
    exists p: nat :: p < |v.table| && v.table[p].reserved && v.mapping.ParentPage(v.table[p].base) == first
  }

  // ----- regions under flags, pins and releases

  lemma {:induction false} SameRegionAt(t: Table, t': Table, first: nat, count: nat)
    requires SameRegions(t, t')
    ensures RegionAt(t, first, count) <==> RegionAt(t', first, count)
  {
    if first < |t| {
      assert t'[first].reserved == t[first].reserved;
    }
  }

  lemma {:induction false} ParentPageInjective(a: nat, b: nat, k: nat)
    requires Shl(a, k) == Shl(b, k)
    ensures a == b
  {
    ShlAligned(a, k);
    ShlAligned(b, k);
  }

  /** A region outside a pinned free range stays; the pinned range becomes one. */
  lemma {:induction false} PinRegionAt(t: Table, first: nat, count: nat, commit: bool, protect: Protection, page: nat,
                                       n: nat)
    requires count > 0 && first + count <= |t| && !SomeTakenIn(t, first, count)
    ensures RegionAt(t, page, n) ==> RegionAt(Pinned(t, first, count, true, commit, protect), page, n)
    ensures RegionAt(Pinned(t, first, count, true, commit, protect), first, count)
  {
    assert RegionAt(t, page, n) ==> !IsFree(t[page]);
  }

  lemma {:induction false} ClearRegionAt(t: Table, first: nat, count: nat, page: nat, n: nat)
    requires Regions(t) && RegionAt(t, first, count) && RegionAt(t, page, n) && page != first
    ensures RegionAt(Cleared(t, first, count), page, n)
  {
    RegionsMean(t);
    assert InRegion(t, first) && InRegion(t, page);
    assert t[page].base == page;
  }

  // ----- what each step keeps

  /** Behind every reserved page of a view all its parent pages are reserved, by the region that backs its own. */
  lemma {:induction false} BackedPages(parent: Table, v: View, p: nat, x: nat)
    requires Regions(parent) && Regions(v.table) && Backed(parent, v) && p < |v.table| && !IsFree(v.table[p])
    requires v.mapping.ParentPage(p) <= x < v.mapping.ParentPage(p + 1)
    ensures x < |parent| && parent[x].reserved && parent[x].base == v.mapping.ParentPage(v.table[p].base)
  {
    var k := v.mapping.shift;
    RegionsMean(v.table);
    RegionsMean(parent);
    assert InRegion(v.table, p);
    var b, n := v.table[p].base, v.table[p].count;
    assert RegionAt(parent, v.mapping.ParentPage(b), Shl(n, k));
    assert InRegion(parent, v.mapping.ParentPage(b));
    ShlMono(b, p, k);
    ShlMono(p + 1, b + n, k);
    ShlAdd(b, n, k);
  }

  /** A range of view pages whose parent pages are all free is free itself: pinning never meets a reserved page. */
  lemma {:induction false} PinTargetIsFree(parent: Table, v: View, first: nat, count: nat)
    requires Regions(parent) && Regions(v.table) && Backed(parent, v) && first + count <= |v.table|
    requires !SomeTakenIn(parent, v.mapping.ParentPage(first), Shl(count, v.mapping.shift))
    ensures !SomeTakenIn(v.table, first, count)
  {
    if SomeTakenIn(v.table, first, count) {
      var p: nat :| first <= p < first + count && p < |v.table| && !IsFree(v.table[p]);
      TakenBehind(parent, v, first, count, p);
    }
  }

  lemma {:induction false} TakenBehind(parent: Table, v: View, first: nat, count: nat, p: nat)
    requires Regions(parent) && Regions(v.table) && Backed(parent, v)
    requires first <= p < first + count && p < |v.table| && !IsFree(v.table[p])
    ensures SomeTakenIn(parent, v.mapping.ParentPage(first), Shl(count, v.mapping.shift))
  {
    var x := v.mapping.ParentPage(p);
    ShlMono(first, p, v.mapping.shift);
    ShlMono(p, p + 1, v.mapping.shift);
    ShlMono(p + 1, first + count, v.mapping.shift);
    ShlAdd(first, count, v.mapping.shift);
    BackedPages(parent, v, p, x);
    assert !IsFree(parent[x]);
  }

  /** Two views of a coupled machine never own the same parent page. */
  lemma {:induction false} ViewsDisjoint(m: Machine, i: nat, j: nat, p: nat, q: nat, x: nat)
    requires Coupled(m) && i < j < |m.views| && p < |m.views[i].table| && q < |m.views[j].table|
    requires !IsFree(m.views[i].table[p]) && !IsFree(m.views[j].table[q])
    ensures !(m.views[i].mapping.ParentPage(p) <= x < m.views[i].mapping.ParentPage(p + 1)
              && m.views[j].mapping.ParentPage(q) <= x < m.views[j].mapping.ParentPage(q + 1))
  {
    var v, w := m.views[i], m.views[j];
    if v.mapping.ParentPage(p) <= x < v.mapping.ParentPage(p + 1)
       && w.mapping.ParentPage(q) <= x < w.mapping.ParentPage(q + 1) {
      RegionsMean(v.table);
      RegionsMean(w.table);
      assert Apart(v, w);
      assert InRegion(v.table, p) && InRegion(w.table, q);
      BackedPages(m.parent, v, p, x);
      BackedPages(m.parent, w, q, x);
    }
  }

  // ----- pins

  lemma {:induction false} PinKeepsBacked(parent: Table, v: View, start: nat, pages: nat, commit: bool,
                                          protect: Protection)
    requires Backed(parent, v) && pages > 0 && start + pages <= |parent| && !SomeTakenIn(parent, start, pages)
    ensures Backed(Pinned(parent, start, pages, true, commit, protect), v)
  {
    forall p: nat | p < |v.table| && v.table[p].reserved
      ensures RegionAt(Pinned(parent, start, pages, true, commit, protect),
                       v.mapping.ParentPage(v.table[p].base), Shl(v.table[p].count, v.mapping.shift))
    {
      PinRegionAt(parent, start, pages, commit, protect, v.mapping.ParentPage(v.table[p].base),
                  Shl(v.table[p].count, v.mapping.shift));
    }
  }

  /** The view that pins a range backs it with the parent region just reserved. */
  lemma {:induction false} PinBacksView(parent: Table, v: View, first: nat, count: nat, commit: bool,
                                        protect: Protection)
    requires Backed(parent, v) && count > 0 && first + count <= |v.table|
    requires var (start, pages) := (v.mapping.ParentPage(first), Shl(count, v.mapping.shift));
             start + pages <= |parent| && !SomeTakenIn(parent, start, pages) && pages > 0
    ensures Backed(Pinned(parent, v.mapping.ParentPage(first), Shl(count, v.mapping.shift), true, commit, protect),
                   View(v.mapping, Pinned(v.table, first, count, true, commit, protect)))
  {
    var start, pages := v.mapping.ParentPage(first), Shl(count, v.mapping.shift);
    PinKeepsBacked(parent, v, start, pages, commit, protect);
    PinRegionAt(parent, start, pages, commit, protect, 0, 0);
  }

  /** The parent region of a fresh pin backs no other region. */
  lemma {:induction false} PinKeepsApart(parent: Table, v: View, w: View, first: nat, count: nat, commit: bool,
                                         protect: Protection)
    requires Backed(parent, w) && Apart(v, w) && count > 0
    requires v.mapping.ParentPage(first) < |parent| && IsFree(parent[v.mapping.ParentPage(first)])
    ensures Apart(View(v.mapping, Pinned(v.table, first, count, true, commit, protect)), w)
    ensures Apart(w, View(v.mapping, Pinned(v.table, first, count, true, commit, protect)))
  {
    var v' := View(v.mapping, Pinned(v.table, first, count, true, commit, protect));
    forall p: nat, q: nat | p < |v.table| && q < |w.table| && v'.table[p].reserved && w.table[q].reserved
      ensures v.mapping.ParentPage(v'.table[p].base) != w.mapping.ParentPage(w.table[q].base)
    {
      if v'.table[p] == v.table[p] {
        assert v.table[p].reserved;
      } else {
        assert RegionAt(parent, w.mapping.ParentPage(w.table[q].base), Shl(w.table[q].count, w.mapping.shift));
      }
    }
  }

  lemma {:induction false} ApartSymmetric(v: View, w: View)
    ensures Apart(v, w) <==> Apart(w, v)
  {
  }

  lemma {:induction false} FreeMeansNotTaken(t: Table, first: nat, count: nat)
    requires first + count <= |t| && !SomeTakenIn(t, first, count)
    ensures CoversRegions(t, first, count)
    ensures count > 0 ==> IsFree(t[first])
  {
  }

  lemma {:induction false} PinKeepsCoupled(m: Machine, m': Machine, i: nat, first: nat, count: nat, commit: bool,
                                           protect: Protection)
    requires Coupled(m) && Pins(m, m', i, first, count, commit, protect)
    ensures Coupled(m')
  {
    var v := m.views[i];
    var start, pages := v.mapping.ParentPage(first), Shl(count, v.mapping.shift);
    ShlMono(0, count, v.mapping.shift);
    ShlPow2(v.mapping.shift, 0);
    FreeMeansNotTaken(m.parent, start, pages);
    CoveredPinKeepsRegions(m.parent, start, pages, commit, protect);
    PinTargetIsFree(m.parent, v, first, count);
    FreeMeansNotTaken(v.table, first, count);
    CoveredPinKeepsRegions(v.table, first, count, commit, protect);
    PinBacksView(m.parent, v, first, count, commit, protect);
    forall j | 0 <= j < |m.views| && j != i
      ensures Backed(m'.parent, m.views[j]) && Apart(m'.views[i], m.views[j]) && Apart(m.views[j], m'.views[i])
    {
      PinKeepsBacked(m.parent, m.views[j], start, pages, commit, protect);
      ApartSymmetric(v, m.views[j]);
      PinKeepsApart(m.parent, v, m.views[j], first, count, commit, protect);
    }
  }

  lemma {:induction false} ParentPinKeepsCoupled(m: Machine, m': Machine, first: nat, count: nat, commit: bool,
                                                 protect: Protection)
    requires Coupled(m) && PinsParent(m, m', first, count, commit, protect)
    ensures Coupled(m')
  {
    FreeMeansNotTaken(m.parent, first, count);
    CoveredPinKeepsRegions(m.parent, first, count, commit, protect);
    forall j | 0 <= j < |m.views| ensures Backed(m'.parent, m.views[j]) {
      PinKeepsBacked(m.parent, m.views[j], first, count, commit, protect);
    }
  }

  // ----- releases

  lemma {:induction false} ReleaseKeepsBacked(parent: Table, v: View, first: nat, count: nat)
    requires Regions(parent) && RegionAt(parent, first, count) && Backed(parent, v) && !Backs(v, first)
    ensures Backed(Cleared(parent, first, count), v)
  {
    forall p: nat | p < |v.table| && v.table[p].reserved
      ensures RegionAt(Cleared(parent, first, count), v.mapping.ParentPage(v.table[p].base),
                       Shl(v.table[p].count, v.mapping.shift))
    {
      ClearRegionAt(parent, first, count, v.mapping.ParentPage(v.table[p].base),
                    Shl(v.table[p].count, v.mapping.shift));
    }
  }

  /** A view that gives up its own region no longer needs the parent region. */
  lemma {:induction false} ReleaseOwnBacked(parent: Table, v: View, first: nat, count: nat)
    requires Regions(parent) && Regions(v.table) && Backed(parent, v) && RegionAt(v.table, first, count)
    ensures RegionAt(parent, v.mapping.ParentPage(first), Shl(count, v.mapping.shift))
    ensures Backed(Cleared(parent, v.mapping.ParentPage(first), Shl(count, v.mapping.shift)),
                   View(v.mapping, Cleared(v.table, first, count)))
  {
    var start, pages := v.mapping.ParentPage(first), Shl(count, v.mapping.shift);
    assert v.table[first].reserved;
    var t := Cleared(v.table, first, count);
    forall p: nat | p < |t| && t[p].reserved
      ensures RegionAt(Cleared(parent, start, pages), v.mapping.ParentPage(t[p].base), Shl(t[p].count, v.mapping.shift))
    {
      assert t[p] == v.table[p];
      OtherRegion(v.table, first, count, p);
      if v.mapping.ParentPage(t[p].base) == start {
        ParentPageInjective(t[p].base, first, v.mapping.shift);
      }
      ClearRegionAt(parent, start, pages, v.mapping.ParentPage(t[p].base), Shl(t[p].count, v.mapping.shift));
    }
  }

  lemma {:induction false} OtherRegion(t: Table, first: nat, count: nat, p: nat)
    requires Regions(t) && RegionAt(t, first, count) && p < |t| && !IsFree(t[p]) && !(first <= p < first + count)
    ensures t[p].base != first
  {
    RegionsMean(t);
    assert InRegion(t, p);
  }

  /** Apart views: a region that backs one backs none of the others. */
  lemma {:induction false} ApartMeansNotBacking(v: View, w: View, first: nat)
    requires Apart(v, w) && first < |v.table| && v.table[first].reserved && v.table[first].base == first
    ensures !Backs(w, v.mapping.ParentPage(first))
  {
  }

  lemma {:induction false} ClearKeepsApart(v: View, w: View, first: nat, count: nat)
    requires Apart(v, w)
    ensures Apart(View(v.mapping, Cleared(v.table, first, count)), w)
  {
    var t := Cleared(v.table, first, count);
    forall p: nat, q: nat | p < |t| && q < |w.table| && t[p].reserved && w.table[q].reserved
      ensures v.mapping.ParentPage(t[p].base) != w.mapping.ParentPage(w.table[q].base)
    {
      assert t[p] == v.table[p];
    }
  }

  lemma {:induction false} ReleaseKeepsCoupled(m: Machine, m': Machine, i: nat, first: nat, count: nat)
    requires Coupled(m) && Unpins(m, m', i, first, count)
    ensures RegionAt(m.parent, m.views[i].mapping.ParentPage(first), Shl(count, m.views[i].mapping.shift))
    ensures Coupled(m')
  {
    var v := m.views[i];
    var start, pages := v.mapping.ParentPage(first), Shl(count, v.mapping.shift);
    ReleaseOwnBacked(m.parent, v, first, count);
    ClearKeepsRegions(m.parent, start, pages);
    ClearKeepsRegions(v.table, first, count);
    forall j | 0 <= j < |m.views| && j != i
      ensures Backed(m'.parent, m.views[j]) && Apart(m'.views[i], m.views[j]) && Apart(m.views[j], m'.views[i])
    {
      ApartSymmetric(v, m.views[j]);
      ApartMeansNotBacking(v, m.views[j], first);
      ReleaseKeepsBacked(m.parent, m.views[j], start, pages);
      ClearKeepsApart(v, m.views[j], first, count);
      ApartSymmetric(m'.views[i], m.views[j]);
    }
  }

  /** Releasing a parent region directly keeps the coupling exactly when it backs no view's region. */
  lemma {:induction false} ParentReleaseKeepsCoupled(m: Machine, first: nat, count: nat)
    requires Coupled(m) && RegionAt(m.parent, first, count)
    ensures Coupled(Machine(Cleared(m.parent, first, count), m.views))
            <==> forall i {:trigger m.views[i]} :: 0 <= i < |m.views| ==> !Backs(m.views[i], first)
  {
    var m' := Machine(Cleared(m.parent, first, count), m.views);
    ClearKeepsRegions(m.parent, first, count);
    if forall i {:trigger m.views[i]} :: 0 <= i < |m.views| ==> !Backs(m.views[i], first) {
      forall j | 0 <= j < |m.views| ensures Backed(m'.parent, m.views[j]) {
        ReleaseKeepsBacked(m.parent, m.views[j], first, count);
      }
    } else {
      var i :| 0 <= i < |m.views| && Backs(m.views[i], first);
      var v := m.views[i];
      var p: nat :| p < |v.table| && v.table[p].reserved && v.mapping.ParentPage(v.table[p].base) == first;
      assert !RegionAt(m'.parent, first, Shl(v.table[p].count, v.mapping.shift));
      assert !Backed(m'.parent, v);
    }
  }

  // ----- another table for the parent

  /** Every parent region that backs a region of some view is a region of `t` as well. */
  ghost predicate KeepsBacking(m: Machine, t: Table) {
    forall i, first: nat, n: nat {:trigger Backs(m.views[i], first), RegionAt(m.parent, first, n)} ::
      0 <= i < |m.views| && Backs(m.views[i], first) && RegionAt(m.parent, first, n) ==> RegionAt(t, first, n)
  }

  lemma {:induction false} KeptBacked(m: Machine, t: Table, i: nat)
    requires Coupled(m) && i < |m.views| && KeepsBacking(m, t)
    ensures Backed(t, m.views[i])
  {
    var v := m.views[i];
    forall p: nat | p < |v.table| && v.table[p].reserved
      ensures RegionAt(t, v.mapping.ParentPage(v.table[p].base), Shl(v.table[p].count, v.mapping.shift))
    {
      var first := v.mapping.ParentPage(v.table[p].base);
      assert Backs(v, first);
      assert RegionAt(m.parent, first, Shl(v.table[p].count, v.mapping.shift));
    }
  }

  /** Giving the parent another partitioned table keeps the coupling exactly when the table has every region again that
      backs a view's region. */
  lemma {:induction false} ReplacedParentKeepsCoupled(m: Machine, t: Table)
    requires Coupled(m) && Regions(t)
    ensures Coupled(Machine(t, m.views)) <==> KeepsBacking(m, t)
  {
    if KeepsBacking(m, t) {
      forall i | 0 <= i < |m.views| ensures Backed(t, m.views[i]) {
        KeptBacked(m, t, i);
      }
    }
    if Coupled(Machine(t, m.views)) {
      forall i, first: nat, n: nat | 0 <= i < |m.views| && Backs(m.views[i], first) && RegionAt(m.parent, first, n)
        ensures RegionAt(t, first, n)
      {
        var v := m.views[i];
        var p: nat :| p < |v.table| && v.table[p].reserved && v.mapping.ParentPage(v.table[p].base) == first;
        assert Backed(t, v) && Backed(m.parent, v);
      }
    }
  }

  /** Clearing the parent's table keeps the coupling exactly when no view has anything reserved. */
  lemma {:induction false} ClearedParentKeepsCoupled(m: Machine, t: Table)
    requires Coupled(m) && forall p :: 0 <= p < |t| ==> t[p] == FREE_ENTRY
    ensures Coupled(Machine(t, m.views)) <==>
              forall i, p {:trigger m.views[i].table[p]} ::
                0 <= i < |m.views| && 0 <= p < |m.views[i].table| ==> !m.views[i].table[p].reserved
  {
    RegionsFrom(t);
    if i, p: nat :| 0 <= i < |m.views| && p < |m.views[i].table| && m.views[i].table[p].reserved {
      var v := m.views[i];
      assert !RegionAt(t, v.mapping.ParentPage(v.table[p].base), Shl(v.table[p].count, v.mapping.shift));
      assert !Backed(t, v);
    }
  }

  // ----- flags

  lemma {:induction false} ReflagKeepsBacked(parent: Table, parent': Table, v: View, t: Table)
    requires Backed(parent, v) && SameRegions(parent, parent') && SameRegions(v.table, t)
    ensures Backed(parent', View(v.mapping, t))
  {
    forall p: nat | p < |t| && t[p].reserved
      ensures RegionAt(parent', v.mapping.ParentPage(t[p].base), Shl(t[p].count, v.mapping.shift))
    {
      assert v.table[p].reserved;
      SameRegionAt(parent, parent', v.mapping.ParentPage(t[p].base), Shl(t[p].count, v.mapping.shift));
    }
  }

  lemma {:induction false} ReflagKeepsApart(v: View, w: View, t: Table)
    requires Apart(v, w) && SameRegions(v.table, t)
    ensures Apart(View(v.mapping, t), w)
  {
    forall p: nat, q: nat | p < |t| && q < |w.table| && t[p].reserved && w.table[q].reserved
      ensures v.mapping.ParentPage(t[p].base) != w.mapping.ParentPage(w.table[q].base)
    {
      assert v.table[p].reserved;
    }
  }

  lemma {:induction false} ReflagKeepsCoupled(m: Machine, m': Machine, i: nat)
    requires Coupled(m) && Reflags(m, m', i)
    ensures Coupled(m')
  {
    var v := m.views[i];
    var t :| SameRegions(v.table, t) && Regions(t) && m'.views == m.views[i := View(v.mapping, t)];
    ReflagKeepsBacked(m.parent, m'.parent, v, t);
    forall j | 0 <= j < |m.views| && j != i
      ensures Backed(m'.parent, m.views[j]) && Apart(m'.views[i], m.views[j]) && Apart(m.views[j], m'.views[i])
    {
      ApartSymmetric(v, m.views[j]);
      ReflagKeepsBacked(m.parent, m'.parent, m.views[j], m.views[j].table);
      ReflagKeepsApart(v, m.views[j], t);
      ApartSymmetric(m'.views[i], m.views[j]);
    }
  }

  /** The heaps before anything is allocated. */
  ghost predicate Fresh(m: Machine) {
    && (forall p: nat :: p < |m.parent| ==> m.parent[p] == FREE_ENTRY)
    && (forall i, p: nat :: 0 <= i < |m.views| && p < |m.views[i].table| ==> m.views[i].table[p] == FREE_ENTRY)
  }

  lemma {:induction false} FreshIsCoupled(m: Machine)
    requires Fresh(m)
    ensures Coupled(m)
  {
    RegionsFrom(m.parent);
    forall i | 0 <= i < |m.views| ensures Regions(m.views[i].table) {
      RegionsFrom(m.views[i].table);
    }
  }
}
