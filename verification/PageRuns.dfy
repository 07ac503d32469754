/** Whole runs of the page allocator (kernel/mm/page.c).

A state is the free pages together with the live pages handed out and not yet
freed.  A step is one call of alloc_pages, or of free_pages for a live page,
with the effect proved for the methods of PageAllocation.PageAllocator.
*/
module PageRuns {
  import opened Basics
  import opened Buddy
  import opened PageAllocation

  datatype State = State(free: set<Page>, live: set<Page>)
  datatype Call = Alloc(order: nat) | Free(page: Page)

  ghost function Initial(g: Geometry): State {
    State(TopPages(g), {})
  }

  /** A failed allocation leaves the state alone; a successful one hands out the
      leftmost part of the best fitting free page. */
  ghost predicate AllocStep(g: Geometry, s: State, order: nat, s': State) {
    if exists q :: BestFit(s.free, order, q) then
      exists q :: BestFit(s.free, order, q) && TookPage(g, s, Leftmost(q, order), s')
    else
      s' == s
  }

  ghost predicate TookPage(g: Geometry, s: State, p: Page, s': State) {
    && InRegion(g, p) && PageUnits(g, p) <= Units(g, s.free)
    && s'.free == Decomposition(g, Units(g, s.free) - PageUnits(g, p))
    && s'.live == s.live + {p}
  }

  ghost predicate FreeStep(g: Geometry, s: State, p: Page, s': State) {
    && p in s.live
    && s'.free == Decomposition(g, Units(g, s.free) + PageUnits(g, p))
    && s'.live == s.live - {p}
  }

  ghost predicate Step(g: Geometry, s: State, c: Call, s': State) {
    match c
    case Alloc(order) => AllocStep(g, s, order, s')
    case Free(page) => FreeStep(g, s, page, s')
  }

  /** `run` is a run from the initial state under `calls`. */
  ghost predicate IsRun(g: Geometry, calls: seq<Call>, run: seq<State>) {
    && |run| == |calls| + 1 && run[0] == Initial(g)
    && forall i :: 0 <= i < |calls| ==> Step(g, run[i], calls[i], run[i + 1])
  }

  /** Live pages are pages of the region and disjoint; the free pages are the
      decomposition of all the other units. */
  ghost predicate Inv(g: Geometry, s: State) {
    && (forall p :: p in s.live ==> InRegion(g, p))
    && Disjoint(s.live)
    && s.free == Decomposition(g, AllUnits(g) - Units(g, s.live))
  }

  lemma UnitsInRegion(g: Geometry, pages: set<Page>)
    ensures Units(g, pages) <= AllUnits(g)
  {
    forall u | u in Units(g, pages) ensures u in AllUnits(g) {
      AllUnitsAreAll(g, u);
    }
  }

  /** Consequences of the invariant: the free pages are canonical, and free and
      live pages tile the region exactly. */
  lemma InvTiles(g: Geometry, s: State)
    requires Inv(g, s)
    ensures Canonical(g, s.free)
    ensures Units(g, s.free) !! Units(g, s.live)
    ensures Units(g, s.free) + Units(g, s.live) == AllUnits(g)
    ensures |Units(g, s.free)| == |AllUnits(g)| - |Units(g, s.live)|
  {
    DecompositionIsCanonical(g, AllUnits(g) - Units(g, s.live));
    UnitsInRegion(g, s.live);
    assert |AllUnits(g) - Units(g, s.live)| == |AllUnits(g)| - |Units(g, s.live)|;
  }

  lemma InitialInv(g: Geometry)
    ensures Inv(g, Initial(g))
  {
    CanonicalForm(g, TopPages(g));
    assert Units(g, {}) == {};
    assert AllUnits(g) - {} == AllUnits(g);
  }

  /** A page apart from all live pages can join them. */
  lemma JoinsLive(g: Geometry, live: set<Page>, p: Page)
    requires (forall q :: q in live ==> InRegion(g, q)) && Disjoint(live) && InRegion(g, p)
               && PageUnits(g, p) !! Units(g, live)
    ensures p !in live && Disjoint(live + {p}) && Units(g, live + {p}) == Units(g, live) + PageUnits(g, p)
  {
    forall q, u: nat | q in live && Covers(q, u) ensures !Covers(p, u) {
      CoveredUnit(g, q, u);
      assert u in Units(g, live) && u !in PageUnits(g, p);
    }
    FirstUnit(g, p);
    UnitsUnion(g, live, {p});
    UnitsOfOne(g, p);
  }

  lemma TookPageInv(g: Geometry, s: State, p: Page, s': State)
    requires Inv(g, s) && TookPage(g, s, p, s')
    ensures Inv(g, s') && p !in s.live
    ensures Units(g, s'.free) == Units(g, s.free) - PageUnits(g, p)
  {
    var rest := Units(g, s.free) - PageUnits(g, p);
    assert Disjoint(s'.live) && p !in s.live && rest == AllUnits(g) - Units(g, s'.live) by {
      InvTiles(g, s);
      JoinsLive(g, s.live, p);
    }
    assert Units(g, Decomposition(g, rest)) == rest by { DecompositionIsCanonical(g, rest); }
  }

  lemma ApartFromRest(g: Geometry, pages: set<Page>, p: Page)
    requires Disjoint(pages) && p in pages
    ensures PageUnits(g, p) !! Units(g, pages - {p})
    ensures Units(g, pages) == Units(g, pages - {p}) + PageUnits(g, p)
  {}

  lemma FreeStepInv(g: Geometry, s: State, p: Page, s': State)
    requires Inv(g, s) && FreeStep(g, s, p, s')
    ensures Inv(g, s')
    ensures Units(g, s'.free) == Units(g, s.free) + PageUnits(g, p)
  {
    var all := Units(g, s.free) + PageUnits(g, p);
    assert all == AllUnits(g) - Units(g, s'.live) by {
      InvTiles(g, s);
      ApartFromRest(g, s.live, p);
    }
    DecompositionIsCanonical(g, all);
  }

  lemma StepInv(g: Geometry, s: State, c: Call, s': State)
    requires Inv(g, s) && Step(g, s, c, s')
    ensures Inv(g, s')
  {
    match c
    case Alloc(order) =>
      if exists q :: BestFit(s.free, order, q) {
        var q :| BestFit(s.free, order, q) && TookPage(g, s, Leftmost(q, order), s');
        TookPageInv(g, s, Leftmost(q, order), s');
      }
    case Free(page) =>
      FreeStepInv(g, s, page, s');
  }

  /** Every state of every run satisfies the invariant. */
  lemma {:induction false} RunInv(g: Geometry, calls: seq<Call>, run: seq<State>, n: nat)
    requires IsRun(g, calls, run) && n < |run|
    ensures Inv(g, run[n])
  {
    if n == 0 {
      InitialInv(g);
    } else {
      RunInv(g, calls, run, n - 1);
      StepInv(g, run[n - 1], calls[n - 1], run[n]);
    }
  }

  /** The bitmaps of a reachable state are the unique decomposition of its free
      units: states of any two runs with the same free units have the same free
      pages. */
  lemma StateDeterminedByUnits(g: Geometry, calls: seq<Call>, run: seq<State>, n: nat,
                               calls': seq<Call>, run': seq<State>, n': nat)
    requires IsRun(g, calls, run) && n < |run|
    requires IsRun(g, calls', run') && n' < |run'|
    requires Units(g, run[n].free) == Units(g, run'[n'].free)
    ensures run[n].free == run'[n'].free == Decomposition(g, Units(g, run[n].free))
  {
    RunInv(g, calls, run, n);
    RunInv(g, calls', run', n');
    InvTiles(g, run[n]);
    InvTiles(g, run'[n']);
    CanonicalForm(g, run[n].free);
    CanonicalForm(g, run'[n'].free);
  }

  /** Once everything has been freed, in whatever order, the initial bitmaps are
      back. */
  lemma FreeingAllRestores(g: Geometry, calls: seq<Call>, run: seq<State>, n: nat)
    requires IsRun(g, calls, run) && n < |run| && run[n].live == {}
    ensures run[n] == Initial(g)
  {
    RunInv(g, calls, run, n);
    InitialInv(g);
  }

  /** In every reachable state an allocation fails exactly when no aligned page
      of that order consists of free units. */
  lemma AllocationComplete(g: Geometry, calls: seq<Call>, run: seq<State>, n: nat, order: nat)
    requires IsRun(g, calls, run) && n < |run|
    ensures (exists q :: BestFit(run[n].free, order, q)) <==>
            (exists p :: InRegion(g, p) && p.order == order && PageUnits(g, p) <= Units(g, run[n].free))
  {
    RunInv(g, calls, run, n);
    InvTiles(g, run[n]);
    var free := run[n].free;
    if forall p :: p in free ==> p.order < order {
      NoPageNoUnits(g, free, order);
    } else {
      var p :| p in free && order <= p.order;
      var q := LowestFit(free, order, p);
      var c := Leftmost(q, order);
      LeftmostInside(g, q, order);
      PageUnitsWithin(g, free, q);
      assert InRegion(g, c) && c.order == order && PageUnits(g, c) <= Units(g, free);
    }
  }

  /** A best fitting page exists whenever some free page is large enough. */
  lemma {:induction false} LowestFit(free: set<Page>, order: nat, p: Page) returns (q: Page)
    requires p in free && order <= p.order
    ensures BestFit(free, order, q)
    decreases p.order, p.idx
  {
    if x :| x in free && order <= x.order && (x.order < p.order || (x.order == p.order && x.idx < p.idx)) {
      q := LowestFit(free, order, x);
    } else {
      q := p;
    }
  }

  lemma LeftmostInside(g: Geometry, q: Page, order: nat)
    requires InRegion(g, q) && order <= q.order
    ensures InRegion(g, Leftmost(q, order))
    ensures PageUnits(g, Leftmost(q, order)) <= PageUnits(g, q)
  {
    var c, d := Leftmost(q, order), q.order - order;
    UpOfShl(q.idx, d);
    assert Ancestor(c, d) == q;
    UpAdd(c.idx, d, g.maxOrder - q.order);
    AncestorUnits(g, c, d);
  }

  /** Freeing the page just allocated undoes the allocation. */
  lemma FreeUndoesAlloc(g: Geometry, s: State, p: Page, s': State, s'': State)
    requires Inv(g, s) && TookPage(g, s, p, s') && FreeStep(g, s', p, s'')
    ensures s'' == s
  {
    TookPageInv(g, s, p, s');
    InvTiles(g, s);
    assert Units(g, s'.free) + PageUnits(g, p) == Units(g, s.free);
    CanonicalForm(g, s.free);
  }

  /** What get_page_total_free_size reports in a reachable state: the bytes of
      the region less those held by the disjoint live pages. */
  lemma FreeSizeOfRun(g: Geometry, calls: seq<Call>, run: seq<State>, n: nat)
    requires IsRun(g, calls, run) && n < |run|
    ensures Disjoint(run[n].live) && forall p :: p in run[n].live ==> InRegion(g, p)
    ensures PAGE_SIZE_MIN * |Units(g, run[n].free)| ==
            PAGE_SIZE_MIN * UnitCount(g) - PAGE_SIZE_MIN * |Units(g, run[n].live)|
  {
    RunInv(g, calls, run, n);
    InvTiles(g, run[n]);
    WholeRegionSize(g);
  }

  /** In every reachable state the bytes of the live pages, from their addresses on,
      are in the region and disjoint. */
  lemma LiveBytes(g: Geometry, start: nat, calls: seq<Call>, run: seq<State>, n: nat, p: Page, q: Page)
    requires IsRun(g, calls, run) && n < |run| && p in run[n].live && q in run[n].live
    ensures start <= AddrOf(start, p) && AddrOf(start, p) + 256 * Shl(1, p.order) <= start + 256 * UnitCount(g)
    ensures p != q ==> || AddrOf(start, p) + 256 * Shl(1, p.order) <= AddrOf(start, q)
                       || AddrOf(start, q) + 256 * Shl(1, q.order) <= AddrOf(start, p)
  {
    RunInv(g, calls, run, n);
    BytesApart(g, start, p, q);
    BytesApart(g, start, q, p);
  }

  /** Where a page starts inside another one, the two have a unit in common. */
  lemma BytesApart(g: Geometry, start: nat, p: Page, q: Page)
    requires InRegion(g, p) && InRegion(g, q)
    ensures start <= AddrOf(start, p) && AddrOf(start, p) + 256 * Shl(1, p.order) <= start + 256 * UnitCount(g)
    ensures AddrOf(start, p) <= AddrOf(start, q) < AddrOf(start, p) + 256 * Shl(1, p.order) ==>
              exists u: nat :: Covers(p, u) && Covers(q, u)
  {
    var u := Shl(q.idx, q.order);
    FirstUnit(g, q);
    PageBytes(g, start, p, u);
    ShlBytes(q.idx, q.order, q.order + PAGE_SHIFT);
  }

  lemma WholeRegionSize(g: Geometry)
    ensures |AllUnits(g)| == UnitCount(g)
  {
    RegionSize(g, UnitCount(g));
    var first := set u: nat | u in AllUnits(g) && u < UnitCount(g);
    forall u ensures u in AllUnits(g) <==> u in first {
      if u in AllUnits(g) {
        AllUnitsAreAll(g, u);
      }
    }
    assert AllUnits(g) == first;
  }

  lemma {:induction false} RegionSize(g: Geometry, n: nat)
    requires n <= UnitCount(g)
    ensures |set u: nat | u in AllUnits(g) && u < n| == n
  {
    var below := set u: nat | u in AllUnits(g) && u < n;
    if n == 0 {
      assert below == {};
    } else {
      RegionSize(g, n - 1);
      AllUnitsAreAll(g, n - 1);
      assert below == (set u: nat | u in AllUnits(g) && u < n - 1) + {n - 1};
    }
  }

  /** The bitmaps follow the steps: executing a call on an allocator whose free
      pages are those of a state takes exactly one step of that state. */
  method Execute(a: PageAllocator, c: Call, ghost s: State) returns (ghost s': State)
    requires a.Valid() && Inv(a.g, s) && a.free == s.free
    requires c.Free? ==> c.page in s.live
    modifies a`free, a.maps
    ensures a.Valid() && a.free == s'.free && Step(a.g, s, c, s') && Inv(a.g, s')
  {
    InvTiles(a.g, s);
    match c {
      case Alloc(order) =>
        var r := a.AllocPages(order);
        if r.Some? {
          ghost var q :| BestFit(s.free, order, q) && a.AllocatedFrom(s.free, order, q, r.value, a.free);
          s' := State(a.free, s.live + {Leftmost(q, order)});
          assert TookPage(a.g, s, Leftmost(q, order), s');
        } else {
          s' := s;
          assert !exists q :: BestFit(s.free, order, q) by {
            if q :| BestFit(s.free, order, q) {
              LeftmostInside(a.g, q, order);
              PageUnitsWithin(a.g, s.free, q);
            }
          }
        }
      case Free(page) =>
        AddressRoundTrip(a.start, page);
        PageUnitsWithin(a.g, s.live, page);
        a.FreePages(AddrOf(a.start, page), page.order);
        s' := State(a.free, s.live - {page});
    }
    StepInv(a.g, s, c, s');
  }
}
