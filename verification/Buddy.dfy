/** The theory of the buddy page allocator (kernel/mm/page.c).

The page region is a row of 256-byte units, grouped into `top` pages of order
`maxOrder`.  A page of order k and index i covers the units u with
u / 2^k == i.  A set of free pages is canonical when its pages are disjoint and
no page below the top order is free together with its buddy.  The results here
say that a canonical set is determined by the units it covers, and that adding
and removing pages keeps it canonical.
*/
module Buddy {
  datatype Page = Page(order: nat, idx: nat)
  datatype Geometry = Geometry(maxOrder: nat, top: nat)

  /** i * 2^d, a left shift. */
  function Shl(i: nat, d: nat): nat {
    if d == 0 then i else 2 * Shl(i, d - 1)
  }

  /** i / 2^d, a right shift: the index of the page d orders above index i. */
  function Up(i: nat, d: nat): nat
    decreases d
  {
    if d == 0 then i else Up(i / 2, d - 1)
  }

  ghost predicate Covers(p: Page, u: nat) {
    Up(u, p.order) == p.idx
  }

  ghost predicate InRegion(g: Geometry, p: Page) {
    p.order <= g.maxOrder && Up(p.idx, g.maxOrder - p.order) < g.top
  }

  /** Number of pages of order k in the region: page_bitmap_sz[k]. */
  function PageCount(g: Geometry, k: nat): nat
    requires k <= g.maxOrder
  {
    Shl(g.top, g.maxOrder - k)
  }

  function UnitCount(g: Geometry): nat {
    PageCount(g, 0)
  }

  /** The initial free pages: every page of the top order. */
  ghost function TopPages(g: Geometry): set<Page> {
    set i: nat | i < g.top :: Page(g.maxOrder, i)
  }

  ghost function AllUnits(g: Geometry): set<nat> {
    Units(g, TopPages(g))
  }

  ghost predicate Covered(pages: set<Page>, u: nat) {
    exists p :: p in pages && Covers(p, u)
  }

  ghost function PageUnits(g: Geometry, p: Page): set<nat> {
    set u: nat | u < UnitCount(g) && Covers(p, u)
  }

  ghost function Units(g: Geometry, pages: set<Page>): set<nat> {
    set u: nat | u < UnitCount(g) && Covered(pages, u)
  }

  /** get_buddy_index. */
  function BuddyOf(p: Page): Page {
    Page(p.order, if p.idx % 2 == 1 then p.idx - 1 else p.idx + 1)
  }

  function Parent(p: Page): Page {
    Page(p.order + 1, p.idx / 2)
  }

  function Ancestor(p: Page, d: nat): Page {
    Page(p.order + d, Up(p.idx, d))
  }

  ghost predicate Disjoint(pages: set<Page>) {
    forall p, q, u: nat :: p in pages && q in pages && Covers(p, u) && Covers(q, u) ==> p == q
  }

  ghost predicate Canonical(g: Geometry, free: set<Page>) {
    && (forall p :: p in free ==> InRegion(g, p))
    && Disjoint(free)
    && (forall p :: p in free && p.order < g.maxOrder ==> BuddyOf(p) !in free)
  }

  /** A page all of whose units are in `us`, and which is not part of a larger
      such page. */
  ghost predicate Maximal(g: Geometry, us: set<nat>, p: Page) {
    && InRegion(g, p)
    && PageUnits(g, p) <= us
    && (p.order < g.maxOrder ==> !(PageUnits(g, Parent(p)) <= us))
  }

  /** The decomposition of a set of units into maximal aligned pages. */
  ghost function Decomposition(g: Geometry, us: set<nat>): set<Page> {
    set k: nat, i: nat | k <= g.maxOrder && i < PageCount(g, k) && Maximal(g, us, Page(k, i)) :: Page(k, i)
  }

  // ------------------------------------------------------------- geometry

  lemma {:induction false} UpAdd(i: nat, d: nat, e: nat)
    ensures Up(i, d + e) == Up(Up(i, d), e)
    decreases d
  {
    if d > 0 {
      UpAdd(i / 2, d - 1, e);
    }
  }

  lemma UpStep(i: nat, d: nat)
    ensures Up(i, d + 1) == Up(i, d) / 2
  {
    UpAdd(i, d, 1);
  }

  lemma {:induction false} UpBound(i: nat, d: nat, t: nat)
    ensures Up(i, d) < t <==> i < Shl(t, d)
    decreases d
  {
    if d > 0 {
      UpBound(i / 2, d - 1, t);
    }
  }

  lemma {:induction false} UpOfShl(i: nat, d: nat)
    ensures Up(Shl(i, d), d) == i
    decreases d
  {
    if d > 0 {
      UpOfShl(i, d - 1);
    }
  }

  lemma InRegionIffIndexed(g: Geometry, p: Page)
    requires p.order <= g.maxOrder
    ensures InRegion(g, p) <==> p.idx < PageCount(g, p.order)
  {
    UpBound(p.idx, g.maxOrder - p.order, g.top);
  }

  /** Every unit a page of the region covers is a unit of the region. */
  lemma CoveredUnit(g: Geometry, p: Page, u: nat)
    requires InRegion(g, p) && Covers(p, u)
    ensures u < UnitCount(g)
  {
    UpAdd(u, p.order, g.maxOrder - p.order);
    UpBound(u, g.maxOrder, g.top);
  }

  lemma FirstUnit(g: Geometry, p: Page)
    requires InRegion(g, p)
    ensures Shl(p.idx, p.order) in PageUnits(g, p)
  {
    UpOfShl(p.idx, p.order);
    CoveredUnit(g, p, Shl(p.idx, p.order));
  }

  lemma AncestorCovers(p: Page, d: nat, u: nat)
    requires Covers(p, u)
    ensures Covers(Ancestor(p, d), u)
  {
    UpAdd(u, p.order, d);
  }

  /** A page and its buddy are the two halves of their parent. */
  lemma Halves(p: Page, u: nat)
    ensures Covers(Parent(p), u) <==> Covers(p, u) || Covers(BuddyOf(p), u)
    ensures !(Covers(p, u) && Covers(BuddyOf(p), u))
    ensures Parent(BuddyOf(p)) == Parent(p) && BuddyOf(BuddyOf(p)) == p && BuddyOf(p) != p
  {
    UpStep(u, p.order);
  }

  lemma HalvesInRegion(g: Geometry, p: Page)
    requires p.order < g.maxOrder
    ensures InRegion(g, Parent(p)) <==> InRegion(g, p)
    ensures InRegion(g, BuddyOf(p)) <==> InRegion(g, p)
  {}

  lemma ParentUnits(g: Geometry, p: Page)
    ensures PageUnits(g, Parent(p)) == PageUnits(g, p) + PageUnits(g, BuddyOf(p))
    ensures PageUnits(g, p) !! PageUnits(g, BuddyOf(p))
  {
    forall u: nat
      ensures Covers(Parent(p), u) <==> Covers(p, u) || Covers(BuddyOf(p), u)
      ensures !(Covers(p, u) && Covers(BuddyOf(p), u))
    {
      Halves(p, u);
    }
  }

  lemma PageUnitsWithin(g: Geometry, free: set<Page>, p: Page)
    requires p in free
    ensures PageUnits(g, p) <= Units(g, free)
  {}

  // ------------------------------------------------- one page more or less

  lemma AddPage(g: Geometry, free: set<Page>, p: Page)
    requires Canonical(g, free) && InRegion(g, p)
    requires PageUnits(g, p) !! Units(g, free)
    requires p.order < g.maxOrder ==> BuddyOf(p) !in free
    ensures p !in free
    ensures Canonical(g, free + {p})
    ensures Units(g, free + {p}) == Units(g, free) + PageUnits(g, p)
  {
    FirstUnit(g, p);
    forall q, u: nat | q in free && Covers(q, u) ensures !Covers(p, u) {
      CoveredUnit(g, q, u);
      assert u in Units(g, free);
      assert u !in PageUnits(g, p);
    }
    forall q | q in free + {p} && q.order < g.maxOrder ensures BuddyOf(q) !in free + {p} {
      Halves(q, 0);
    }
    var more := free + {p};
    forall u: nat | u < UnitCount(g)
      ensures u in Units(g, more) <==> u in Units(g, free) + PageUnits(g, p)
    {
      if u in Units(g, free) {
        var q :| q in free && Covers(q, u);
        assert q in more;
      } else if Covers(p, u) {
        assert p in more;
      }
    }
  }

  lemma RemovePage(g: Geometry, free: set<Page>, p: Page)
    requires Canonical(g, free) && p in free
    ensures Canonical(g, free - {p})
    ensures PageUnits(g, p) !! Units(g, free - {p})
    ensures Units(g, free) == Units(g, free - {p}) + PageUnits(g, p)
  {}

  // ------------------------------------------------ canonical form theorem

  /** Completeness: if every unit of a page is free then the page itself, or a
      page containing it, is free. */
  lemma {:induction false} FreeUnitsMeanFreePage(g: Geometry, free: set<Page>, c: Page) returns (d: nat)
    requires Canonical(g, free) && InRegion(g, c)
    requires PageUnits(g, c) <= Units(g, free)
    ensures c.order + d <= g.maxOrder && Ancestor(c, d) in free
    decreases c.order
  {
    if c.order == 0 {
      FirstUnit(g, c);
      var u := c.idx;
      assert u in Units(g, free);
      var p :| p in free && Covers(p, u);
      d := p.order;
      assert Ancestor(c, d) == p;
    } else {
      var l, r := Page(c.order - 1, 2 * c.idx), Page(c.order - 1, 2 * c.idx + 1);
      assert Parent(l) == c && BuddyOf(l) == r;
      HalvesInRegion(g, l);
      ParentUnits(g, l);
      var dl := FreeUnitsMeanFreePage(g, free, l);
      var dr := FreeUnitsMeanFreePage(g, free, r);
      if dl > 0 {
        d := dl - 1;
        assert Ancestor(c, d) == Ancestor(l, dl);
      } else {
        assert Ancestor(l, 0) == l && Ancestor(r, 0) == r;
        d := dr - 1;
        assert Ancestor(c, d) == Ancestor(r, dr);
      }
    }
  }

  lemma AncestorUnits(g: Geometry, p: Page, d: nat)
    ensures PageUnits(g, p) <= PageUnits(g, Ancestor(p, d))
  {
    forall u | u in PageUnits(g, p) ensures u in PageUnits(g, Ancestor(p, d)) {
      AncestorCovers(p, d, u);
    }
  }

  lemma FreeIffMaximal(g: Geometry, free: set<Page>, p: Page)
    requires Canonical(g, free)
    ensures p in free <==> Maximal(g, Units(g, free), p)
  {
    if p in free && p.order < g.maxOrder && PageUnits(g, Parent(p)) <= Units(g, free) {
      HalvesInRegion(g, p);
      var d := FreeUnitsMeanFreePage(g, free, Parent(p));
      FirstUnit(g, p);
      var u := Shl(p.idx, p.order);
      Halves(p, u);
      AncestorCovers(Parent(p), d, u);
      assert false;
    }
    if Maximal(g, Units(g, free), p) {
      var d := FreeUnitsMeanFreePage(g, free, p);
      if d > 0 {
        assert Ancestor(Parent(p), d - 1) == Ancestor(p, d);
        AncestorUnits(g, Parent(p), d - 1);
        PageUnitsWithin(g, free, Ancestor(p, d));
        assert false;
      }
      assert Ancestor(p, 0) == p;
    }
  }

  /** The free pages are the unique decomposition of the free units. */
  lemma CanonicalForm(g: Geometry, free: set<Page>)
    requires Canonical(g, free)
    ensures free == Decomposition(g, Units(g, free))
  {
    forall p: Page ensures p in free <==> p in Decomposition(g, Units(g, free)) {
      FreeIffMaximal(g, free, p);
      if p in free {
        InRegionIffIndexed(g, p);
        assert Page(p.order, p.idx) == p;
      }
    }
  }

  // ------------------------------------------------------ the whole region

  lemma AllUnitsAreAll(g: Geometry, u: nat)
    ensures u in AllUnits(g) <==> u < UnitCount(g)
  {
    if u < UnitCount(g) {
      UpBound(u, g.maxOrder, g.top);
      assert Page(g.maxOrder, Up(u, g.maxOrder)) in TopPages(g);
    }
  }

  /** The number of units of a page. */
  lemma {:induction false} PageSize(g: Geometry, p: Page)
    requires InRegion(g, p)
    ensures |PageUnits(g, p)| == Shl(1, p.order)
    decreases p.order
  {
    if p.order == 0 {
      CoveredUnit(g, p, p.idx);
      assert PageUnits(g, p) == {p.idx};
    } else {
      var l := Page(p.order - 1, 2 * p.idx);
      assert Parent(l) == p;
      HalvesInRegion(g, l);
      PageSize(g, l);
      PageSize(g, BuddyOf(l));
      ParentUnits(g, l);
    }
  }

  // ------------------------------------------- decompositions exist as well

  /** Two pages that share a unit are nested. */
  lemma Nested(p: Page, q: Page, u: nat)
    requires Covers(p, u) && Covers(q, u) && p.order <= q.order
    ensures q == Ancestor(p, q.order - p.order)
  {
    UpAdd(u, p.order, q.order - p.order);
  }

  lemma MaximalDisjoint(g: Geometry, us: set<nat>, p: Page, q: Page, u: nat)
    requires Maximal(g, us, p) && Maximal(g, us, q)
    requires Covers(p, u) && Covers(q, u) && p.order <= q.order
    ensures p == q
  {
    Nested(p, q, u);
    var d := q.order - p.order;
    if d > 0 {
      assert Ancestor(Parent(p), d - 1) == q;
      AncestorUnits(g, Parent(p), d - 1);
    }
  }

  /** From a page made of the given units, climb to the maximal one. */
  lemma {:induction false} Climb(g: Geometry, us: set<nat>, p: Page, u: nat) returns (m: Page)
    requires InRegion(g, p) && PageUnits(g, p) <= us && Covers(p, u)
    ensures Maximal(g, us, m) && Covers(m, u)
    decreases g.maxOrder - p.order
  {
    if p.order < g.maxOrder && PageUnits(g, Parent(p)) <= us {
      HalvesInRegion(g, p);
      Halves(p, u);
      m := Climb(g, us, Parent(p), u);
    } else {
      m := p;
    }
  }

  lemma InDecomposition(g: Geometry, us: set<nat>, p: Page)
    ensures p in Decomposition(g, us) <==> Maximal(g, us, p)
  {
    if Maximal(g, us, p) {
      InRegionIffIndexed(g, p);
      assert Page(p.order, p.idx) == p;
    }
  }

  /** Every set of units of the region has a decomposition: it is canonical and
      covers exactly those units. */
  lemma DecompositionIsCanonical(g: Geometry, us: set<nat>)
    requires us <= AllUnits(g)
    ensures Canonical(g, Decomposition(g, us))
    ensures Units(g, Decomposition(g, us)) == us
  {
    var d := Decomposition(g, us);
    forall p ensures p in d <==> Maximal(g, us, p) {
      InDecomposition(g, us, p);
    }
    forall p, q, u: nat | p in d && q in d && Covers(p, u) && Covers(q, u) ensures p == q {
      if p.order <= q.order {
        MaximalDisjoint(g, us, p, q, u);
      } else {
        MaximalDisjoint(g, us, q, p, u);
      }
    }
    forall p | p in d && p.order < g.maxOrder ensures BuddyOf(p) !in d {
      ParentUnits(g, p);
    }
    forall u: nat ensures u in Units(g, d) <==> u in us {
      AllUnitsAreAll(g, u);
      if u in us {
        UpBound(u, g.maxOrder, g.top);
        assert PageUnits(g, Page(0, u)) <= us;
        var m := Climb(g, us, Page(0, u), u);
      }
    }
  }
}
