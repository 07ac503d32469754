/** The buddy page allocator in place (kernel/mm/page.c).

One bitmap per order, a set bit meaning a free page.  The class keeps those
words; `Free()` reads them as a set of pages, and every operation is specified
by the theory in module Buddy.
*/
module PageAllocation {
  import opened Basics
  import opened Bitops
  import opened Buddy

  const PAGE_SIZE_MIN: nat := 256
  const PAGE_SHIFT: nat := 8 // ilog2(PAGE_SIZE_MIN)

  /** page_idx_to_addr. */
  function AddrOf(start: nat, p: Page): nat {
    start + Shl(p.idx, p.order + PAGE_SHIFT)
  }

  /** addr_to_page_idx, as the page of the given order at an address. */
  function PageAt(start: nat, addr: nat, order: nat): Page
    requires start <= addr
  {
    Page(order, Up(addr - start, order + PAGE_SHIFT))
  }

  /** addr & ~((1 << bits) - 1): the low bits shifted out and zeros shifted in. */
  function AlignDown(addr: nat, bits: nat): nat {
    Shl(Up(addr, bits), bits)
  }

  /** The page an allocation of `order` is cut from: among the free pages large
      enough, one of the smallest order, and of those the lowest. */
  ghost predicate BestFit(free: set<Page>, order: nat, q: Page) {
    && q in free && order <= q.order
    && forall p :: p in free && order <= p.order ==> q.order < p.order || (q.order == p.order && q.idx <= p.idx)
  }

  /** The lowest page of `order` inside q. */
  function Leftmost(q: Page, order: nat): Page
    requires order <= q.order
  {
    Page(order, Shl(q.idx, q.order - order))
  }

  // ------------------------------------------------------------ addresses

  lemma AddressRoundTrip(start: nat, p: Page)
    ensures PageAt(start, AddrOf(start, p), p.order) == p
  {
    UpOfShl(p.idx, p.order + PAGE_SHIFT);
  }

  lemma {:induction false} ShlAdd(i: nat, a: nat, b: nat)
    ensures Shl(i, a + b) == Shl(Shl(i, a), b)
  {
    if b > 0 {
      ShlAdd(i, a, b - 1);
    }
  }

  lemma {:induction false} ShlSum(i: nat, j: nat, d: nat)
    ensures Shl(i + j, d) == Shl(i, d) + Shl(j, d)
  {
    if d > 0 {
      ShlSum(i, j, d - 1);
    }
  }

  lemma {:induction false} UpOfSum(a: nat, b: nat, d: nat)
    ensures Up(Shl(a, d) + b, d) == a + Up(b, d)
    decreases d
  {
    if d > 0 {
      UpOfSum(a, b / 2, d - 1);
    }
  }

  lemma Shl4(x: nat)
    ensures Shl(x, 4) == 16 * x
  {
    assert Shl(x, 1) == 2 * x;
    assert Shl(x, 2) == 4 * x;
    assert Shl(x, 3) == 8 * x;
  }

  lemma Shl8(x: nat)
    ensures Shl(x, 8) == 256 * x
  {
    ShlAdd(x, 4, 4);
    Shl4(x);
    Shl4(Shl(x, 4));
  }

  lemma ShlBytes(x: nat, n: nat, m: nat)
    requires m == n + 8
    ensures Shl(x, m) == 256 * Shl(x, n)
  {
    ShlAdd(x, n, 8);
    Shl8(Shl(x, n));
  }

  /** The bytes of a page, from its address on, are those of its units. */
  lemma PageBytes(g: Geometry, start: nat, p: Page, u: nat)
    requires InRegion(g, p)
    ensures u in PageUnits(g, p) <==>
              AddrOf(start, p) <= start + 256 * u < AddrOf(start, p) + 256 * Shl(1, p.order)
    ensures start <= AddrOf(start, p) && AddrOf(start, p) + 256 * Shl(1, p.order) <= start + 256 * UnitCount(g)
  {
    var k := p.order;
    ShlBytes(p.idx, k, k + PAGE_SHIFT);
    UpBound(u, k, p.idx);
    UpBound(u, k, p.idx + 1);
    ShlSum(p.idx, 1, k);
    if Covers(p, u) {
      CoveredUnit(g, p, u);
    }
    LastUnit(g, p);
  }

  /** The last unit of a page of the region is in the region. */
  lemma LastUnit(g: Geometry, p: Page)
    requires InRegion(g, p)
    ensures Shl(p.idx, p.order) + Shl(1, p.order) <= UnitCount(g)
  {
    var k := p.order;
    ShlPositive(k);
    ShlSum(p.idx, 1, k);
    var u := Shl(p.idx, k) + Shl(1, k) - 1;
    UpBound(u, k, p.idx);
    UpBound(u, k, p.idx + 1);
    CoveredUnit(g, p, u);
  }

  lemma {:induction false} ShlPositive(d: nat)
    ensures Shl(1, d) > 0
  {
    if d > 0 {
      ShlPositive(d - 1);
    }
  }

  /** Masking the address of a page to the next order gives the address of its
      parent, because the region starts at a multiple of the largest page. */
  lemma MaskGivesParent(g: Geometry, start: nat, p: Page)
    requires p.order < g.maxOrder && start == AlignDown(start, g.maxOrder + PAGE_SHIFT)
    ensures AlignDown(AddrOf(start, p), p.order + 1 + PAGE_SHIFT) == AddrOf(start, Parent(p))
  {
    var lo := p.order + PAGE_SHIFT;
    var hi := g.maxOrder - p.order - 1;
    var q := Shl(Up(start, g.maxOrder + PAGE_SHIFT), hi);
    assert start == Shl(q, lo + 1) by { ShlAdd(Up(start, g.maxOrder + PAGE_SHIFT), hi, lo + 1); }
    UpOfSum(q, Shl(p.idx, lo), lo + 1);
    UpStep(Shl(p.idx, lo), lo);
    UpOfShl(p.idx, lo);
    ShlSum(q, p.idx / 2, lo + 1);
  }

  lemma Scale(a: nat, b: nat)
    ensures a * (PAGE_SIZE_MIN * b) == PAGE_SIZE_MIN * (a * b)
  {}

  lemma Distribute(q: nat, h: nat, m: nat)
    ensures (q + h) * m == q * m + h * m
  {}

  lemma UnitsUnion(g: Geometry, a: set<Page>, b: set<Page>)
    ensures Units(g, a + b) == Units(g, a) + Units(g, b)
  {}

  lemma UnitsOfOne(g: Geometry, p: Page)
    ensures Units(g, {p}) == PageUnits(g, p)
  {}

  /** The invariant of the splitting loop: c stands apart from a canonical rest,
      it is the lowest page of its order, no page lies between it and the order
      wanted, and the free units are those of the start. */
  ghost predicate Splitting(g: Geometry, free: set<Page>, us: set<nat>, order: nat, c: Page) {
    && c in free && InRegion(g, c) && order <= c.order
    && (forall p :: p in free && p.order == c.order ==> c.idx <= p.idx)
    && (forall p :: p in free && order <= p.order ==> c.order <= p.order)
    && Canonical(g, free - {c})
    && PageUnits(g, c) !! Units(g, free - {c})
    && Units(g, free) == us
  }

  /** Halving c: the right half joins the rest and the left half replaces c. */
  lemma SplitStep(g: Geometry, free: set<Page>, us: set<nat>, order: nat, c: Page)
    requires Splitting(g, free, us, order, c) && order < c.order
    ensures var left := Page(c.order - 1, 2 * c.idx);
            Splitting(g, free - {c} + {left} + {BuddyOf(left)}, us, order, left)
  {
    var left := Page(c.order - 1, 2 * c.idx);
    var rest, right := free - {c}, BuddyOf(left);
    assert Parent(left) == c && BuddyOf(right) == left;
    HalvesInRegion(g, left);
    ParentUnits(g, left);
    AddPage(g, rest, right);
    var next := free - {c} + {left} + {right};
    assert next - {left} == rest + {right};
    assert next == (rest + {right}) + {left};
    UnitsUnion(g, rest + {right}, {left});
    UnitsOfOne(g, left);
    assert free == rest + {c};
    UnitsUnion(g, rest, {c});
    UnitsOfOne(g, c);
  }

  /** With no free page of an order or above, no aligned page of that order is
      made of free units: the search of alloc_pages is complete. */
  lemma NoPageNoUnits(g: Geometry, free: set<Page>, order: nat)
    requires Canonical(g, free)
    requires forall p :: p in free ==> p.order < order
    ensures !exists p :: InRegion(g, p) && p.order == order && PageUnits(g, p) <= Units(g, free)
  {
    forall p | InRegion(g, p) && p.order == order ensures !(PageUnits(g, p) <= Units(g, free)) {
      if PageUnits(g, p) <= Units(g, free) {
        var d := FreeUnitsMeanFreePage(g, free, p);
        assert false;
      }
    }
  }

  /** Taking out the page c leaves exactly the other units. */
  lemma TakenFrom(g: Geometry, free: set<Page>, c: Page)
    requires c in free && PageUnits(g, c) !! Units(g, free - {c})
    ensures PageUnits(g, c) <= Units(g, free)
    ensures Units(g, free - {c}) == Units(g, free) - PageUnits(g, c)
  {}

  // -------------------------------------------------------- free memory size

  function BitValue(bits: seq<Word>, i: nat): nat
    requires i < 32 * |bits|
  {
    if BitAt(bits, i) then 1 else 0
  }

  /** The number of set bits from lo up to hi; __builtin_popcount of byte j of a
      little-endian bitmap is the number from 8 * j up to 8 * j + 8. */
  function PopCount(bits: seq<Word>, lo: nat, hi: nat): nat
    requires lo <= hi <= 32 * |bits|
    decreases hi - lo
  {
    if lo == hi then 0 else PopCount(bits, lo, hi - 1) + BitValue(bits, hi - 1)
  }

  lemma {:induction false} PopCountSplits(bits: seq<Word>, lo: nat, hi: nat)
    requires lo <= hi <= 32 * |bits|
    ensures PopCount(bits, 0, hi) == PopCount(bits, 0, lo) + PopCount(bits, lo, hi)
  {
    if lo < hi {
      PopCountSplits(bits, lo, hi - 1);
    }
  }

  /** The byte loop of get_page_total_free_size. */
  method CountBytes(bits: seq<Word>, count: nat) returns (bitNum: nat)
    requires count % 8 == 0 && count <= 32 * |bits|
    ensures bitNum == PopCount(bits, 0, count)
  {
    bitNum := 0;
    var i := 0;
    for j := 0 to count / 8
      invariant i == 8 * j && bitNum == PopCount(bits, 0, i)
    {
      PopCountSplits(bits, i, i + 8);
      bitNum := bitNum + PopCount(bits, i, i + 8);
      i := i + 8;
    }
  }

  lemma {:induction false} WholeBytes(g: Geometry, k: nat)
    requires k <= g.maxOrder && g.top % 8 == 0
    ensures PageCount(g, k) % 8 == 0
    decreases g.maxOrder - k
  {
    if k < g.maxOrder {
      WholeBytes(g, k + 1);
    }
  }

  /** The free pages of order below k, and those of order k with index below n. */
  ghost function Part(free: set<Page>, k: nat, n: nat): set<Page> {
    set p | p in free && (p.order < k || (p.order == k && p.idx < n))
  }

  lemma OnePageMore(g: Geometry, free: set<Page>, some: set<Page>, p: Page)
    requires Canonical(g, free) && some <= free && p in free && p !in some
    ensures |Units(g, some + {p})| == |Units(g, some)| + Shl(1, p.order)
  {
    UnitsUnion(g, some, {p});
    UnitsOfOne(g, p);
    PageSize(g, p);
    assert Units(g, some) !! PageUnits(g, p);
  }

  /** The number of free pages of order k with index below n. */
  ghost function CountFree(free: set<Page>, k: nat, n: nat): nat {
    if n == 0 then 0 else CountFree(free, k, n - 1) + if Page(k, n - 1) in free then 1 else 0
  }

  /** Each free page of order k stands for 2^k free units of its own. */
  lemma {:induction false} PartSize(g: Geometry, free: set<Page>, k: nat, n: nat)
    requires Canonical(g, free)
    ensures |Units(g, Part(free, k, n))| == |Units(g, Part(free, k, 0))| + CountFree(free, k, n) * Shl(1, k)
  {
    if n > 0 {
      PartSize(g, free, k, n - 1);
      var p, less := Page(k, n - 1), Part(free, k, n - 1);
      if p in free {
        assert Part(free, k, n) == less + {p};
        OnePageMore(g, free, less, p);
        Distribute(CountFree(free, k, n - 1), 1, Shl(1, k));
      } else {
        assert Part(free, k, n) == less;
      }
    }
  }

  lemma {:induction false} PopCountIsCountFree(free: set<Page>, bits: seq<Word>, k: nat, n: nat)
    requires n <= 32 * |bits|
    requires forall i: nat :: i < n ==> (BitAt(bits, i) <==> Page(k, i) in free)
    ensures PopCount(bits, 0, n) == CountFree(free, k, n)
  {
    if n > 0 {
      PopCountIsCountFree(free, bits, k, n - 1);
    }
  }

  class PageAllocator {
    const g: Geometry
    const start: nat
    const maps: seq<array<Word>>
    ghost var free: set<Page> // the pages whose bit is set

    ghost predicate Shape() {
      && |maps| == g.maxOrder + 1
      && (forall k :: 0 <= k < |maps| ==> PageCount(g, k) <= 32 * maps[k].Length)
      && (forall j, k :: 0 <= j < k < |maps| ==> maps[j] != maps[k])
      && start == AlignDown(start, g.maxOrder + PAGE_SHIFT)
    }

    /** The bitmaps hold exactly the free pages, and no bit beyond the last page
        of an order. */
    ghost predicate Linked()
      reads this, maps
    {
      && Shape()
      && (forall p :: p in free ==> InRegion(g, p))
      && (forall k: nat, i: nat {:trigger BitAt(maps[k][..], i)} ::
            k <= g.maxOrder && i < 32 * maps[k].Length ==> (BitAt(maps[k][..], i) <==> Page(k, i) in free))
    }

    ghost predicate Valid()
      reads this, maps
    {
      Linked() && Canonical(g, free)
    }

    /** The bitmaps themselves, word by word. */
    ghost function Words(): seq<seq<Word>>
      reads maps
    {
      seq(|maps|, k requires 0 <= k < |maps| reads maps => maps[k][..])
    }

    /** The static initial bitmaps: only the pages of the top order are free. */
    constructor (geometry: Geometry, address: nat)
      requires address == AlignDown(address, geometry.maxOrder + PAGE_SHIFT)
      ensures g == geometry && start == address
      ensures Valid() && free == TopPages(g)
      ensures fresh(maps)
    {
      var ms: seq<array<Word>> := [];
      var k := 0;
      while k <= geometry.maxOrder
        invariant k <= geometry.maxOrder + 1 && |ms| == k
        invariant fresh(ms)
        invariant forall j :: 0 <= j < k ==> PageCount(geometry, j) <= 32 * ms[j].Length
        invariant forall i, j :: 0 <= i < j < k ==> ms[i] != ms[j]
        invariant forall j :: 0 <= j < k ==> forall w :: 0 <= w < ms[j].Length ==> ms[j][w] == 0
      {
        var a := new Word[PageCount(geometry, k) / 32 + 1](_ => 0);
        ms := ms + [a];
        k := k + 1;
      }
      g, start, maps := geometry, address, ms;
      free := {};
      new;
      forall k: nat, i: nat | k <= g.maxOrder && i < 32 * maps[k].Length ensures !BitAt(maps[k][..], i) {
        UniformWord(i % 32);
      }
      var i := 0;
      while i < g.top
        invariant i <= g.top && Linked() && fresh(maps)
        invariant free == set j: nat | j < i :: Page(g.maxOrder, j)
      {
        SetPage(Page(g.maxOrder, i));
        i := i + 1;
      }
    }

    method SetPage(p: Page)
      requires Linked() && InRegion(g, p)
      modifies this`free, maps[p.order]
      ensures Linked() && free == old(free) + {p}
    {
      InRegionIffIndexed(g, p);
      BitmapSetBit(maps[p.order], p.idx);
      free := free + {p};
    }

    method ClearPage(p: Page)
      requires Linked() && InRegion(g, p)
      modifies this`free, maps[p.order]
      ensures Linked() && free == old(free) - {p}
    {
      InRegionIffIndexed(g, p);
      BitmapClearBit(maps[p.order], p.idx);
      free := free - {p};
    }

    /** find_first_free_page. */
    method FindFirstFreePage(order: nat) returns (r: int)
      requires Linked() && order <= g.maxOrder
      ensures r < 0 ==> forall p :: p in free ==> p.order != order
      ensures r >= 0 ==> Page(order, r) in free
      ensures r >= 0 ==> forall p :: p in free && p.order == order ==> r <= p.idx
    {
      var bits := maps[order][..];
      var i := FindFirst(bits, true, PageCount(g, order));
      forall p | p in free && p.order == order ensures i <= p.idx < PageCount(g, order) {
        InRegionIffIndexed(g, p);
        assert Page(order, p.idx) == p && BitAt(bits, p.idx);
      }
      return if i >= PageCount(g, order) then -1 else i;
    }

    /** split_first_free_page: the lowest free page of `order` is replaced by
        its two halves. */
    method SplitFirstFreePage(order: nat) returns (ghost c: Page)
      requires Linked() && 0 < order <= g.maxOrder
      requires exists p :: p in free && p.order == order
      modifies this`free, maps
      ensures Linked()
      ensures c.order == order && c in old(free)
      ensures forall p :: p in old(free) && p.order == order ==> c.idx <= p.idx
      ensures var left := Page(order - 1, 2 * c.idx);
              free == old(free) - {c} + {left} + {BuddyOf(left)}
    {
      var i := FindFirstFreePage(order);
      c := Page(order, i);
      ghost var left := Page(order - 1, 2 * i);
      assert Parent(left) == c;
      HalvesInRegion(g, left);
      ClearPage(Page(order, i));
      SetPage(Page(order - 1, 2 * i));
      SetPage(Page(order - 1, 2 * i + 1));
    }

    /** The first loop of alloc_pages: the lowest order at or above `order`
        with a free page. */
    method FindOrder(order: nat) returns (i: nat)
      requires Linked()
      ensures order <= i
      ensures forall p :: p in free && order <= p.order ==> i <= p.order
      ensures i <= g.maxOrder ==> exists p :: p in free && p.order == i
    {
      i := order;
      while i <= g.maxOrder
        invariant order <= i
        invariant forall p :: p in free && order <= p.order ==> i <= p.order
      {
        var f := FindFirstFreePage(i);
        if f >= 0 {
          return;
        }
        i := i + 1;
      }
    }

    /** The second loop of alloc_pages: the lowest page q of order `top` is
        halved until its leftmost part has the wanted order.  That part is then
        the lowest free page of the order, and the rest is canonical. */
    method SplitDown(top: nat, order: nat) returns (ghost q: Page)
      requires Valid() && order <= top <= g.maxOrder
      requires exists p :: p in free && p.order == top
      requires forall p :: p in free && order <= p.order ==> top <= p.order
      modifies this`free, maps
      ensures Linked() && BestFit(old(free), order, q)
      ensures Splitting(g, free, Units(g, old(free)), order, Leftmost(q, order))
    {
      ghost var us := Units(g, free);
      var first := FindFirstFreePage(top);
      q := Page(top, first);
      RemovePage(g, free, q);
      ghost var c := q;
      var i := top;
      while i > order
        invariant order <= i <= top && Linked()
        invariant c == Leftmost(q, i)
        invariant Splitting(g, free, us, order, c)
      {
        SplitStep(g, free, us, order, c);
        ghost var d := SplitFirstFreePage(i);
        assert d == c;
        c := Page(i - 1, 2 * c.idx);
        i := i - 1;
      }
    }

    /** alloc_pages.  An allocation fails exactly when no aligned page of that
        order consists of free units; otherwise the page returned is cut from
        the best fitting free page, and what stays free is again the unique
        decomposition of the remaining free units. */
    method AllocPages(order: nat) returns (r: Option<nat>)
      requires Valid()
      modifies this`free, maps
      ensures Valid()
      ensures r.None? <==> !exists p :: InRegion(g, p) && p.order == order && PageUnits(g, p) <= Units(g, old(free))
      ensures r.None? ==> free == old(free)
      ensures r.Some? ==> exists q :: BestFit(old(free), order, q)
                                      && AllocatedFrom(old(free), order, q, r.value, free)
      ensures r.Some? ==> start <= r.value && r.value + 256 * Shl(1, order) <= start + 256 * UnitCount(g)
    {
      var i := FindOrder(order);
      ghost var before := free;
      if i > g.maxOrder {
        NoPageNoUnits(g, before, order);
        return None;
      }
      ghost var q := SplitDown(i, order);
      ghost var c := Leftmost(q, order);
      ghost var last := free;
      var idx := FindFirstFreePage(order);
      assert Page(order, idx) == c;
      ClearPage(Page(order, idx));
      TakenFrom(g, last, c);
      CanonicalForm(g, free);
      r := Some(AddrOf(start, Page(order, idx)));
      assert AllocatedFrom(before, order, q, r.value, free);
      PageBytes(g, start, c, 0);
    }

    /** The effect of a successful allocation: the page handed out is the
        leftmost part of q, all its units were free, and exactly these units
        stop being free. */
    ghost predicate AllocatedFrom(before: set<Page>, order: nat, q: Page, addr: nat, after: set<Page>)
      requires order <= q.order
    {
      var p := Leftmost(q, order);
      && InRegion(g, p) && addr == AddrOf(start, p)
      && PageUnits(g, p) <= Units(g, before)
      && Units(g, after) == Units(g, before) - PageUnits(g, p)
      && after == Decomposition(g, Units(g, after))
    }

    /** free_pages.  The page freed must be one whose units are all in use. */
    method FreePages(addr: nat, order: nat)
      requires Valid() && start <= addr
      requires InRegion(g, PageAt(start, addr, order)) && addr == AddrOf(start, PageAt(start, addr, order))
      requires PageUnits(g, PageAt(start, addr, order)) !! Units(g, free)
      modifies this`free, maps
      ensures Valid()
      ensures Units(g, free) == old(Units(g, free)) + PageUnits(g, PageAt(start, addr, order))
      ensures free == Decomposition(g, Units(g, free))
    {
      ghost var p := PageAt(start, addr, order);
      ghost var goal := Units(g, free) + PageUnits(g, p);
      ghost var c := p;
      var a, k := addr, order;
      while k < g.maxOrder
        invariant k <= g.maxOrder && k == c.order && InRegion(g, c) && a == AddrOf(start, c)
        invariant Valid() && PageUnits(g, c) !! Units(g, free)
        invariant Units(g, free) + PageUnits(g, c) == goal
      {
        var page := PageAt(start, a, k);
        AddressRoundTrip(start, c);
        var buddy := BuddyOf(page);
        HalvesInRegion(g, c);
        InRegionIffIndexed(g, buddy);
        InRegionIffIndexed(g, c);
        if BitAt(maps[k][..], buddy.idx) {
          assert buddy in free;
          RemovePage(g, free, buddy);
          ClearPage(buddy);
          MaskGivesParent(g, start, c);
          ParentUnits(g, c);
          a := AlignDown(a, k + 1 + PAGE_SHIFT);
          k := k + 1;
          c := Parent(c);
        } else {
          assert buddy !in free;
          AddPage(g, free, c);
          SetPage(page);
          CanonicalForm(g, free);
          return;
        }
      }
      AddressRoundTrip(start, c);
      InRegionIffIndexed(g, c);
      AddPage(g, free, c);
      SetPage(PageAt(start, a, k));
      CanonicalForm(g, free);
    }

    /** get_page_total_free_size: the bytes counted from the bitmaps are exactly
        the free units.  The byte loop needs whole bytes of bits at every order,
        as the tables of the source have. */
    method TotalFreeSize() returns (size: nat)
      requires Valid() && g.top % 8 == 0
      ensures size == PAGE_SIZE_MIN * |Units(g, free)|
    {
      size := 0;
      assert Part(free, 0, 0) == {};
      var k := 0;
      while k <= g.maxOrder
        invariant k <= g.maxOrder + 1
        invariant size == PAGE_SIZE_MIN * |Units(g, Part(free, k, 0))|
      {
        var bitNum := CountOrder(k);
        assert |Units(g, Part(free, k + 1, 0))| == |Units(g, Part(free, k, 0))| + bitNum * Shl(1, k) by {
          OrderSize(k);
        }
        Scale(bitNum, Shl(1, k));
        size := size + bitNum * (PAGE_SIZE_MIN * Shl(1, k));
        k := k + 1;
      }
      assert Part(free, g.maxOrder + 1, 0) == free;
    }

    /** The set bits of one bitmap. */
    method CountOrder(k: nat) returns (bitNum: nat)
      requires Shape() && k <= g.maxOrder && g.top % 8 == 0
      ensures bitNum == PopCount(maps[k][..], 0, PageCount(g, k))
    {
      WholeBytes(g, k);
      bitNum := CountBytes(maps[k][..], PageCount(g, k));
    }

    lemma OrderSize(k: nat)
      requires Valid() && k <= g.maxOrder
      ensures |Units(g, Part(free, k + 1, 0))| ==
              |Units(g, Part(free, k, 0))| + PopCount(maps[k][..], 0, PageCount(g, k)) * Shl(1, k)
    {
      var n := PageCount(g, k);
      PopCountIsCountFree(free, maps[k][..], k, n);
      PartSize(g, free, k, n);
      forall p | p in free && p.order == k ensures p.idx < n {
        InRegionIffIndexed(g, p);
      }
      assert Part(free, k, n) == Part(free, k + 1, 0);
    }

    /** Bitmaps that mark the same pages hold the same words. */
    twostate lemma SameFreeSameWords()
      requires old(Linked()) && Linked() && free == old(free)
      ensures Words() == old(Words())
    {
      forall k: nat | k <= g.maxOrder ensures maps[k][..] == old(maps[k][..]) {
        BitmapExtensionality(maps[k][..], old(maps[k][..]));
      }
    }

    /** An allocation undone at once by free_pages restores every bitmap word. */
    method AllocThenFree(order: nat) returns (r: Option<nat>)
      requires Valid()
      modifies this`free, maps
      ensures Valid() && Words() == old(Words())
    {
      ghost var before := free;
      ghost var us := Units(g, before);
      assert before == Decomposition(g, us) by { CanonicalForm(g, before); }
      r := AllocPages(order);
      if r.Some? {
        ghost var q :| BestFit(before, order, q) && AllocatedFrom(before, order, q, r.value, free);
        ghost var p := Leftmost(q, order);
        assert PageAt(start, r.value, order) == p by { AddressRoundTrip(start, p); }
        FreePages(r.value, order);
        assert Units(g, free) == us;
      }
      assert free == before;
      SameFreeSameWords();
    }
  }
}
