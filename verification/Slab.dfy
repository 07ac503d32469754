/** Slab caches whose slabs are single pages (kernel/mm/slab.c), on top of the
    buddy page allocator.

A slab is one 256-byte page: a header of 16 bytes (a bitmap word, a count and
list links) and `objnum` objects of `objsize` bytes.  The header of the slab at
an address is an entry of `slabs`, and the three lists hold slab addresses.
*/
module SlabCache {
  import opened Basics
  import opened Bitops
  import opened Buddy
  import opened PageAllocation

  const HEADER: nat := 16 // sizeof(struct slab)

  datatype Slab = Slab(bitmap: Word, freeObjects: int)

  /** OBJS_PER_SLAB for a page of 256 bytes. */
  function ObjectsPerSlab(size: nat): nat
    requires size > 0
  {
    (PAGE_SIZE_MIN - HEADER) / size
  }

  function ObjAddr(slab: nat, i: nat, size: nat): nat {
    slab + HEADER + i * size
  }

  /** get_slab_from_obj: the address rounded down to a page. */
  function SlabOf(obj: nat): nat {
    obj - obj % 256
  }

  /** obj_index_in_slab. */
  function ObjIndex(obj: nat, size: nat): int
    requires size > 0
  {
    (obj % 256 - HEADER) / size
  }

  // ------------------------------------------------------------ addresses

  lemma Mono(a: nat, b: nat, c: nat)
    requires a <= b
    ensures a * c <= b * c
  {}

  lemma Quotient(q: nat, r: nat, size: nat)
    requires r < size
    ensures (q * size + r) / size == q
  {
    var x := q * size + r;
    var p := x / size;
    assert p * size <= x < p * size + size;
    if p < q {
      Mono(p + 1, q, size);
    } else if q < p {
      Mono(q + 1, p, size);
    }
  }

  /** Rounding down is masking out the low eight bits. */
  lemma SlabOfIsMask(a: nat)
    ensures SlabOf(a) == AlignDown(a, 8)
  {
    Shl8(a / 256);
    assert Up(a, 8) == a / 2 / 2 / 2 / 2 / 2 / 2 / 2 / 2;
    assert a / 2 / 2 == a / 4 && a / 4 / 2 / 2 == a / 16 && a / 16 / 2 / 2 == a / 64 && a / 64 / 2 / 2 == a / 256;
  }

  /** An object lies inside its page, clear of the header, and its address gives
      back the slab and the index. */
  lemma ObjectPlace(slab: nat, i: nat, size: nat)
    requires size > 0 && i < ObjectsPerSlab(size) && slab % 256 == 0
    ensures slab + 16 <= ObjAddr(slab, i, size) && ObjAddr(slab, i, size) + size <= slab + 256
    ensures SlabOf(ObjAddr(slab, i, size)) == slab && ObjIndex(ObjAddr(slab, i, size), size) == i
  {
    ObjectInside(slab, i, size);
    Quotient(i, 0, size);
    var x := ObjAddr(slab, i, size);
    assert x % 256 == HEADER + i * size;
  }

  lemma ShlMultiple(x: nat, n: nat, m: nat)
    requires m == n + 8
    ensures Shl(x, m) % 256 == 0
  {
    ShlBytes(x, n, m);
  }

  lemma AlignedDown(a: nat, n: nat, m: nat)
    requires m == n + 8
    ensures AlignDown(a, m) % 256 == 0
  {
    ShlMultiple(Up(a, m), n, m);
  }

  lemma SumAligned(a: nat, b: nat)
    requires a % 256 == 0 && b % 256 == 0
    ensures (a + b) % 256 == 0
  {}

  /** Pages are aligned to 256 bytes. */
  lemma PageAligned(g: Geometry, start: nat, p: Page)
    requires start == AlignDown(start, g.maxOrder + PAGE_SHIFT)
    ensures AddrOf(start, p) % 256 == 0
  {
    AlignedDown(start, g.maxOrder, g.maxOrder + PAGE_SHIFT);
    ShlMultiple(p.idx, p.order, p.order + PAGE_SHIFT);
    SumAligned(start, Shl(p.idx, p.order + PAGE_SHIFT));
  }

  // ---------------------------------------------------------------- slabs

  /** The indices of the set bits below n. */
  ghost function Used(w: Word, n: nat): (r: set<nat>)
    requires n <= 32
    ensures |r| <= n && forall i :: i in r ==> i < n
  {
    if n == 0 then {} else Used(w, n - 1) + if Bit(w, n - 1) then {n - 1} else {}
  }

  lemma {:induction false} UsedIff(w: Word, n: nat, i: nat)
    requires i < n <= 32
    ensures i in Used(w, n) <==> BitAt([w], i)
  {
    if i < n - 1 {
      UsedIff(w, n - 1, i);
    }
  }

  lemma UsedChange(w: Word, r: Word, b: nat, n: nat, v: bool)
    requires b < n <= 32 && forall i: nat :: i < n ==> BitAt([r], i) == if i == b then v else BitAt([w], i)
    ensures Used(r, n) == if v then Used(w, n) + {b} else Used(w, n) - {b}
  {
    forall i: nat | i < n ensures i in Used(r, n) <==> if i == b then v else i in Used(w, n) {
      UsedIff(r, n, i);
      UsedIff(w, n, i);
    }
  }

  lemma UsedSet(w: Word, b: nat, n: nat)
    requires b < n <= 32
    ensures Used(SetBit([w], b)[0], n) == Used(w, n) + {b}
  {
    var r := SetBit([w], b);
    assert r == [r[0]];
    UsedChange(w, r[0], b, n, true);
  }

  lemma UsedClear(w: Word, b: nat, n: nat)
    requires b < n <= 32
    ensures Used(ClearBit([w], b)[0], n) == Used(w, n) - {b}
  {
    var r := ClearBit([w], b);
    assert r == [r[0]];
    UsedChange(w, r[0], b, n, false);
  }

  lemma {:induction false} EmptyWord(n: nat)
    requires n <= 32
    ensures Used(0, n) == {}
  {
    if n > 0 {
      EmptyWord(n - 1);
      UniformWord(n - 1);
    }
  }

  lemma {:induction false} AllUsed(w: Word, n: nat)
    requires n <= 32 && forall i: nat :: i < n ==> BitAt([w], i)
    ensures |Used(w, n)| == n
  {
    if n > 0 {
      AllUsed(w, n - 1);
      assert BitAt([w], n - 1);
    }
  }

  // ---------------------------------------------------------------- lists

  /** Slab a is in a list exactly when its count of free objects is in a range. */
  ghost predicate Listed(l: seq<nat>, slabs: map<nat, Slab>, lo: int, hi: int, a: nat) {
    a in l <==> a in slabs && lo <= slabs[a].freeObjects <= hi
  }

  /** A list holds, once each, the slabs whose count of free objects is in a
      range. */
  ghost predicate Lists(l: seq<nat>, slabs: map<nat, Slab>, lo: int, hi: int) {
    && NoDup(l)
    && forall a {:trigger Listed(l, slabs, lo, hi, a)} :: Listed(l, slabs, lo, hi, a)
  }

  /** What a change of one slab does to a list. */
  function Relisted(l: seq<nat>, slabs: map<nat, Slab>, lo: int, hi: int, a: nat, s: Slab): seq<nat> {
    if (a in slabs && lo <= slabs[a].freeObjects <= hi) == (lo <= s.freeObjects <= hi) then l
    else if lo <= s.freeObjects <= hi then l + [a]
    else Without(l, a)
  }

  lemma RelistedLists(l: seq<nat>, slabs: map<nat, Slab>, lo: int, hi: int, a: nat, s: Slab)
    requires Lists(l, slabs, lo, hi)
    ensures Lists(Relisted(l, slabs, lo, hi, a, s), slabs[a := s], lo, hi)
  {
    var l', slabs' := Relisted(l, slabs, lo, hi, a, s), slabs[a := s];
    WithoutMembers(l, a);
    assert Listed(l, slabs, lo, hi, a);
    forall b ensures Listed(l', slabs', lo, hi, b) {
      assert Listed(l, slabs, lo, hi, b);
    }
  }

  lemma RemovedLists(l: seq<nat>, slabs: map<nat, Slab>, lo: int, hi: int, a: nat)
    requires Lists(l, slabs, lo, hi)
    ensures Lists(Without(l, a), slabs - {a}, lo, hi)
  {
    var l', slabs' := Without(l, a), slabs - {a};
    WithoutMembers(l, a);
    forall b ensures Listed(l', slabs', lo, hi, b) {
      assert Listed(l, slabs, lo, hi, b);
    }
  }

  // --------------------------------------------------------------- objects

  ghost predicate SlabOk(s: Slab, n: nat)
    requires n <= 32
  {
    s.freeObjects == n - |Used(s.bitmap, n)|
  }

  /** The objects handed out, by address. */
  ghost function LiveObjects(slabs: map<nat, Slab>, size: nat, n: nat): set<nat>
    requires n <= 32
  {
    set a, i | a in slabs && i in Used(slabs[a].bitmap, n) :: ObjAddr(a, i, size)
  }

  lemma LiveIff(slabs: map<nat, Slab>, size: nat, n: nat, x: nat)
    requires size > 0 && n == ObjectsPerSlab(size) && n <= 32
    requires forall a :: a in slabs ==> a % 256 == 0
    ensures x in LiveObjects(slabs, size, n) <==>
              && SlabOf(x) in slabs && ObjIndex(x, size) >= 0 && x == ObjAddr(SlabOf(x), ObjIndex(x, size), size)
              && ObjIndex(x, size) in Used(slabs[SlabOf(x)].bitmap, n)
  {
    if x in LiveObjects(slabs, size, n) {
      var a, i :| a in slabs && i in Used(slabs[a].bitmap, n) && x == ObjAddr(a, i, size);
      ObjectPlace(a, i, size);
    }
  }

  /** Live objects are disjoint, inside their page and clear of its header. */
  lemma LiveDisjoint(slabs: map<nat, Slab>, size: nat, n: nat, x: nat, y: nat)
    requires size > 0 && n == ObjectsPerSlab(size) && n <= 32
    requires forall a :: a in slabs ==> a % 256 == 0
    requires x in LiveObjects(slabs, size, n) && y in LiveObjects(slabs, size, n) && x != y
    ensures SlabOf(x) + 16 <= x && x + size <= SlabOf(x) + 256
    ensures x + size <= y || y + size <= x
  {
    LiveIff(slabs, size, n, x);
    LiveIff(slabs, size, n, y);
    ObjectsApart(SlabOf(x), ObjIndex(x, size), SlabOf(y), ObjIndex(y, size), size);
  }

  lemma ObjectInside(slab: nat, i: nat, size: nat)
    requires size > 0 && i < ObjectsPerSlab(size)
    ensures slab + HEADER <= ObjAddr(slab, i, size) && ObjAddr(slab, i, size) + size <= slab + PAGE_SIZE_MIN
  {}

  lemma ObjectsOrdered(slab: nat, i: nat, j: nat, size: nat)
    requires i < j
    ensures ObjAddr(slab, i, size) + size <= ObjAddr(slab, j, size)
  {
    Mono(i + 1, j, size);
  }

  lemma ObjectsApart(a: nat, i: nat, b: nat, j: nat, size: nat)
    requires size > 0 && i < ObjectsPerSlab(size) && j < ObjectsPerSlab(size)
    requires a % 256 == 0 && b % 256 == 0 && (a != b || i != j)
    ensures var x, y := ObjAddr(a, i, size), ObjAddr(b, j, size);
            && a + HEADER <= x && x + size <= a + PAGE_SIZE_MIN
            && (x + size <= y || y + size <= x)
  {
    ObjectInside(a, i, size);
    ObjectInside(b, j, size);
    if a != b {
      PagesApart(a, b);
    } else if i < j {
      ObjectsOrdered(a, i, j, size);
    } else {
      ObjectsOrdered(a, j, i, size);
    }
  }

  lemma PagesApart(a: nat, b: nat)
    requires a % 256 == 0 && b % 256 == 0 && a != b
    ensures a + PAGE_SIZE_MIN <= b || b + PAGE_SIZE_MIN <= a
  {}

  /** Changing the bitmap of one slab changes the live objects of that slab only. */
  lemma LiveUpdate(slabs: map<nat, Slab>, size: nat, n: nat, a: nat, s: Slab, x: nat)
    requires size > 0 && n == ObjectsPerSlab(size) && n <= 32 && a % 256 == 0
    requires forall b :: b in slabs ==> b % 256 == 0
    ensures x in LiveObjects(slabs[a := s], size, n) <==>
              if SlabOf(x) == a
              then ObjIndex(x, size) >= 0 && x == ObjAddr(a, ObjIndex(x, size), size)
                && ObjIndex(x, size) in Used(s.bitmap, n)
              else x in LiveObjects(slabs, size, n)
  {
    LiveIff(slabs, size, n, x);
    LiveIff(slabs[a := s], size, n, x);
  }

  /** One more used bit is one more live object. */
  lemma LiveAdd(slabs: map<nat, Slab>, size: nat, n: nat, a: nat, s: Slab, bit: nat)
    requires size > 0 && n == ObjectsPerSlab(size) && n <= 32 && bit < n
    requires a in slabs && forall b :: b in slabs ==> b % 256 == 0
    requires bit !in Used(slabs[a].bitmap, n) && Used(s.bitmap, n) == Used(slabs[a].bitmap, n) + {bit}
    ensures ObjAddr(a, bit, size) !in LiveObjects(slabs, size, n)
    ensures LiveObjects(slabs[a := s], size, n) == LiveObjects(slabs, size, n) + {ObjAddr(a, bit, size)}
  {
    var obj, after := ObjAddr(a, bit, size), LiveObjects(slabs[a := s], size, n);
    ObjectPlace(a, bit, size);
    LiveIff(slabs, size, n, obj);
    forall x: nat ensures x in after <==> x in LiveObjects(slabs, size, n) || x == obj {
      LiveUpdate(slabs, size, n, a, s, x);
      LiveIff(slabs, size, n, x);
    }
  }

  /** One used bit less is one live object less. */
  lemma LiveRemove(slabs: map<nat, Slab>, size: nat, n: nat, a: nat, s: Slab, bit: nat)
    requires size > 0 && n == ObjectsPerSlab(size) && n <= 32 && bit < n
    requires a in slabs && forall b :: b in slabs ==> b % 256 == 0
    requires Used(s.bitmap, n) == Used(slabs[a].bitmap, n) - {bit}
    ensures LiveObjects(slabs[a := s], size, n) == LiveObjects(slabs, size, n) - {ObjAddr(a, bit, size)}
  {
    var obj, after := ObjAddr(a, bit, size), LiveObjects(slabs[a := s], size, n);
    ObjectPlace(a, bit, size);
    forall x: nat ensures x in after <==> x in LiveObjects(slabs, size, n) && x != obj {
      LiveUpdate(slabs, size, n, a, s, x);
      LiveIff(slabs, size, n, x);
    }
  }

  /** A slab without used bits has no live objects. */
  lemma LiveEmptySlab(slabs: map<nat, Slab>, size: nat, n: nat, a: nat)
    requires size > 0 && n == ObjectsPerSlab(size) && n <= 32
    requires a in slabs && (forall b :: b in slabs ==> b % 256 == 0) && Used(slabs[a].bitmap, n) == {}
    ensures LiveObjects(slabs - {a}, size, n) == LiveObjects(slabs, size, n)
    ensures forall x :: x in LiveObjects(slabs, size, n) ==> SlabOf(x) != a
  {
    var without := LiveObjects(slabs - {a}, size, n);
    forall x: nat
      ensures x in without <==> x in LiveObjects(slabs, size, n)
      ensures x in LiveObjects(slabs, size, n) ==> SlabOf(x) != a
    {
      LiveIff(slabs, size, n, x);
      LiveIff(slabs - {a}, size, n, x);
    }
  }

  lemma LiveWitness(slabs: map<nat, Slab>, size: nat, n: nat, a: nat)
    requires size > 0 && n == ObjectsPerSlab(size) && n <= 32
    requires a in slabs && a % 256 == 0 && Used(slabs[a].bitmap, n) != {}
    ensures exists x :: x in LiveObjects(slabs, size, n) && SlabOf(x) == a
  {
    var i :| i in Used(slabs[a].bitmap, n);
    ObjectPlace(a, i, size);
    assert ObjAddr(a, i, size) in LiveObjects(slabs, size, n);
  }

  lemma LiveNewSlab(slabs: map<nat, Slab>, size: nat, n: nat, a: nat, s: Slab)
    requires size > 0 && n == ObjectsPerSlab(size) && n <= 32 && a % 256 == 0
    requires a !in slabs && (forall b :: b in slabs ==> b % 256 == 0) && Used(s.bitmap, n) == {}
    ensures LiveObjects(slabs[a := s], size, n) == LiveObjects(slabs, size, n)
  {}

  // ------------------------------------------------------------- the cache

  /** Every slab is aligned, its count is the number of clear bits, and it is on
      the list that its count calls for, once, and on no other. */
  ghost predicate CacheOk(n: nat, slabs: map<nat, Slab>, free: seq<nat>, partial: seq<nat>, full: seq<nat>)
    requires n <= 32
  {
    && (forall a :: a in slabs ==> a % 256 == 0) && (forall a {:trigger slabs[a]} :: a in slabs ==> SlabOk(slabs[a], n))
    && Lists(free, slabs, n, n) && Lists(partial, slabs, 1, n - 1) && Lists(full, slabs, 0, 0)
  }

  lemma CacheUpdate(n: nat, slabs: map<nat, Slab>, free: seq<nat>, partial: seq<nat>, full: seq<nat>, a: nat, s: Slab)
    requires n <= 32 && CacheOk(n, slabs, free, partial, full) && a % 256 == 0 && SlabOk(s, n)
    ensures CacheOk(n, slabs[a := s], Relisted(free, slabs, n, n, a, s), Relisted(partial, slabs, 1, n - 1, a, s),
                    Relisted(full, slabs, 0, 0, a, s))
  {
    RelistedLists(free, slabs, n, n, a, s);
    RelistedLists(partial, slabs, 1, n - 1, a, s);
    RelistedLists(full, slabs, 0, 0, a, s);
  }

  /** A new empty slab goes to the end of the free list. */
  lemma GrowLists(n: nat, slabs: map<nat, Slab>, free: seq<nat>, partial: seq<nat>, full: seq<nat>, a: nat)
    requires 0 < n <= 32 && CacheOk(n, slabs, free, partial, full) && a !in slabs && a % 256 == 0
    ensures CacheOk(n, slabs[a := Slab(0, n)], free + [a], partial, full)
  {
    EmptyWord(n);
    CacheUpdate(n, slabs, free, partial, full, a, Slab(0, n));
  }

  ghost predicate AllFull(slabs: map<nat, Slab>) {
    forall a {:trigger slabs[a]} :: a in slabs ==> slabs[a].freeObjects == 0
  }

  /** No object is free exactly when the lists that are searched are empty. */
  lemma NoneFree(n: nat, slabs: map<nat, Slab>, free: seq<nat>, partial: seq<nat>, full: seq<nat>)
    requires 0 < n <= 32 && CacheOk(n, slabs, free, partial, full)
    ensures AllFull(slabs) <==> free == [] && partial == []
  {
    if free != [] {
      assert Listed(free, slabs, n, n, free[0]);
    } else if partial != [] {
      assert Listed(partial, slabs, 1, n - 1, partial[0]);
    } else {
      forall a | a in slabs ensures slabs[a].freeObjects == 0 {
        assert SlabOk(slabs[a], n);
        assert Listed(free, slabs, n, n, a) && Listed(partial, slabs, 1, n - 1, a);
      }
    }
  }

  /** The list moves of kmem_cache_alloc. */
  lemma TakeLists(n: nat, slabs: map<nat, Slab>, free: seq<nat>, partial: seq<nat>, full: seq<nat>, a: nat, s: Slab,
                  fromFree: bool)
    requires 0 < n <= 32 && CacheOk(n, slabs, free, partial, full) && a in slabs
    requires if fromFree then a in free && partial == [] else a in partial
    requires s.freeObjects == slabs[a].freeObjects - 1 && SlabOk(s, n)
    ensures var partial' := if fromFree then partial + [a] else partial;
            CacheOk(n, slabs[a := s], if fromFree then Without(free, a) else free,
                    if s.freeObjects == 0 then Without(partial', a) else partial',
                    if s.freeObjects == 0 then full + [a] else full)
  {
    assert Listed(free, slabs, n, n, a) && Listed(partial, slabs, 1, n - 1, a);
    CacheUpdate(n, slabs, free, partial, full, a, s);
  }

  /** The list moves of kmem_cache_free when the slab stays. */
  lemma ReturnLists(n: nat, slabs: map<nat, Slab>, free: seq<nat>, partial: seq<nat>, full: seq<nat>, a: nat, s: Slab)
    requires 0 < n <= 32 && CacheOk(n, slabs, free, partial, full) && a in slabs
    requires s.freeObjects == slabs[a].freeObjects + 1 && 0 < s.freeObjects < n && SlabOk(s, n)
    ensures CacheOk(n, slabs[a := s], free, if s.freeObjects == 1 then partial + [a] else partial,
                    if s.freeObjects == 1 then Without(full, a) else full)
  {
    CacheUpdate(n, slabs, free, partial, full, a, s);
  }

  lemma CacheRemove(n: nat, slabs: map<nat, Slab>, free: seq<nat>, partial: seq<nat>, full: seq<nat>, a: nat)
    requires n <= 32 && CacheOk(n, slabs, free, partial, full)
    ensures CacheOk(n, slabs - {a}, Without(free, a), Without(partial, a), Without(full, a))
  {
    RemovedLists(free, slabs, n, n, a);
    RemovedLists(partial, slabs, 1, n - 1, a);
    RemovedLists(full, slabs, 0, 0, a);
  }

  // ------------------------------------------------------------- its pages

  /** The page at an address is held, not free. */
  ghost predicate Owned(g: Geometry, start: nat, free: set<Page>, a: nat) {
    && start <= a && InRegion(g, PageAt(start, a, 0)) && a == AddrOf(start, PageAt(start, a, 0))
    && PageUnits(g, PageAt(start, a, 0)) !! Units(g, free)
  }

  /** A page of order 0 is one unit. */
  lemma OneUnit(g: Geometry, p: Page)
    requires InRegion(g, p) && p.order == 0
    ensures PageUnits(g, p) == {p.idx}
  {
    InRegionIffIndexed(g, p);
    assert Covers(p, p.idx);
    forall u | u in PageUnits(g, p) ensures u == p.idx {
      assert Covers(p, u);
    }
  }

  /** No page of order 0 consists of free units exactly when no unit is free. */
  lemma NoUnitNoPage(g: Geometry, free: set<Page>)
    ensures Units(g, free) == {} <==> !exists p :: InRegion(g, p) && p.order == 0 && PageUnits(g, p) <= Units(g, free)
  {
    if u: nat :| u in Units(g, free) {
      var p := Page(0, u);
      InRegionIffIndexed(g, p);
      OneUnit(g, p);
    } else {
      forall p | InRegion(g, p) && p.order == 0 ensures !(PageUnits(g, p) <= Units(g, free)) {
        OneUnit(g, p);
        assert p.idx in PageUnits(g, p);
      }
    }
  }

  /** Freeing the page of one slab leaves the pages of the others held. */
  lemma OthersOwned(g: Geometry, start: nat, before: set<Page>, after: set<Page>, a: nat, b: nat)
    requires Owned(g, start, before, a) && Owned(g, start, before, b) && a != b
    requires Units(g, after) == Units(g, before) + PageUnits(g, PageAt(start, a, 0))
    ensures Owned(g, start, after, b)
  {}

  class KmemCache {
    const objsize: nat
    const objnum: nat
    const pages: PageAllocator
    var slabs: map<nat, Slab>
    var slabsFree: seq<nat>
    var slabsPartial: seq<nat>
    var slabsFull: seq<nat>

    ghost predicate Shape() {
      objsize > 0 && objnum == ObjectsPerSlab(objsize) && 1 <= objnum <= 32
    }

    ghost predicate SlabsValid()
      reads this`slabs, this`slabsFree, this`slabsPartial, this`slabsFull
    {
      1 <= objnum <= 32 && CacheOk(objnum, slabs, slabsFree, slabsPartial, slabsFull)
    }

    ghost predicate PagesHeld()
      reads this`slabs, pages
    {
      forall a {:trigger Owned(pages.g, pages.start, pages.free, a)} :: a in slabs ==>
        Owned(pages.g, pages.start, pages.free, a)
    }

    ghost predicate Valid()
      reads this`slabs, this`slabsFree, this`slabsPartial, this`slabsFull, pages, pages.maps
    {
      Shape() && SlabsValid() && PagesHeld() && pages.Valid()
    }

    ghost function Live(): set<nat>
      requires Shape()
      reads this`slabs
    {
      LiveObjects(slabs, objsize, objnum)
    }

    ghost function FreeUnits(): set<nat>
      reads pages
    {
      Units(pages.g, pages.free)
    }

    ghost function UnitsOf(slab: nat): set<nat>
      requires pages.start <= slab
    {
      PageUnits(pages.g, PageAt(pages.start, slab, 0))
    }

    /** A cache that is just created: one bitmap word must suffice for a slab. */
    constructor (size: nat, allocator: PageAllocator)
      requires size > 0 && 1 <= ObjectsPerSlab(size) <= 32 && allocator.Valid()
      ensures Valid() && objsize == size && pages == allocator && slabs == map[] && Live() == {}
    {
      objsize, objnum, pages := size, ObjectsPerSlab(size), allocator;
      slabs, slabsFree, slabsPartial, slabsFull := map[], [], [], [];
    }

    /** kmem_cache_grow: a new empty slab at the end of the free list, in a page
        taken from the page allocator; it fails only when no unit is free. */
    method Grow() returns (r: Option<nat>)
      requires Valid()
      modifies this`slabs, this`slabsFree, pages`free, pages.maps
      ensures Valid()
      ensures r.None? <==> old(FreeUnits()) == {}
      ensures r.None? ==> slabs == old(slabs) && slabsFree == old(slabsFree) && pages.free == old(pages.free)
      ensures r.Some? ==> r.value !in old(slabs) && slabs == old(slabs)[r.value := Slab(0, objnum)]
                          && slabsFree == old(slabsFree) + [r.value] && pages.start <= r.value
                          && UnitsOf(r.value) <= old(FreeUnits()) && FreeUnits() == old(FreeUnits()) - UnitsOf(r.value)
      ensures Live() == old(Live())
    {
      NoUnitNoPage(pages.g, pages.free);
      ghost var before, had := pages.free, slabs;
      r := pages.AllocPages(0);
      if r.Some? {
        var a := r.value;
        ghost var q :| BestFit(before, 0, q) && pages.AllocatedFrom(before, 0, q, a, pages.free);
        NewPage(before, a, Leftmost(q, 0));
        AddSlab(a);
      }
    }

    /** The header and the list entry of a new slab. */
    method AddSlab(a: nat)
      requires Shape() && SlabsValid() && a !in slabs && a % 256 == 0
      modifies this`slabs, this`slabsFree
      ensures SlabsValid() && slabs == old(slabs)[a := Slab(0, objnum)] && slabsFree == old(slabsFree) + [a]
      ensures Live() == old(Live())
    {
      EmptyWord(objnum);
      LiveNewSlab(slabs, objsize, objnum, a, Slab(0, objnum));
      GrowLists(objnum, slabs, slabsFree, slabsPartial, slabsFull, a);
      slabs := slabs[a := Slab(0, objnum)];
      slabsFree := slabsFree + [a];
    }

    /** The page just allocated is held, and was not held before. */
    lemma NewPage(before: set<Page>, a: nat, p: Page)
      requires pages.Shape() && InRegion(pages.g, p) && p.order == 0 && a == AddrOf(pages.start, p)
      requires PageUnits(pages.g, p) <= Units(pages.g, before)
      requires Units(pages.g, pages.free) == Units(pages.g, before) - PageUnits(pages.g, p)
      ensures Owned(pages.g, pages.start, pages.free, a) && PageAt(pages.start, a, 0) == p && a % 256 == 0
      ensures forall b :: Owned(pages.g, pages.start, before, b) ==>
                b != a && Owned(pages.g, pages.start, pages.free, b)
    {
      AddressRoundTrip(pages.start, p);
      PageAligned(pages.g, pages.start, p);
      OneUnit(pages.g, p);
      assert p.idx in PageUnits(pages.g, p);
    }

    /** The second half of kmem_cache_alloc: an object is taken from slab a, which
        heads the partial list or has just been taken from the free list. */
    method TakeObject(a: nat, fromFree: bool) returns (obj: nat)
      requires Shape() && SlabsValid() && a in slabs
      requires if fromFree then a in slabsFree && slabsPartial == [] else a in slabsPartial
      modifies this`slabs, this`slabsFree, this`slabsPartial, this`slabsFull
      ensures SlabsValid() && SlabOf(obj) == a && slabs.Keys == old(slabs.Keys)
      ensures obj !in old(Live()) && Live() == old(Live()) + {obj}
    {
      assert Listed(slabsFree, slabs, objnum, objnum, a) && Listed(slabsPartial, slabs, 1, objnum - 1, a);
      var bit, s := MarkFirst(slabs[a]);
      LiveAdd(slabs, objsize, objnum, a, s, bit);
      ObjectPlace(a, bit, objsize);
      obj := ObjAddr(a, bit, objsize);
      Taken(a, s, fromFree);
    }

    /** The list moves of kmem_cache_alloc, and the new header of the slab. */
    method Taken(a: nat, s: Slab, fromFree: bool)
      requires SlabsValid() && a in slabs && s.freeObjects == slabs[a].freeObjects - 1 && SlabOk(s, objnum)
      requires if fromFree then a in slabsFree && slabsPartial == [] else a in slabsPartial
      modifies this`slabs, this`slabsFree, this`slabsPartial, this`slabsFull
      ensures SlabsValid() && slabs == old(slabs)[a := s]
    {
      if fromFree {
        TakenFromFree(a, s);
      } else {
        TakenFromPartial(a, s);
      }
    }

    method TakenFromFree(a: nat, s: Slab)
      requires SlabsValid() && a in slabs && s.freeObjects == slabs[a].freeObjects - 1 && SlabOk(s, objnum)
      requires a in slabsFree && slabsPartial == []
      modifies this`slabs, this`slabsFree, this`slabsPartial, this`slabsFull
      ensures SlabsValid() && slabs == old(slabs)[a := s]
    {
      TakeLists(objnum, slabs, slabsFree, slabsPartial, slabsFull, a, s, true);
      slabs := slabs[a := s];
      slabsFree := Without(slabsFree, a);
      slabsPartial := slabsPartial + [a];
      if s.freeObjects == 0 {
        slabsPartial := Without(slabsPartial, a);
        slabsFull := slabsFull + [a];
      }
    }

    method TakenFromPartial(a: nat, s: Slab)
      requires SlabsValid() && a in slabs && s.freeObjects == slabs[a].freeObjects - 1 && SlabOk(s, objnum)
      requires a in slabsPartial
      modifies this`slabs, this`slabsPartial, this`slabsFull
      ensures SlabsValid() && slabs == old(slabs)[a := s]
    {
      TakeLists(objnum, slabs, slabsFree, slabsPartial, slabsFull, a, s, false);
      slabs := slabs[a := s];
      if s.freeObjects == 0 {
        slabsPartial := Without(slabsPartial, a);
        slabsFull := slabsFull + [a];
      }
    }

    /** The first free object of a slab is marked and counted. */
    method MarkFirst(s: Slab) returns (bit: nat, s': Slab)
      requires 1 <= objnum <= 32 && SlabOk(s, objnum) && s.freeObjects > 0
      ensures bit < objnum && bit !in Used(s.bitmap, objnum)
      ensures Used(s'.bitmap, objnum) == Used(s.bitmap, objnum) + {bit}
      ensures s'.freeObjects == s.freeObjects - 1 && SlabOk(s', objnum)
    {
      bit := FindFirst([s.bitmap], false, objnum);
      if forall i: nat :: i < objnum ==> BitAt([s.bitmap], i) {
        AllUsed(s.bitmap, objnum);
      }
      UsedIff(s.bitmap, objnum, bit);
      UsedSet(s.bitmap, bit, objnum);
      s' := Slab(SetBit([s.bitmap], bit)[0], s.freeObjects - 1);
    }

    /** kmem_cache_alloc.  It fails only when every slab is full and no page is
        left; otherwise the object returned is a new live object. */
    method Alloc() returns (r: Option<nat>)
      requires Valid()
      modifies this, pages`free, pages.maps
      ensures Valid()
      ensures r.None? <==> AllFull(old(slabs)) && old(FreeUnits()) == {}
      ensures r.None? ==> slabs == old(slabs) && pages.free == old(pages.free) && Live() == old(Live())
      ensures r.Some? ==> r.value !in old(Live()) && Live() == old(Live()) + {r.value}
      ensures r.Some? ==>
        && SlabOf(r.value) in slabs && pages.start <= SlabOf(r.value)
        && slabs.Keys == old(slabs.Keys) + {SlabOf(r.value)}
      ensures r.Some? ==> FreeUnits() == if SlabOf(r.value) in old(slabs) then old(FreeUnits())
                                         else old(FreeUnits()) - UnitsOf(SlabOf(r.value))
      ensures r.Some? && SlabOf(r.value) !in old(slabs) ==> UnitsOf(SlabOf(r.value)) <= old(FreeUnits())
    {
      NoneFree(objnum, slabs, slabsFree, slabsPartial, slabsFull);
      var slab, fromFree := ChooseSlab();
      if slab.None? {
        return None;
      }
      var obj := TakeObject(slab.value, fromFree);
      r := Some(obj);
    }

    /** The first half of kmem_cache_alloc: the head of the partial list, else of
        the free list, else a new slab. */
    method ChooseSlab() returns (slab: Option<nat>, fromFree: bool)
      requires Valid()
      modifies this, pages`free, pages.maps
      ensures Valid() && Live() == old(Live())
      ensures slab.None? <==> old(slabsFree) == [] && old(slabsPartial) == [] && old(FreeUnits()) == {}
      ensures slab.None? ==> slabs == old(slabs) && pages.free == old(pages.free)
      ensures slab.Some? ==> slab.value in slabs && pages.start <= slab.value
                             && if fromFree then slab.value in slabsFree && slabsPartial == []
                               else slab.value in slabsPartial
      ensures slab.Some? ==> slabs.Keys == old(slabs.Keys) + {slab.value}
      ensures slab.Some? ==> FreeUnits() == if slab.value in old(slabs) then old(FreeUnits())
                else old(FreeUnits()) - UnitsOf(slab.value)
      ensures slab.Some? && slab.value !in old(slabs) ==> UnitsOf(slab.value) <= old(FreeUnits())
    {
      fromFree := slabsPartial == [];
      if fromFree && slabsFree == [] {
        slab := Grow();
      } else {
        var head := Head(fromFree);
        slab := Some(head);
      }
    }

    /** list_first_entry of the list that is not empty. */
    method Head(fromFree: bool) returns (slab: nat)
      requires SlabsValid() && PagesHeld() && if fromFree then slabsFree != [] else slabsPartial != []
      ensures slab in slabs && slab in (if fromFree then slabsFree else slabsPartial) && pages.start <= slab
    {
      slab := if fromFree then slabsFree[0] else slabsPartial[0];
      assert if fromFree then Listed(slabsFree, slabs, objnum, objnum, slab)
               else Listed(slabsPartial, slabs, 1, objnum - 1, slab);
      assert Owned(pages.g, pages.start, pages.free, slab);
    }

    /** kmem_cache_free.  Exactly this object stops being live, and the page goes
        back to the page allocator exactly when it was the last one of its slab. */
    method Free(obj: nat)
      requires Valid() && obj in Live()
      modifies this, pages`free, pages.maps
      ensures Valid() && Live() == old(Live()) - {obj}
      ensures slabs.Keys + {SlabOf(obj)} == old(slabs.Keys) && pages.start <= SlabOf(obj)
      ensures SlabOf(obj) in slabs <==> exists x :: x in Live() && SlabOf(x) == SlabOf(obj)
      ensures FreeUnits() == if SlabOf(obj) in slabs then old(FreeUnits()) else old(FreeUnits()) + UnitsOf(SlabOf(obj))
    {
      LiveIff(slabs, objsize, objnum, obj);
      var slab, empty := ReturnObject(obj);
      Settle(slab, empty);
    }

    /** The slab is destroyed if no object of it is left. */
    method Settle(slab: nat, empty: bool)
      requires Shape() && pages.Valid() && PagesHeld() && slab in slabs && if empty then RestValid(slab)
                 else SlabsValid()
      modifies this`slabs, this`slabsFree, this`slabsPartial, this`slabsFull, pages`free, pages.maps
      ensures Valid() && slabs == (if empty then old(slabs) - {slab} else old(slabs)) && pages.start <= slab
      ensures slabs.Keys + {slab} == old(slabs.Keys)
      ensures FreeUnits() == if empty then old(FreeUnits()) + UnitsOf(slab) else old(FreeUnits())
    {
      KeysBack(slabs, slab);
      if empty {
        Destroy(slab);
      } else {
        assert Owned(pages.g, pages.start, pages.free, slab);
      }
    }

    /** The object of an allocated index is unmarked and counted. */
    method Unmark(s: Slab, bit: nat) returns (s': Slab)
      requires 1 <= objnum <= 32 && SlabOk(s, objnum) && bit in Used(s.bitmap, objnum)
      ensures Used(s'.bitmap, objnum) == Used(s.bitmap, objnum) - {bit}
      ensures s'.freeObjects == s.freeObjects + 1 && SlabOk(s', objnum) && 0 < s'.freeObjects <= objnum
    {
      UsedClear(s.bitmap, bit, objnum);
      s' := Slab(ClearBit([s.bitmap], bit)[0], s.freeObjects + 1);
    }

    /** The part of kmem_cache_free before slab_destroy. */
    method ReturnObject(obj: nat) returns (slab: nat, empty: bool)
      requires Shape() && SlabsValid() && obj in Live()
      modifies this`slabs, this`slabsPartial, this`slabsFull
      ensures slab == SlabOf(obj) && slabs.Keys == old(slabs.Keys) && slab in slabs
      ensures Live() == old(Live()) - {obj}
      ensures !empty ==> SlabsValid() && exists x :: x in Live() && SlabOf(x) == slab
      ensures empty ==> RestValid(slab) && LiveObjects(slabs - {slab}, objsize, objnum) == Live()
      ensures empty ==> forall x :: x in Live() ==> SlabOf(x) != slab
    {
      LiveIff(slabs, objsize, objnum, obj);
      slab := SlabOf(obj);
      var bit := ObjIndex(obj, objsize);
      var s := Unmark(slabs[slab], bit);
      LiveRemove(slabs, objsize, objnum, slab, s, bit);
      empty := s.freeObjects == objnum;
      ghost var now := slabs[slab := s];
      if empty {
        LiveEmptySlab(now, objsize, objnum, slab);
      } else {
        LiveWitness(now, objsize, objnum, slab);
      }
      Returned(slab, s);
    }

    /** What is left of the cache without a slab. */
    ghost predicate RestValid(slab: nat)
      requires 1 <= objnum <= 32
      reads this
    {
      CacheOk(objnum, slabs - {slab}, Without(slabsFree, slab), Without(slabsPartial, slab), Without(slabsFull, slab))
    }

    /** The list move of kmem_cache_free, and the new header of the slab. */
    method Returned(slab: nat, s: Slab)
      requires SlabsValid() && slab in slabs && s.freeObjects == slabs[slab].freeObjects + 1 && SlabOk(s, objnum)
      requires 0 < s.freeObjects <= objnum
      modifies this`slabs, this`slabsPartial, this`slabsFull
      ensures slabs == old(slabs)[slab := s]
      ensures if s.freeObjects == objnum then RestValid(slab) else SlabsValid()
    {
      if s.freeObjects == objnum {
        CacheRemove(objnum, slabs, slabsFree, slabsPartial, slabsFull, slab);
        assert slabs[slab := s] - {slab} == slabs - {slab};
      } else {
        ReturnLists(objnum, slabs, slabsFree, slabsPartial, slabsFull, slab, s);
        if s.freeObjects == 1 {
          slabsFull := Without(slabsFull, slab);
          slabsPartial := slabsPartial + [slab];
        }
      }
      slabs := slabs[slab := s];
    }

    /** slab_destroy: the slab is unlinked from its list and its page is freed. */
    method Destroy(slab: nat)
      requires pages.Valid() && PagesHeld() && slab in slabs && 1 <= objnum <= 32 && RestValid(slab)
      modifies this`slabs, this`slabsFree, this`slabsPartial, this`slabsFull, pages`free, pages.maps
      ensures pages.Valid() && slabs == old(slabs) - {slab} && pages.start <= slab
      ensures SlabsValid() && slabsFree == Without(old(slabsFree), slab)
                && slabsPartial == Without(old(slabsPartial), slab)
              && slabsFull == Without(old(slabsFull), slab)
      ensures FreeUnits() == old(FreeUnits()) + UnitsOf(slab)
      ensures PagesHeld()
    {
      ghost var before := pages.free;
      assert Owned(pages.g, pages.start, before, slab);
      slabsFree, slabsPartial, slabsFull := Without(slabsFree, slab), Without(slabsPartial, slab),
        Without(slabsFull, slab);
      slabs := slabs - {slab};
      pages.FreePages(slab, 0);
      forall b | b in slabs ensures Owned(pages.g, pages.start, pages.free, b) {
        OthersOwned(pages.g, pages.start, before, pages.free, slab, b);
      }
    }
  }

  lemma KeysBack(slabs: map<nat, Slab>, slab: nat)
    requires slab in slabs
    ensures slabs.Keys + {slab} == slabs.Keys && (slabs - {slab}).Keys + {slab} == slabs.Keys
  {}

  // --------------------------------------------------------- several caches

  /** Two caches on one page allocator, without a common slab. */
  ghost predicate Share(a: KmemCache, b: KmemCache)
    reads a, b, a.pages, a.pages.maps, b.pages, b.pages.maps
  {
    a != b && a.pages == b.pages && a.Valid() && b.Valid() && a.slabs.Keys !! b.slabs.Keys
  }

  /** Objects of two such caches never overlap. */
  lemma CachesApart(a: KmemCache, b: KmemCache, x: nat, y: nat)
    requires Share(a, b) && x in a.Live() && y in b.Live()
    ensures x + a.objsize <= y || y + b.objsize <= x
  {
    LiveIff(a.slabs, a.objsize, a.objnum, x);
    LiveIff(b.slabs, b.objsize, b.objnum, y);
    ObjectInside(SlabOf(x), ObjIndex(x, a.objsize), a.objsize);
    ObjectInside(SlabOf(y), ObjIndex(y, b.objsize), b.objsize);
    PagesApart(SlabOf(x), SlabOf(y));
  }

  /** A page that was free is none of the pages a cache holds, and these stay held. */
  lemma TakenElsewhere(g: Geometry, start: nat, before: set<Page>, after: set<Page>, a: nat, b: nat)
    requires Owned(g, start, before, b) && Owned(g, start, after, a)
    requires PageUnits(g, PageAt(start, a, 0)) <= Units(g, before)
    requires Units(g, after) == Units(g, before) - PageUnits(g, PageAt(start, a, 0))
    ensures a != b && Owned(g, start, after, b)
  {
    OneUnit(g, PageAt(start, a, 0));
    assert PageAt(start, a, 0).idx in Units(g, before);
  }

  /** kmem_cache_alloc on one cache leaves the other one as it was, and the two
      without a common slab. */
  method AllocBeside(a: KmemCache, b: KmemCache) returns (r: Option<nat>)
    requires Share(a, b)
    modifies a, a.pages`free, a.pages.maps
    ensures Share(a, b) && b.slabs == old(b.slabs) && b.Live() == old(b.Live())
    ensures r.Some? ==> a.Live() == old(a.Live()) + {r.value}
  {
    ghost var had, before := a.slabs, a.pages.free;
    r := a.Alloc();
    ghost var g, start, after := a.pages.g, a.pages.start, a.pages.free;
    if r.Some? && SlabOf(r.value) !in had {
      assert Owned(g, start, after, SlabOf(r.value));
      forall s | s in b.slabs ensures s != SlabOf(r.value) && Owned(g, start, after, s) {
        assert Owned(g, start, before, s);
        TakenElsewhere(g, start, before, after, SlabOf(r.value), s);
      }
    } else {
      forall s | s in b.slabs ensures Owned(g, start, after, s) {
        assert Owned(g, start, before, s);
      }
    }
  }

  /** kmem_cache_free on one cache leaves the other one as it was. */
  method FreeBeside(a: KmemCache, b: KmemCache, obj: nat)
    requires Share(a, b) && obj in a.Live()
    modifies a, a.pages`free, a.pages.maps
    ensures Share(a, b) && b.slabs == old(b.slabs) && b.Live() == old(b.Live())
    ensures a.Live() == old(a.Live()) - {obj}
  {
    ghost var had, before := a.slabs, a.pages.free;
    LiveIff(a.slabs, a.objsize, a.objnum, obj);
    ghost var slab := SlabOf(obj);
    a.Free(obj);
    ghost var g, start, after := a.pages.g, a.pages.start, a.pages.free;
    assert Owned(g, start, before, slab);
    forall s | s in b.slabs ensures Owned(g, start, after, s) {
      assert Owned(g, start, before, s);
      if slab !in a.slabs {
        OthersOwned(g, start, before, after, slab, s);
      }
    }
  }
}
