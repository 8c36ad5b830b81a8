/** Where nodes are placed: the bump allocator's two frontiers and the growth of
    the heap. */
module Placement {
  import opened Layout

  /** The locations in use: `extent` gives the physical pages of every page node,
      `gens` the addresses of the generations. */
  datatype Space = Space(extent: map<int, int>, gens: set<int>, lastPage: int, lastGen: int, size: int)

  function PageEnd(sp: Space, a: int): int
    requires a in sp.extent
  {
    a + Bytes(sp.extent[a])
  }

  ghost predicate PageSound(sp: Space, a: int)
    requires a in sp.extent
  {
    && sp.extent[a] >= 1 && Aligned(a)
    && MAP_START + 2 * PAGE_SIZE <= a <= sp.lastPage && PageEnd(sp, a) < MAP_START + sp.size
  }

  ghost predicate GenSound(sp: Space, g: int) {
    MAP_START + PAGE_SIZE <= g <= sp.lastGen && g + GENERATION < MAP_START + sp.size
  }

  /** The generation shares no physical page with the page node. */
  ghost predicate Apart(sp: Space, g: int, a: int)
    requires a in sp.extent
  {
    RoundUp(g + GENERATION) <= a || PageEnd(sp, a) <= RoundDown(g)
  }

  /** Nodes lie inside the heap, apart from each other; pages are page-aligned. */
  ghost predicate Placed(sp: Space) {
    && sp.lastPage in sp.extent && sp.lastGen in sp.gens && sp.size > 0 && Aligned(sp.size)
    && (forall a :: a in sp.extent ==> PageSound(sp, a))
    && (forall g :: g in sp.gens ==> GenSound(sp, g))
    && (forall a, b :: a in sp.extent && b in sp.extent && a < b ==> PageEnd(sp, a) <= b)
    && (forall g, h :: g in sp.gens && h in sp.gens && g < h ==> g + GENERATION <= h)
    && (forall g, a :: g in sp.gens && a in sp.extent ==> Apart(sp, g, a))
  }

  // ---------------------------------------------------------------- growing

  /** expand_heap_space, for an address m bytes behind the end. */
  function NewSize(size: int, m: int): int {
    if size * 2 - size < m * 2 then RoundUp(m * 2) else size * 2
  }

  /** Whether the address is inside the heap after the growth. */
  predicate Reaches(size: int, m: int) { m < NewSize(size, m) - size }

  /** The growth includes the address except in one window: the address lies more
      than half the heap behind the end, and twice that distance, rounded up, does
      not exceed the distance from the start. */
  lemma GrowthExact(size: int, m: int)
    requires size > 0 && m >= 0
    ensures Reaches(size, m) <==> 2 * m <= size || RoundUp(2 * m) > size + m
    ensures NewSize(size, m) > size
    ensures Aligned(size) ==> Aligned(NewSize(size, m))
  {
  }

  /** The window is not empty: one page behind the doubled distance. */
  lemma GrowthFails()
    ensures exists size, m :: size > 0 && Aligned(size) && m >= 0 && !Reaches(size, m)
  {
    assert !Reaches(16 * PAGE_SIZE, 12 * PAGE_SIZE);
    assert Aligned(16 * PAGE_SIZE);
  }

  /** Whether maybe_grow_heap returns for the address, and the size it leaves. */
  function GrowStop(size: int, addr: int): Stop {
    if addr < MAP_START + size || Reaches(size, addr - (MAP_START + size)) then Going else ShortGrowth
  }

  function GrownSize(size: int, addr: int): int {
    if addr < MAP_START + size then size else NewSize(size, addr - (MAP_START + size))
  }

  /** The new size: twice the old one if that leaves at least as much room behind the
      end as the address is behind it, and otherwise the least number of whole pages
      that is twice that distance. */
  lemma NewSizeExact(size: int, m: int)
    requires size > 0 && m >= 0
    ensures 2 * m <= size ==> NewSize(size, m) == 2 * size
    ensures 2 * m > size ==> Aligned(NewSize(size, m)) && 2 * m <= NewSize(size, m) < 2 * m + PAGE_SIZE
  {
  }

  lemma GrowKeeps(sp: Space, size: int)
    requires Placed(sp) && size >= sp.size && Aligned(size)
    ensures Placed(sp.(size := size))
  {
    var sp' := sp.(size := size);
    forall a | a in sp'.extent ensures PageSound(sp', a) { assert PageSound(sp, a); }
    forall g | g in sp'.gens ensures GenSound(sp', g) { assert GenSound(sp, g); }
    forall g, a | g in sp'.gens && a in sp'.extent ensures Apart(sp', g, a) { assert Apart(sp, g, a); }
  }

  // ---------------------------------------------------------------- new_page

  /** Where new_page puts the next page. */
  function NextPage(sp: Space): int
    requires sp.lastPage in sp.extent
  {
    if sp.lastPage > sp.lastGen then PageEnd(sp, sp.lastPage) else RoundUp(sp.lastGen + GENERATION)
  }

  lemma NextPageFresh(sp: Space)
    requires Placed(sp)
    ensures var next := NextPage(sp);
            && Aligned(next) && MAP_START + 2 * PAGE_SIZE <= next
            && (forall a :: a in sp.extent ==> PageEnd(sp, a) <= next && a < next)
            && (forall g :: g in sp.gens ==> RoundUp(g + GENERATION) <= next)
            && next !in sp.extent && next !in sp.gens
  {
    hide RoundDown, RoundUp, Aligned;
    var next := NextPage(sp);
    assert PageSound(sp, sp.lastPage) && GenSound(sp, sp.lastGen);
    AlignedEnd(sp, sp.lastPage);
    assert Apart(sp, sp.lastGen, sp.lastPage);
    forall a | a in sp.extent ensures PageEnd(sp, a) <= next && a < next {
      assert PageSound(sp, a);
      assert Apart(sp, sp.lastGen, a);
      if a != sp.lastPage { assert PageEnd(sp, a) <= sp.lastPage; }
    }
    forall g | g in sp.gens ensures RoundUp(g + GENERATION) <= next && g < next {
      assert GenSound(sp, g);
      if sp.lastPage > sp.lastGen {
        assert Apart(sp, g, sp.lastPage);
        RoundDownBelow(g);
      } else {
        RoundUpMonotone(g + GENERATION, sp.lastGen + GENERATION);
      }
    }
  }

  lemma RoundDownBelow(x: int)
    ensures RoundDown(x) <= x
  {
  }

  lemma RoundUpMonotone(x: int, y: int)
    requires x <= y
    ensures RoundUp(x) <= RoundUp(y) && RoundDown(x) <= RoundDown(y)
  {
  }

  function WithPage(sp: Space, n: int): Space
    requires sp.lastPage in sp.extent
  {
    sp.(extent := sp.extent[NextPage(sp) := n], lastPage := NextPage(sp))
  }

  /** Whether new_page returns, and the placement it leaves. */
  function PageStop(sp: Space, n: int): Stop
    requires sp.lastPage in sp.extent
  {
    GrowStop(sp.size, NextPage(sp) + Bytes(n))
  }

  function AfterPage(sp: Space, n: int): Space
    requires sp.lastPage in sp.extent
  {
    WithPage(sp.(size := GrownSize(sp.size, NextPage(sp) + Bytes(n))), n)
  }

  /** new_page keeps the placement: the new page is behind everything. */
  lemma NewPagePlaced(sp: Space, n: int)
    requires Placed(sp) && n >= 1 && NextPage(sp) + Bytes(n) < MAP_START + sp.size
    ensures Placed(WithPage(sp, n))
  {
    hide RoundDown, RoundUp, Aligned;
    NextPageFresh(sp);
    var sp', next := WithPage(sp, n), NextPage(sp);
    assert PageSound(sp, sp.lastPage);
    assert PageSound(sp', next);
    forall a | a in sp'.extent ensures PageSound(sp', a) {
      if a != next { assert PageSound(sp, a) && PageEnd(sp, a) <= next; }
    }
    forall g | g in sp'.gens ensures GenSound(sp', g) { assert GenSound(sp, g); }
    forall a, b | a in sp'.extent && b in sp'.extent && a < b ensures PageEnd(sp', a) <= b {
      if b == next { assert PageEnd(sp, a) <= next; }
    }
    forall g, a | g in sp'.gens && a in sp'.extent ensures Apart(sp', g, a) {
      if a != next { assert Apart(sp, g, a); }
    }
  }

  // ---------------------------------------------------------------- new_gen

  /** Where new_gen puts the next generation. */
  function NextGen(sp: Space): int
    requires sp.lastPage in sp.extent
  {
    if RoundDown(sp.lastGen) == RoundDown(sp.lastGen + 2 * GENERATION) || sp.lastGen > sp.lastPage
    then sp.lastGen + GENERATION
    else PageEnd(sp, sp.lastPage)
  }

  /** Rounding inside the physical page that starts at r. */
  lemma InPhysicalPage(x: int, r: int)
    requires Aligned(r) && r <= x < r + PAGE_SIZE
    ensures RoundDown(x) == r && RoundUp(x) == if x == r then r else r + PAGE_SIZE
  {
    assert (x - r) % PAGE_SIZE == x - r;
  }

  /** The next generation stays behind the last one, clear of every page. */
  lemma NextGenApart(sp: Space, a: int)
    requires Placed(sp) && a in sp.extent
    ensures var next := NextGen(sp);
            RoundUp(next + GENERATION) <= a || PageEnd(sp, a) <= RoundDown(next)
  {
    hide RoundDown, RoundUp;
    var next, g, r := NextGen(sp), sp.lastGen, RoundDown(sp.lastGen);
    assert PageSound(sp, sp.lastPage) && PageSound(sp, a) && GenSound(sp, g);
    assert Apart(sp, g, a) && Apart(sp, g, sp.lastPage);
    if a != sp.lastPage { assert PageEnd(sp, a) <= sp.lastPage; }
    var end := PageEnd(sp, sp.lastPage);
    AlignedEnd(sp, sp.lastPage);
    var samePage := r == RoundDown(g + 2 * GENERATION);
    if samePage {
      InPhysicalPage(g, r);
      InPhysicalPage(g + GENERATION, r);
      InPhysicalPage(g + 2 * GENERATION, r);
    } else if g > sp.lastPage {
      RoundUpMonotone(g, g + GENERATION);
    } else {
      InPhysicalPage(end, end);
    }
  }

  lemma AlignedEnd(sp: Space, a: int)
    requires a in sp.extent && Aligned(a)
    ensures Aligned(PageEnd(sp, a)) && RoundUp(PageEnd(sp, a)) == PageEnd(sp, a)
  {
  }

  lemma NextGenFresh(sp: Space)
    requires Placed(sp)
    ensures var next := NextGen(sp);
            && sp.lastGen + GENERATION <= next
            && next !in sp.gens && next !in sp.extent
            && (forall a :: a in sp.extent ==> RoundUp(next + GENERATION) <= a || PageEnd(sp, a) <= RoundDown(next))
    // the sanity check of new_gen: a jump lands on a physical page
    ensures PageEnd(sp, sp.lastPage) == RoundUp(PageEnd(sp, sp.lastPage))
  {
    hide RoundDown, RoundUp, Aligned;
    var next, g := NextGen(sp), sp.lastGen;
    assert PageSound(sp, sp.lastPage) && GenSound(sp, g);
    AlignedEnd(sp, sp.lastPage);
    forall a | a in sp.extent
      ensures RoundUp(next + GENERATION) <= a || PageEnd(sp, a) <= RoundDown(next)
      ensures a != next
    {
      NextGenApart(sp, a);
      assert PageSound(sp, a);
    }
    assert forall h :: h in sp.gens ==> GenSound(sp, h);
  }

  function WithGen(sp: Space): Space
    requires sp.lastPage in sp.extent
  {
    sp.(gens := sp.gens + {NextGen(sp)}, lastGen := NextGen(sp))
  }

  /** Growing the heap changes neither place. */
  lemma PlacesStay(sp: Space, size: int)
    requires sp.lastPage in sp.extent
    ensures NextPage(sp.(size := size)) == NextPage(sp) && NextGen(sp.(size := size)) == NextGen(sp)
  {
  }

  /** new_gen never runs into the window in which growing fails: a generation is small,
      and it is placed right behind the last one or behind the last page. */
  lemma GenReaches(sp: Space)
    requires Placed(sp)
    ensures GrowStop(sp.size, NextGen(sp) + GENERATION) == Going
  {
    hide RoundDown, RoundUp, NewSize;
    assert GenSound(sp, sp.lastGen) && PageSound(sp, sp.lastPage);
    AtLeastOne(sp.size);
    var m := NextGen(sp) + GENERATION - (MAP_START + sp.size);
    if m >= 0 { GrowthExact(sp.size, m); }
  }

  lemma AtLeastOne(size: int)
    requires size > 0 && Aligned(size)
    ensures size >= PAGE_SIZE
  {
  }

  /** new_page can run into it only for a page of more than half the heap. */
  lemma PageReaches(sp: Space, n: int)
    requires Placed(sp) && n >= 1 && 2 * Bytes(n) <= sp.size
    ensures PageStop(sp, n) == Going
  {
    hide RoundDown, RoundUp, NewSize, Aligned;
    assert GenSound(sp, sp.lastGen) && PageSound(sp, sp.lastPage);
    RoundUpInside(sp.lastGen + GENERATION, MAP_START + sp.size) by { EndAligned(sp.size); }
    var m := NextPage(sp) + Bytes(n) - (MAP_START + sp.size);
    if m >= 0 { GrowthExact(sp.size, m); }
  }

  lemma EndAligned(size: int)
    requires Aligned(size)
    ensures Aligned(MAP_START + size)
  {
  }

  lemma RoundUpInside(x: int, end: int)
    requires x <= end && Aligned(end)
    ensures RoundUp(x) <= end
  {
  }

  /** The placement that new_gen leaves. */
  function AfterGen(sp: Space): Space
    requires sp.lastPage in sp.extent
  {
    WithGen(sp.(size := GrownSize(sp.size, NextGen(sp) + GENERATION)))
  }

  /** new_gen keeps the placement: the new generation owns its physical pages
      together with other generations only. */
  lemma NewGenPlaced(sp: Space)
    requires Placed(sp) && NextGen(sp) + GENERATION < MAP_START + sp.size
    ensures Placed(WithGen(sp))
  {
    hide RoundDown, RoundUp, Aligned, Bytes;
    NextGenFresh(sp);
    var sp', next := WithGen(sp), NextGen(sp);
    assert forall g :: g in sp.gens ==> GenSound(sp, g);
    assert forall g :: g in sp.gens ==> g < next;
    forall a | a in sp'.extent ensures PageSound(sp', a) { assert PageSound(sp, a); }
    forall g | g in sp'.gens ensures GenSound(sp', g) { if g != next { assert GenSound(sp, g); } }
    forall g, h | g in sp'.gens && h in sp'.gens && g < h ensures g + GENERATION <= h {
      if h == next && g != sp.lastGen { assert g + GENERATION <= sp.lastGen; }
    }
    forall g, a | g in sp'.gens && a in sp'.extent ensures Apart(sp', g, a) {
      if g != next { assert Apart(sp, g, a); }
    }
  }
}
