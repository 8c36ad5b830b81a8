/** The versioned copy-on-write heap: the header's fields, the nodes in memory and
    the protection of the process, changed in place by the allocator. */
module Heaps {
  import opened Layout
  import opened Maps
  import opened Carving
  import opened Layers
  import opened Tables
  import opened Protections
  import opened Pages
  import opened VersionStore
  import opened Trees
  import opened Forest
  import opened Pointers
  import opened Walks
  import opened Selection
  import opened Placement
  import opened Guards
  import opened HeapStates
  import opened Callbacks

  class Heap {
    const prot: Protection
    const root: int

    // struct heap_header
    var size: int
    var working: int
    var committed: int
    var lastPage: int
    var lastGen: int
    var lastGenIndex: int

    // the nodes in memory, by address
    var gens: map<int, Generation>
    var pages: map<int, Page>

    ghost var tree: Node
    ghost var tops: map<int, int>
    ghost var ro: set<int>   // the pages that the table calls read-only

    ghost function St(): State
      reads this
    {
      State(gens, pages, tree, tops, working, committed, lastGenIndex)
    }

    ghost function Sp(): Space
      reads this
    {
      Space(Extents(pages), gens.Keys, lastPage, lastGen, size)
    }

    /** The version store that the heap holds. */
    ghost function V(): Store
      reads this
    {
      View(St())
    }

    /** The heap after the first commit, with the first page as the evaluator has
        left it. */
    constructor (first: Page)
      requires Tiled(first, FIRST_PAGE) && first.realAddr == FIRST_PAGE && first.committed && first.pages == 1
      ensures Valid() && fresh(prot) && fresh(prot.active) && fresh(prot.active.m)
      ensures prot.Leaks() == {} && !Mut(St()) && Tail(St()) && V() == View(FirstState(first)) && ro == {} && lastGenIndex == 0
      ensures size == INITIAL_PAGES * 4096
    {
      size := INITIAL_PAGES * 4096;
      root, working, committed, lastGen := FIRST_GEN, FIRST_GEN, FIRST_GEN, FIRST_GEN;
      lastPage, lastGenIndex := FIRST_PAGE, 0;
      gens := map[FIRST_GEN := Generation(true, 0, EmptySlots()[0 := FIRST_PAGE])];
      pages := map[FIRST_PAGE := first];
      tree, tops, ro := FirstState(first).tree, FirstState(first).tops, {};
      prot := new Protection(INITIAL_PAGES * 4096);
      new;
      FirstSane(first);
      assert St() == FirstState(first);
      FirstPlaced(first);
      assert Sp() == FirstSpace(first) by { assert gens.Keys == {FIRST_GEN}; }
      forall x | MAP_START <= x < MAP_START + size ensures Writable(prot.Maps(), x) {
        IndexUnique(prot.Maps(), 0, x);
      }
    }

    ghost predicate Ready()
      reads this, prot, prot.active, prot.active.m
    {
      prot.Valid() && Lenient(prot.Maps(), prot.os) && ReadyFor(prot.Maps(), Sp(), pages, ro)
    }

    ghost predicate Valid()
      reads this, prot, prot.active, prot.active.m
    {
      && Ready() && Sane(St(), {}) && root == tree.at
      && (Mut(St()) ==> Barrier(pages, ro))
    }

    lemma ReadyHolds()
      requires Ready()
      ensures prot.Valid() && lastPage in pages && forall a :: a in ro ==> a in pages
    {
      ReadyRo(prot.Maps(), Sp(), pages, ro);
      ReadyPage(prot.Maps(), Sp(), pages, ro, 1);
    }

    lemma ValidHolds()
      requires Valid()
      ensures Ready() && prot.Valid() && lastPage in pages && Sane(St(), {}) && root == tree.at
    {
      ReadyHolds();
    }

    // ------------------------------------------------------------ growing

    method MaybeGrow(addr: int) returns (stop: Stop)
      requires Ready()
      modifies this`size, prot`os, prot.active.m
      ensures stop == GrowStop(old(size), addr)
      ensures Ready() && size == GrownSize(old(size), addr)
      ensures stop == Going ==> addr < MAP_START + size
      ensures addr < MAP_START + old(size) ==> size == old(size)
      ensures size >= old(size)
      ensures var m := addr - (MAP_START + old(size));
              && (0 <= 2 * m <= old(size) ==> size == 2 * old(size))
              && (2 * m > old(size) ==> size % PAGE_SIZE == 0 && 2 * m <= size < 2 * m + PAGE_SIZE)
      ensures prot.Leaks() == old(prot.Leaks())
    {
      hide ReadyFor, Lenient, Leaking, NewSize, Grown, Protection.Maps, WellFormed, Extents;
      ReadySize(prot.Maps(), Sp(), pages, ro);
      if addr < MAP_START + size { return Going; }
      var m := addr - (MAP_START + size);
      ReadyGrows(prot.Maps(), Sp(), pages, ro, m);
      NewSizeExact(size, m);
      var more := NewSize(size, m) - size;
      prot.GrowLast(more);
      size := size + more;
      stop := if addr < MAP_START + size then Going else ShortGrowth;
    }

    /** The page struct is written behind the last node. */
    method PlacePage(next: int, n: int)
      requires Ready() && n >= 1 && next == NextPage(Sp()) && next + Bytes(n) < MAP_START + size
      modifies this`lastPage, this`pages
      ensures Ready() && Sp() == WithPage(old(Sp()), n) && pages == old(pages)[next := FreshPage(next, n)]
    {
      ReadyPage(prot.Maps(), Sp(), pages, ro, n);
      hide ReadyFor, Lenient, Leaking, NextPage, Protection.Valid, Protection.Maps;
      ghost var sp := Sp();
      lastPage := next;
      pages := pages[next := FreshPage(next, n)];
      assert Sp() == WithPage(sp, n);
    }

    method PageAddress() returns (next: int)
      requires Ready()
      ensures lastPage in pages && next == NextPage(Sp()) && next !in pages && next !in gens && next != NULL
      ensures forall a :: a in pages ==> a < next
    {
      ReadyPage(prot.Maps(), Sp(), pages, ro, 1);
      hide ReadyFor, Lenient, Leaking, Protection.Valid, Protection.Maps;
      if lastPage > lastGen {
        next := lastPage + Bytes(pages[lastPage].pages);
      } else {
        next := RoundUp(lastGen + GENERATION);
      }
    }

    method NewPage(n: int) returns (stop: Stop, next: int)
      requires Ready() && n >= 1
      modifies this`size, this`lastPage, this`pages, prot`os, prot.active.m
      ensures stop == PageStop(old(Sp()), n)
      ensures stop == Going ==> Ready() && PageAdded(old(pages), gens.Keys, next, n, pages) && Sp() == AfterPage(old(Sp()), n)
      ensures size >= old(size)
      ensures stop == Going ==> prot.Leaks() <= old(prot.Leaks())
    {
      hide ReadyFor, Lenient, Leaking, WellFormed, GrowStop, GrownSize, NextPage, Protection.Leaks;
      next := PageAddress();
      ghost var sp := Sp();
      stop := MaybeGrow(next + Bytes(n));
      if stop != Going { return; }
      PlacesStay(sp, size);
      PlacePage(next, n);
    }

    method PlaceGen(next: int, index: int, bit: bool)
      requires Ready() && next == NextGen(Sp()) && next + GENERATION < MAP_START + size
      modifies this`lastGen, this`gens
      ensures Ready() && Sp() == WithGen(old(Sp())) && gens == old(gens)[next := Generation(bit, index, EmptySlots())]
    {
      ReadyGen(prot.Maps(), Sp(), pages, ro);
      hide ReadyFor, Lenient, Leaking, NextGen, Protection.Valid, Protection.Maps;
      ghost var sp := Sp();
      lastGen := next;
      gens := gens[next := Generation(bit, index, EmptySlots())];
      assert gens.Keys == sp.gens + {next};
      assert Sp() == WithGen(sp);
    }

    method GenAddress() returns (next: int)
      requires Ready()
      ensures lastPage in pages && next == NextGen(Sp()) && next !in gens && next !in pages && next != NULL
    {
      ReadyGen(prot.Maps(), Sp(), pages, ro);
      hide ReadyFor, Lenient, Leaking, Protection.Valid, Protection.Maps, RoundDown;
      if RoundDown(lastGen) == RoundDown(lastGen + 2 * GENERATION) {
        next := lastGen + GENERATION;
      } else if lastGen > lastPage {
        next := lastGen + GENERATION;
      } else {
        next := lastPage + Bytes(pages[lastPage].pages);
      }
    }

    /** It always returns: maybe_grow_heap reaches the end of the generation. */
    method NewGen(index: int, bit: bool) returns (next: int)
      requires Ready()
      modifies this`size, this`lastGen, this`gens, prot`os, prot.active.m
      ensures Ready() && GenAdded(old(gens), pages.Keys, next, index, bit, gens) && Sp() == AfterGen(old(Sp())) && size >= old(size)
      ensures prot.Leaks() <= old(prot.Leaks())
    {
      hide ReadyFor, Lenient, Leaking, WellFormed, GrowStop, GrownSize, NextGen, Protection.Leaks;
      next := GenAddress();
      ghost var sp := Sp();
      ReadyGenReaches(prot.Maps(), sp, pages, ro);
      var stop := MaybeGrow(next + GENERATION);
      assert stop == Going;
      PlacesStay(sp, size);
      PlaceGen(next, index, bit);
    }

    // ------------------------------------------------------------ walks

    /** walk_nodes, over the pointer structure that stands for t. */
    method WalkNodes<S>(n: int, f: (int, S) -> (Action, S), s: S, ghost t: Node) returns (a: Action, r: S)
      requires Rep(gens, pages.Keys, t) && t.at == n
      ensures (a, r) == Walk(t, f, s)
      decreases t
    {
      var first := f(n, s);
      a, r := first.0, first.1;
      if a != Continue { return; }
      if n in gens {
        var c := gens[n].c;
        ghost var ks := t.kids;
        ghost var rest := ks;
        var i := 0;
        while i < GENERATION_CHILDREN
          invariant 0 <= i <= GENERATION_CHILDREN == |c| && SlotsOf(c, ks) && RepAll(gens, pages.Keys, ks)
          invariant rest == if i <= |ks| then ks[i..] else []
          invariant WalkAll(ks, f, first.1) == WalkAll(rest, f, r)
        {
          if c[i] == NULL {
            i := i + 1;
            continue;
          }
          assert i < |ks| && rest[0] == ks[i] && rest[1..] == ks[i + 1..];
          RepKid(gens, pages.Keys, ks, i);
          a, r := WalkNodes(c[i], f, r, ks[i]);
          if a == Exit { return; }
          rest := rest[1..];
          i := i + 1;
        }
        assert rest == [];
        a := Continue;
      }
    }

    /** A search below node n: the first hit in preorder. */
    method Search<R>(n: int, p: int -> Option<R>, ghost t: Node) returns (hit: Option<R>)
      requires Rep(gens, pages.Keys, t) && t.at == n
      ensures hit == FirstHit(Items(t, 0), p)
    {
      WalkFinds(t, 0, p, None);
      var a;
      a, hit := WalkNodes(n, Finder(p), None, t);
    }

    // ------------------------------------------------------------ new_gen_between

    /** The slots of parent move to a new child, which becomes parent's only one. */
    method NewGenBetween(parent: int, ghost loose: set<int>) returns (child: int)
      requires Ready() && Sane(St(), loose) && parent == (if Mut(St()) then working else committed)
      requires parent in Gens(tree) && |Sub(tree, parent).kids| == GENERATION_CHILDREN
      modifies this`size, this`lastGen, this`gens, this`tree, prot`os, prot.active.m
      ensures Ready() && MadeRoom(old(St()), loose, parent, child, St()) && Sp() == AfterGen(old(Sp())) && size >= old(size)
      ensures prot.Leaks() <= old(prot.Leaks())
    {
      hide ReadyFor, Lenient, Leaking, Sane, Shaped, Headed, Inv, View, Rep, Uniq, Gens, Sub, SlotsOf, Tipped, MadeRoom,
        Protection.Valid, Protection.Maps, Protection.Leaks;
      ghost var st := St();
      SaneTop(st, loose);
      GenAt(st, loose, parent);
      child := NewGen(gens[parent].gen, gens[parent].committed);
      BetweenSane(st, loose, parent, child);
      BetweenedIs(st, parent, child, gens);
      hide Betweened, Between;
      MoveSlots(parent, child);
    }

    method MoveSlots(parent: int, child: int)
      requires Ready() && parent in gens && child in gens && parent != child && parent in Gens(tree)
      requires |gens[parent].c| == GENERATION_CHILDREN && |gens[child].c| == GENERATION_CHILDREN
      modifies this`gens, this`tree
      ensures Ready() && Sp() == old(Sp()) && tree == Between(old(tree), parent, child)
      ensures gens == SlotsMoved(old(gens), parent, child)
    {
      hide ReadyFor, Lenient, Leaking, Between, Protection.Valid, Protection.Maps;
      ghost var sp := Sp();
      var from, to := gens[parent].c, gens[child].c;
      for i := 0 to GENERATION_CHILDREN
        invariant |from| == |to| == GENERATION_CHILDREN
        invariant forall k :: 0 <= k < i ==> to[k] == gens[parent].c[k] && from[k] == NULL
        invariant forall k :: i <= k < GENERATION_CHILDREN ==> from[k] == gens[parent].c[k]
      {
        to := to[i := from[i]];
        from := from[i := NULL];
      }
      assert to == gens[parent].c && from == EmptySlots();
      from := from[0 := child];
      gens := gens[child := gens[child].(c := to)][parent := gens[parent].(c := from)];
      tree := Between(tree, parent, child);
      assert gens.Keys == sp.gens;
      assert Sp() == sp;
    }

    // ------------------------------------------------------------ making pages writable

    /** merge_in_table for one or two pages that become writable. */
    method OpenPages(open: seq<int>) returns (stop: Stop)
      requires Ready() && 1 <= |open| <= 2 && (forall i :: 0 <= i < |open| ==> open[i] in pages)
      requires |open| == 2 ==> open[1] < open[0]
      modifies this`ro, prot`os, prot.active`len, prot.active.m
      ensures stop in {Going, TableFull}
      ensures stop == TableFull ==> Crowded(|pages|)
      ensures stop == Going ==> Ready() && ro == old(ro) - (set a | a in open)
      ensures stop == Going ==> prot.Leaks() <= old(prot.Leaks())
    {
      hide ReadyFor, Lenient, Leaking, Steady, AllInRange, PaintedBy, LaidOver, Finishes;
      ghost var t, os0 := prot.Maps(), prot.os;
      OpenRoom(t, Sp(), pages, ro, open);
      ReadySteady(t, Sp(), pages, ro, open);
      var news := TableOf(OpenList(pages, open));
      stop := prot.MergeInTable(news);
      if stop != Going { return; }
      ReadyOpens(t, Sp(), pages, ro, open, prot.Maps());
      OpenFaithful(t, Sp(), pages, ro, open, prot.Maps(), os0, prot.os);
      ro := ro - (set a | a in open);
    }

    // ------------------------------------------------------------ slots

    /** A slot of the working node for a child, made free if there is none. */
    method MakeRoom(ghost loose: set<int>) returns (index: int)
      requires Ready() && Sane(St(), loose) && Mut(St())
      modifies this`size, this`lastGen, this`gens, this`tree, prot`os, prot.active.m
      ensures Ready() && Roomy(old(St()), loose, St()) && index == |Sub'(tree, working).kids| && size >= old(size)
      ensures old(lastPage in pages) && Sp() == RoomSpace(old(St()), old(Sp()))
      ensures prot.Leaks() <= old(prot.Leaks())
    {
      hide ReadyFor, Lenient, Leaking, Sane, Roomy, MadeRoom, Rep, Sub', Sub, Gens, FirstHit, Items, View, Mut,
        Protection.Valid, Protection.Maps, Protection.Leaks;
      ghost var st := St();
      ReadyHolds();
      WorkingSlotFound(st, loose);
      var slot := Search(working, FreeSlotOf(gens), Sub'(tree, working));
      index := 0;
      if slot.None? {
        SubPrime(tree, working);
        MutWorks(st);
        var child := NewGenBetween(working, loose);
        RoomMade(st, loose, child, St());
        RoomySane(st, loose, St());
        WorkingSlotFound(St(), loose);
        slot := Search(working, FreeSlotOf(gens), Sub'(tree, working));
      }
      index := slot.value.1;
    }

    // ------------------------------------------------------------ handle_segv

    /** page_copy: the page's bytes at a fresh location, with its segment pointers
        offset by the distance. */
    method PageCopy(a: int) returns (stop: Stop, copy: int)
      requires Ready() && Sane(St(), {}) && a in pages && pages[a].realAddr == a
      modifies this`size, this`lastPage, this`pages, prot`os, prot.active.m
      ensures stop == PageStop(old(Sp()), old(pages[a].pages))
      ensures stop == Going ==> Ready() && Copied(old(St()), a, copy, St()) && Sp() == AfterPage(old(Sp()), old(pages[a].pages))
      ensures size >= old(size)
      ensures stop == Going ==> prot.Leaks() <= old(prot.Leaks())
    {
      hide ReadyFor, Lenient, Leaking, Sane, View, Copied, Protection.Maps, Protection.Leaks;
      ghost var st := St();
      SanePages(st, a);
      ReadyRo(prot.Maps(), Sp(), pages, ro);
      stop, copy := NewPage(pages[a].pages);
      if stop != Going { return; }
      CopiedSane(st, a, copy);
      OverwritePage(copy, a);
    }

    method OverwritePage(copy: int, a: int)
      requires Ready() && copy in pages && a in pages && copy !in ro && pages[copy].pages == pages[a].pages
      requires pages[copy].realAddr == copy
      modifies this`pages
      ensures Ready() && pages == old(pages)[copy := Moved(old(pages)[a], copy - a)] && Sp() == old(Sp())
    {
      var p := OffsetPointers(pages[a], copy - a);
      ReadyCopy(prot.Maps(), Sp(), pages, ro, copy, p);
      hide ReadyFor, Lenient, Leaking, Protection.Valid, Protection.Maps, Moved;
      ghost var sp := Sp();
      assert Extents(pages[copy := p]) == Extents(pages);
      pages := pages[copy := p];
      assert Sp() == sp;
    }

    /** The copy takes the slot of the hit page, and the hit page a slot of the
        working generation. */
    method TakePage(p: int, i: int, a: int, copy: int, index: int)
      requires Ready() && a in pages && copy in pages && p in gens && Slot(gens, p, i, a) && working in gens
      requires working in Gens(tree) && |gens[working].c| == GENERATION_CHILDREN && |Sub(tree, working).kids| < GENERATION_CHILDREN
      requires index == |Sub(tree, working).kids|
      modifies this`gens, this`pages, this`tree
      ensures Ready() && St() == AfterTrap(old(St()), p, i, a, copy) && Sp() == old(Sp())
    {
      hide ReadyFor, Lenient, Leaking, Protection.Maps, WellFormed, Relabel, AddKid', Sub, Gens, Extents, Trapped, TwoSlots;
      ghost var st, sp := St(), Sp();
      ReadyBits(prot.Maps(), sp, pages, ro, a, copy);
      TrapSlots(st, p, i, copy, index, a);
      pages := pages[copy := pages[copy].(committed := true)];
      gens := gens[p := gens[p].(c := gens[p].c[i := copy])];
      pages := pages[a := pages[a].(committed := false)];
      gens := gens[working := gens[working].(c := gens[working].c[index := a])];
      tree := AddKid'(Relabel(tree, a, copy), working, Leaf(a));
      assert gens.Keys == st.gens.Keys;
      assert Sp() == sp;
    }

    /** The rest of handle_segv, once the page is open and its slot is known: it
        stays with the working generation, and a copy of it takes its place. */
    method GiveCopy(page: int, p: int, i: int) returns (stop: Stop, ghost l: Step)
      requires Ready() && Sane(St(), {}) && Mut(St()) && BarrierBut(pages, ro, page)
      requires page in pages && pages[page].realAddr == page && pages[page].committed && page != NULL && Slot(gens, p, i, page)
      modifies this`size, this`lastPage, this`lastGen, this`gens, this`pages, this`tree, prot`os, prot.active.m
      ensures stop == PageStop(old(Sp()), old(pages[page].pages)) && size >= old(size)
      ensures stop == Going ==> Ready() && Barrier(pages, ro) && l.Trap? && l.a == page && Done(old(St()), l, St())
      ensures stop == Going ==> Sp() == TrapSpace(old(St()), old(Sp()), old(pages[page].pages))
      ensures stop == Going ==> prot.Leaks() <= old(prot.Leaks())
    {
      hide Heap.Ready, Sane, Done, Copied, Roomy, Barrier, BarrierBut, Gens, Sub, Sub', View, AfterTrap, WorkingFull, AfterGen,
        Extents, Protection.Leaks, EndOf, Tail, Moved;
      l := Begin;
      ghost var st := St();
      ReadyHolds();
      var copy, index;
      stop, copy := PageCopy(page);
      if stop != Going { return; }
      ReadyHolds();
      ghost var st1 := St();
      CopiedFacts(st, page, copy, st1);
      index := MakeRoom({copy});
      ReadyHolds();
      ghost var st2 := St();
      SlotStays(st, st1, {copy}, st2, p, i, page);
      SubPrime(tree, working);
      TrapDone(st, page, copy, st1, st2, p, i);
      l := Trap(page, copy, EndOf(tree, working));
      TrapPages(st2, p, i, page, copy);
      TakePage(p, i, page, copy, index);
      TrapBarrier(st.pages, ro, page, copy, st1.pages, pages);
    }

    /** The page that a fault at addr hits, if the fault is one that can be handled. */
    method FindFault(addr: int) returns (stop: Stop, page: int)
      requires Valid()
      ensures stop == Verdict(pages, size, Mut(St()), addr) && Told(stop, pages, size, Mut(St()), addr)
      ensures stop == Going ==> HitPage(pages, addr) == Some(page) && page in pages && pages[page].committed
    {
      hide ReadyFor, Lenient, Leaking, Sane, Barrier, Rep, Items, FirstHit, View, Told, Protection.Maps;
      FaultFound(St(), prot.Maps(), Sp(), ro, addr);
      SaneTells(St(), prot.Maps(), Sp(), ro, addr);
      page := NULL;
      if addr < MAP_START || addr >= MAP_START + size { return OutOfHeap, page; }
      if committed == working { return OutsideMutation, page; }
      var hit := Search(root, PageAtOf(pages, addr), tree);
      if hit.None? { return NoPage, page; }
      page := hit.value.0;
      if hit.value.1 == -1 { return NoSegment, page; }
      stop := if pages[page].committed then Going else NotCommitted;
    }

    /** What a write fault is about: a committed page at home, which has a slot. */
    lemma FaultFacts(addr: int)
      requires Valid() && !prot.os(addr)
      ensures Ready() && prot.Valid() && lastPage in pages && Sane(St(), {}) && root == tree.at && Rep(gens, pages.Keys, tree)
      ensures Verdict(pages, size, Mut(St()), addr) != NotCommitted
      ensures Verdict(pages, size, Mut(St()), addr) == Going ==>
                && Mut(St()) && HitPage(pages, addr).Some?
                && var a := HitPage(pages, addr).value;
                   && PageHit(pages, a, addr) && a in pages && pages[a].realAddr == a && a != NULL
                   && BarrierBut(pages, ro - (set b | b in [a]), a)
                   && var slot := FirstHit(Items(tree, 0), ParentOf(gens, a));
                      slot.Some? && slot.value.0 in gens && Slot(gens, slot.value.0, slot.value.1, a)
    {
      hide Lenient, Leaking, Sane, Barrier, BarrierBut, Rep, Items, FirstHit, WellFormed, HitPage;
      ValidHolds();
      FaultCommitted(prot.Maps(), Sp(), pages, ro, prot.os, Mut(St()), addr);
      FaultFound(St(), prot.Maps(), Sp(), ro, addr);
      if Verdict(pages, size, Mut(St()), addr) == Going {
        VerdictMut(pages, size, Mut(St()), addr);
        BarrierOpened(pages, ro, HitPage(pages, addr).value);
      }
    }

    lemma ValidIs()
      requires Ready() && Sane(St(), {}) && root == tree.at && Barrier(pages, ro)
      ensures Valid()
    {
    }

    /** A write fault at addr: the process cannot write there. */
    method HandleSegv(addr: int) returns (stop: Stop, ghost l: Step)
      requires Valid() && !prot.os(addr)
      modifies this`size, this`lastPage, this`lastGen, this`gens, this`pages, this`tree, this`ro, prot`os, prot.active`len, prot.active.m
      ensures var v := Verdict(old(pages), old(size), old(Mut(St())), addr);
              && v != NotCommitted
              && (v != Going ==> stop == v)
              && (v == Going ==> exists a :: PageHit(old(pages), a, addr) && Traps(stop, old(Sp()), old(pages), a))
      ensures stop == Going ==> Valid() && l.Trap? && PageHit(old(pages), l.a, addr) && Done(old(St()), l, St())
      ensures stop == Going ==> old(lastPage in pages) && l.a in old(pages) && Sp() == TrapSpace(old(St()), old(Sp()), old(pages[l.a].pages))
      ensures size >= old(size)
      ensures stop == Going ==> prot.Leaks() <= old(prot.Leaks())
    {
      hide Heap.Valid, Heap.Ready, Sane, Done, Barrier, BarrierBut, Rep, Items, FirstHit, View, HitPage, Verdict, Told,
        Crowded, PageStop,
        Slot, Mut, Extents, Protection.Leaks;
      l := Begin;
      ghost var st := St();
      var page;
      FaultFacts(addr);
      stop, page := FindFault(addr);
      if stop != Going { return; }
      ghost var sp := Sp();
      stop := OpenPages([page]);
      assert Sp() == sp;
      if stop != Going { return; }
      var slot := Search(root, ParentOf(gens, page), tree);
      stop, l := GiveCopy(page, slot.value.0, slot.value.1);
      if stop != Going { return; }
      DoneSane(st, l, St());
      ValidIs();
    }
  }

  /** A table that lists the given maps. */
  method TableOf(ms: seq<Map>) returns (t: Table)
    requires |ms| < MAX_MAPS
    ensures fresh(t) && fresh(t.m) && t.Valid() && t.Contents() == ms
  {
    t := new Table();
    for i := 0 to |ms|
      invariant fresh(t) && fresh(t.m) && t.Valid() && t.Contents() == ms[..i]
    {
      t.InsertMap(ms[i], i);
      assert With(ms[..i], i, ms[i]) == ms[..i + 1];
    }
    assert ms[..|ms|] == ms;
  }

  /** A fresh page behind all others. */
  ghost predicate PageAdded(pages: map<int, Page>, gens: set<int>, next: int, n: int, pages': map<int, Page>) {
    && pages' == pages[next := FreshPage(next, n)] && next !in pages && next !in gens && next != NULL
    && forall a :: a in pages ==> a < next
  }

  /** A fresh generation. */
  ghost predicate GenAdded(gens: map<int, Generation>, pages: set<int>, next: int, index: int, bit: bool, gens': map<int, Generation>) {
    gens' == gens[next := Generation(bit, index, EmptySlots())] && next !in gens && next !in pages && next != NULL
  }

  ghost function FirstSpace(first: Page): Space {
    Space(Extents(map[FIRST_PAGE := first]), {FIRST_GEN}, FIRST_PAGE, FIRST_GEN, INITIAL_PAGES * 4096)
  }

  lemma FirstPlaced(first: Page)
    requires first.pages == 1
    ensures Placed(FirstSpace(first))
  {
    var sp := FirstSpace(first);
    assert PageEnd(sp, FIRST_PAGE) == FIRST_PAGE + 4096;
    assert PageSound(sp, FIRST_PAGE) && GenSound(sp, FIRST_GEN);
    assert RoundUp(FIRST_GEN + GENERATION) == FIRST_PAGE by { InPhysicalPage(FIRST_GEN + GENERATION, FIRST_GEN); }
  }
}
