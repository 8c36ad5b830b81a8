/** snap_begin_mut, snap_commit and snap_checkout. */
module Transactions {
  import opened Layout
  import opened Maps
  import opened Carving
  import opened Layers
  import opened Tables
  import opened Protections
  import opened Pages
  import opened VersionStore
  import opened Trees
  import opened Forest
  import opened Pointers
  import opened Walks
  import opened Selection
  import opened Swaps
  import opened Placement
  import opened Guards
  import opened HeapStates
  import opened Callbacks
  import opened Evolution
  import opened Shields
  import opened Heaps

  // ------------------------------------------------------------ snap_begin_mut

  /** Below the committed generation slot k of node g is free; at most room was
      made for it. */
  ghost predicate Slotted(st: State, g: int, k: int, st1: State) {
    && Sane(st1, {}) && !Mut(st1) && st1 == st.(gens := st1.gens, tree := st1.tree)
    && View(st1) == View(st) && st1.tree.at == st.tree.at
    && g in st1.gens && g in Gens(st1.tree) && k == |Sub(st1.tree, g).kids| < GENERATION_CHILDREN
    && (Tail(st) && Id(st, st.committed) == st.last ==> g == st.committed && After(st1.tree, 0, g) == [] && Tipped(st1.tree, g, st.last))
    && Hosts(st.tree, st.committed, g, st1.tree) && EndOf(st1.tree, g) == EndOf(st.tree, g)
    && st.committed in Gens(st1.tree) && g in Gens(Sub(st1.tree, st.committed))
  }

  /** The placement once there is room below the committed node. */
  ghost function HeadSpace(st: State, sp: Space): (r: Space)
    requires sp.lastPage in sp.extent
    ensures r.lastPage in r.extent
  {
    if NoRoom(Sub'(st.tree, st.committed)) then AfterGen(sp) else sp
  }

  lemma CommittedIsTip(st: State)
    requires Sane(st, {}) && Tail(st) && Id(st, st.committed) == st.last
    ensures Tipped(st.tree, st.committed, st.last) && After(st.tree, 0, st.committed) == []
  {
  }

  /** What the walk for a free slot below the committed node tells. */
  lemma SlotFound(st: State)
    requires Sane(st, {}) && !Mut(st)
    ensures st.committed in st.gens && st.committed in Gens(st.tree)
    ensures Rep(st.gens, st.pages.Keys, Sub'(st.tree, st.committed)) && Sub'(st.tree, st.committed).at == st.committed
    ensures var h := FirstHit(Items(Sub'(st.tree, st.committed), 0), FreeSlotOf(st.gens));
            if h.Some? then Slotted(st, h.value.0, h.value.1, st)
            else |Sub(st.tree, st.committed).kids| == GENERATION_CHILDREN && NoRoom(Sub(st.tree, st.committed))
    ensures FirstHit(Items(Sub'(st.tree, st.committed), 0), FreeSlotOf(st.gens)).None? <==> NoRoom(Sub'(st.tree, st.committed))
  {
    hide Inv, Rep, Kept, Tipped, FirstHit, Items, PagesOf, After, EndOf, FirstRoom, NoRoom;
    GenAt(st, {}, st.committed);
    FreeSlotHit(st, {}, st.committed);
    FreeSlotFirst(st, {}, st.committed);
    FirstHasRoom(st);
    if Tail(st) && Id(st, st.committed) == st.last {
      CommittedIsTip(st);
      TipSlot(st, {}, st.committed);
    }
  }

  lemma FirstHasRoom(st: State)
    ensures st.committed in Gens(st.tree) && NoRoom(Sub(st.tree, st.committed)) ==> forall g :: !FirstRoom(Sub(st.tree, st.committed), g)
  {
  }

  lemma RoomSlotted(st: State, child: int, st1: State)
    requires Sane(st, {}) && !Mut(st) && MadeRoom(st, {}, st.committed, child, st1) && NoRoom(Sub(st.tree, st.committed))
    ensures st1.committed == st.committed && Sane(st1, {}) && !Mut(st1)
    ensures var h := FirstHit(Items(Sub'(st1.tree, st1.committed), 0), FreeSlotOf(st1.gens));
            h.Some? && Slotted(st, h.value.0, h.value.1, st1)
  {
    hide Inv, Rep, Kept, FirstHit, Items, PagesOf, Shaped, Headed, NoRoom, EndOf;
    SaneTop(st, {});
    SaneTop(st1, {});
    PagesAreNodes(st, {});
    MadeFree(st1);
    if Tail(st) && Id(st, st.committed) == st.last { CommittedIsTip(st); }
  }

  /** A committed node with room is the one that is found. */
  lemma MadeFree(st: State)
    requires Sane(st, {}) && st.committed in Gens(st.tree) && |Sub(st.tree, st.committed).kids| < GENERATION_CHILDREN
    ensures st.committed in st.gens
    ensures var h := FirstHit(Items(Sub'(st.tree, st.committed), 0), FreeSlotOf(st.gens));
            h.Some? && h.value == (st.committed, |Sub(st.tree, st.committed).kids|)
  {
    hide Inv, Rep, Kept, FirstHit, Items, PagesOf, Shaped, Headed;
    SaneTop(st, {});
    FreeSlotHit(st, {}, st.committed);
  }

  /** A child of g lies below every node that g lies below. */
  lemma KidBelow(t: Node, c: int, g: int, k: Node)
    requires Uniq(t) && c in Gens(t) && g in Gens(Sub(t, c)) && g in Gens(t)
    ensures c in Gens(AddKid(t, g, k)) && k.at in Nodes(Sub(AddKid(t, g, k), c))
  {
    var ks := Sub(t, g).kids + [k];
    SubIn(t, c);
    SubSub(t, 0, c, g);
    SubSet(t, g, ks, c);
    SetKidsNodes(Sub(t, c), g, ks);
    NodesConcat(Sub(t, g).kids, k);
    assert k.at in Nodes(k);
  }

  lemma BeginDone(st: State, st1: State, g: int, k: int, next: int)
    requires Sane(st, {}) && !Mut(st) && Slotted(st, g, k, st1) && next !in st1.gens && next !in st1.pages && next != NULL
    ensures g in Gens(st1.tree) && g in st1.gens && |st1.gens[g].c| == GENERATION_CHILDREN && |Sub(st1.tree, g).kids| == k < GENERATION_CHILDREN
    ensures Done(st, Begin, AfterBegin(st1, g, next)) && Mut(AfterBegin(st1, g, next)) && Hangs(st, AfterBegin(st1, g, next))
  {
    hide Inv, Shaped, Headed, Tipped, Items, PagesOf, Tail, EndOf, Hosts;
    BeginSane(st1, g, next);
    AddKidAt(st1.tree, g, Gen(next, st1.last + 1, []));
    SaneTop(st1, {});
    GenAt(st1, {}, g);
    KidBelow(st1.tree, st.committed, g, Gen(next, st1.last + 1, []));
    HostsIn(st, g, st1.tree);
    assert HangsAt(st, g, st1.tree, AfterBegin(st1, g, next));
  }

  lemma HostsIn(st: State, g: int, t1: Node)
    requires Hosts(st.tree, st.committed, g, t1)
    ensures g in Gens(st.tree)
  {
  }

  /** first_free_slot below the committed generation, and new_gen_between if there
      is none. */
  method SlotBelowCommitted(h: Heap) returns (g: int, k: int)
    requires h.Valid() && !Mut(h.St())
    modifies h`size, h`lastGen, h`gens, h`tree, h.prot`os, h.prot.active.m
    ensures h.Ready() && Slotted(old(h.St()), g, k, h.St()) && h.size >= old(h.size)
    ensures old(h.lastPage in h.pages) && h.Sp() == HeadSpace(old(h.St()), old(h.Sp()))
    ensures h.prot.Leaks() <= old(h.prot.Leaks())
  {
    hide ReadyFor, Lenient, Leaking, Sane, Slotted, MadeRoom, Rep, Sub', Sub, Gens, FirstHit, Items, View, Barrier, NoRoom,
      WellFormed, AfterGen, Protection.Leaks;
    ghost var st := h.St();
    h.ReadyHolds();
    SlotFound(st);
    var slot := h.Search(h.committed, FreeSlotOf(h.gens), Sub'(h.tree, h.committed));
    if slot.None? {
      var child := h.NewGenBetween(h.committed, {});
      RoomSlotted(st, child, h.St());
      SlotFound(h.St());
      slot := h.Search(h.committed, FreeSlotOf(h.gens), Sub'(h.tree, h.committed));
    }
    g, k := slot.value.0, slot.value.1;
  }

  /** The new generation is written into the slot and becomes the working one. */
  method PlantGen(h: Heap, g: int, k: int, next: int)
    requires h.Ready() && g in h.gens && g in Gens(h.tree) && |h.gens[g].c| == GENERATION_CHILDREN && g != next && next in h.gens
    requires k == |Sub(h.tree, g).kids| < GENERATION_CHILDREN
    modifies h`gens, h`tree, h`tops, h`working
    ensures h.Sp() == old(h.Sp())
    ensures h.Ready() && h.working == next && h.tops == old(h.tops)[h.lastGenIndex := next]
    ensures h.gens == old(h.gens)[g := old(h.gens[g].(c := h.gens[g].c[k := next]))]
    ensures h.tree == AddKid(old(h.tree), g, Gen(next, h.lastGenIndex, []))
  {
    hide ReadyFor, Protection.Valid, Protection.Maps, AddKid;
    ghost var sp := h.Sp();
    h.gens := h.gens[g := h.gens[g].(c := h.gens[g].c[k := next])];
    h.working := next;
    h.tree := AddKid(h.tree, g, Gen(next, h.lastGenIndex, []));
    h.tops := h.tops[h.lastGenIndex := next];
    assert h.gens.Keys == sp.gens;
    assert h.Sp() == sp;
  }

  lemma ReadyFacts(h: Heap)
    requires h.Ready()
    ensures h.prot.Valid() && h.lastPage in h.pages
  {
    ReadyPage(h.prot.Maps(), h.Sp(), h.pages, h.ro, 1);
  }

  lemma ValidReady(h: Heap)
    requires h.Valid()
    ensures h.Ready() && h.prot.Valid() && h.lastPage in h.pages && Sane(h.St(), {})
  {
    ReadyFacts(h);
  }

  method RaiseIndex(h: Heap)
    requires h.Ready()
    modifies h`lastGenIndex
    ensures h.Ready() && h.lastGenIndex == old(h.lastGenIndex) + 1
  {
    h.lastGenIndex := h.lastGenIndex + 1;
  }

  /** The part of snap_begin_mut that grows the tree. */
  method OpenGeneration(h: Heap)
    requires h.Valid() && !Mut(h.St())
    modifies h`size, h`lastGen, h`lastGenIndex, h`gens, h`tree, h`tops, h`working, h.prot`os, h.prot.active.m
    ensures h.Ready() && Done(old(h.St()), Begin, h.St()) && Mut(h.St()) && Hangs(old(h.St()), h.St())
    ensures old(h.lastPage in h.pages) && h.Sp() == AfterGen(HeadSpace(old(h.St()), old(h.Sp())))
    ensures h.tops == old(h.tops)[h.lastGenIndex := h.working] && h.size >= old(h.size)
    ensures h.prot.Leaks() <= old(h.prot.Leaks())
  {
    hide Heap.Valid, Heap.Ready, Sane, Slotted, Done, Rep, Sub, Gens, AddKid, View, Hangs, AfterGen, Protection.Leaks;
    ghost var st := h.St();
    ValidReady(h);
    var g, k := SlotBelowCommitted(h);
    ReadyFacts(h);
    ghost var st1 := h.St();
    SlottedHeads(st, g, k, st1);
    RaiseIndex(h);
    var next := h.NewGen(h.lastGenIndex, false);
    ReadyFacts(h);
    BeginDone(st, st1, g, k, next);
    PlantGen(h, g, k, next);
    assert h.St() == AfterBegin(st1, g, next);
  }

  lemma SlottedHeads(st: State, g: int, k: int, st1: State)
    requires Slotted(st, g, k, st1)
    ensures st1 == st.(gens := st1.gens, tree := st1.tree) && g in st1.gens
  {
  }

  lemma HomeListed(pages: map<int, Page>, ms: seq<Map>, a: int)
    requires HomeList(pages, ms) && a in Homes(pages)
    ensures ms != []
  {
  }

  /** What snap_begin_mut leaves bare, and whether it is aborted, depends on the pages
      and their order only. */
  lemma ShieldsSame(s: Store, s': Store, ro: set<int>)
    requires s'.order == s.order && s'.mem == s.mem
    ensures forall x :: Bared(s', ro, x) <==> Bared(s, ro, x)
    ensures Completes(s', ro) <==> Completes(s, ro)
  {
  }

  lemma ShieldedIs(t: seq<Map>, sp: Space, s: Store, ro: set<int>, t': seq<Map>, os: int -> bool, os': int -> bool)
    requires ReadyFor(t, sp, s.mem, ro) && WellFormed(t) && Lenient(t, os) && Distinct(s.order)
    requires var ms := HomeMaps(s.order, s.mem);
             && AllInRange(t, ms) && AllStrict(t, ms) && Finishes(Going, Shown(t), ms)
             && PaintedBy(t, ms, t') && LaidOver(os, t, ms, os')
    ensures WellFormed(t') && Shielded(s, ro, Leaking(t, os), Leaking(t', os')) && Lenient(t', os')
  {
    var ms := HomeMaps(s.order, s.mem);
    PlacedPages(sp, s.mem);
    HomesSeparate(s.order, s.mem, sp.size);
    ShownUnshut(t, sp, s.mem, ro, ms);
    PaintedSame(t, ms, t');
    hide ReadyFor, HomeMaps, AllFinish, Bare, PaintedBy, LaidOver, Lenient, Leaking, AllInRange, AllStrict, Separate, AllShut;
    ShutLeaves(t, ms, t', os, os');
  }

  lemma AbortedIs(t: seq<Map>, sp: Space, s: Store, ro: set<int>)
    requires ReadyFor(t, sp, s.mem, ro) && WellFormed(t)
    requires var ms := HomeMaps(s.order, s.mem);
             AllInRange(t, ms) && AllStrict(t, ms) && Finishes(EmptyLeft, Shown(t), ms)
    ensures !Completes(s, ro)
  {
    ShownUnshut(t, sp, s.mem, ro, HomeMaps(s.order, s.mem));
    hide ReadyFor, HomeMaps, AllFinish, AllInRange, AllStrict;
  }

  /** Different entries of the order stand at different locations. */
  lemma {:induction false} OrderCount(order: seq<Entry>, mem: map<int, Page>) returns (locs: set<int>)
    requires Located(order, mem) && Distinct(order)
    ensures |locs| == |order| && locs <= mem.Keys && forall x :: x in locs ==> exists i :: 0 <= i < |order| && order[i].loc == x
    decreases order
  {
    if order == [] {
      locs := {};
    } else {
      var n := |order| - 1;
      var rest := OrderCount(order[..n], mem);
      assert order[n].loc !in rest;
      locs := rest + {order[n].loc};
      forall x | x in locs ensures exists i :: 0 <= i < |order| && order[i].loc == x {
        if x in rest {
          var i :| 0 <= i < n && order[..n][i].loc == x;
          assert order[i].loc == x;
        } else {
          assert order[n].loc == x;
        }
      }
    }
  }

  lemma {:induction false} HomeMapsCount(order: seq<Entry>, pages: map<int, Page>)
    ensures |HomeMaps(order, pages)| <= |order|
    decreases order
  {
    if order != [] { HomeMapsCount(order[1..], pages); }
  }

  /** The homes find room in the table, unless the heap is crowded. */
  lemma HomesRoom(t: seq<Map>, sp: Space, s: Store, ro: set<int>)
    requires ReadyFor(t, sp, s.mem, ro) && Located(s.order, s.mem) && Distinct(s.order)
    ensures var ms := HomeMaps(s.order, s.mem);
            && (|ms| >= MAX_MAPS ==> Crowded(|s.mem|))
            && (|t| + 2 * |Coalesced(ms)| > MAX_MAPS ==> Crowded(|s.mem|))
  {
    var ms := HomeMaps(s.order, s.mem);
    HomeMapsCount(s.order, s.mem);
    var locs := OrderCount(s.order, s.mem);
    SubsetCount(locs, s.mem.Keys);
    assert |s.mem.Keys| == |s.mem|;
    assert ms[..|ms|] == ms;
    if |ms| > 0 { CoalescedLength(ms, |ms|); }
    ReadyBound(t, sp, s.mem, ro);
  }

  /** All committed pages at home become read-only. */
  method ProtectHomes(h: Heap) returns (stop: Stop)
    requires h.Ready() && Sane(h.St(), {}) && h.root == h.tree.at
    requires forall a :: a in h.pages ==> h.pages[a].committed && h.pages[a].realAddr in Homes(h.pages)
    modifies h`ro, h.prot`os, h.prot.active`len, h.prot.active.m
    ensures stop in {Going, EmptyLeft, TableFull}
    ensures stop == TableFull ==> Crowded(|h.pages|)
    ensures stop == Going ==> h.Ready() && Barrier(h.pages, h.ro)
    ensures stop == Going ==> Shielded(h.V(), old(h.ro), old(h.prot.Leaks()), h.prot.Leaks())
    ensures stop == EmptyLeft ==> !Completes(h.V(), old(h.ro))
  {
    hide ReadyFor, Lenient, Leaking, Sane, Steady, AllInRange, AllStrict, AllFinish, AllHeard, Separate, AllShut, Shown,
      PaintedBy, LaidOver,
      Barrier, HomeList, Gather, Walk, Items, HomeMaps, Shielded, Completes, WellFormed, Distinct, Extents, Crowded, Coalesced;
    ghost var st, t, os0 := h.St(), h.prot.Maps(), h.prot.os;
    GatherHomes(st);
    var f := HomeMapsOf(h.pages);
    var action, ms := h.WalkNodes(h.root, Gatherer(f), [], h.tree);
    ReadyPage(t, h.Sp(), h.pages, h.ro, 1);
    HomeListed(h.pages, ms, h.pages[h.lastPage].realAddr);
    DistinctPages(st);
    HomesRoom(t, h.Sp(), h.V(), h.ro);
    if |ms| >= MAX_MAPS { return TableFull; }
    ReadyCloses(t, h.Sp(), h.pages, h.ro, ms);
    var news := TableOf(ms);
    stop := h.prot.MergeInTable(news);
    if stop == EmptyLeft { AbortedIs(t, h.Sp(), h.V(), h.ro); }
    if stop != Going { return; }
    ShieldedIs(t, h.Sp(), h.V(), h.ro, h.prot.Maps(), os0, h.prot.os);
    h.ro := Homes(h.pages);
  }

  lemma DistinctPages(st: State)
    requires Sane(st, {})
    ensures Distinct(View(st).order) && Located(View(st).order, View(st).mem) && View(st).mem == st.pages
  {
  }

  lemma GatherHomes(st: State)
    requires Sane(st, {})
    ensures Rep(st.gens, st.pages.Keys, st.tree)
    ensures var ms := Walk(st.tree, Gatherer(HomeMapsOf(st.pages)), []).1;
            HomeList(st.pages, ms) && ms == HomeMaps(View(st).order, st.pages)
  {
    var f := HomeMapsOf(st.pages);
    WalkGathers(st.tree, 0, f, []);
    HomesGathered(st);
    ItemsKinds(st.tree, 0, st.gens, st.pages.Keys);
    GatherHomeMaps(Items(st.tree, 0), st.pages);
    assert [] + Gather(Items(st.tree, 0), f) == Gather(Items(st.tree, 0), f);
  }

  /** snap_begin_mut: a generation with the next id is working, and exactly the
      committed pages at home are read-only in the table. */
  method BeginMut(h: Heap) returns (stop: Stop, r: int)
    requires h.Valid() && !Mut(h.St())
    modifies h, h.prot`os, h.prot.active`len, h.prot.active.m
    ensures stop in {Going, EmptyLeft, TableFull} && h.size >= old(h.size)
    ensures stop == TableFull ==> Crowded(|old(h.pages)|)
    ensures stop == Going ==> h.Valid() && Done(old(h.St()), Begin, h.St()) && Mut(h.St()) && h.pages == old(h.pages)
    ensures stop == Going ==> Hangs(old(h.St()), h.St())
    ensures old(h.lastPage in h.pages) && h.Sp() == AfterGen(HeadSpace(old(h.St()), old(h.Sp())))
    ensures stop == Going ==> r == old(h.lastGenIndex) + 1 && h.lastGenIndex == r && h.committed == old(h.committed)
    ensures stop == Going ==> h.tops == old(h.tops)[r := h.working]
    ensures stop == Going ==> Shielded(old(h.V()), old(h.ro), old(h.prot.Leaks()), h.prot.Leaks())
    ensures stop == Going && old(h.prot.Agreed()) ==> (h.prot.Agreed() <==> Quiet(old(h.V()), old(h.ro)))
    ensures stop == EmptyLeft ==> !Completes(old(h.V()), old(h.ro))
  {
    hide ReadyFor, Lenient, Leaking, Sane, Done, Barrier, Homes, Shielded, Completes, Hangs, Crowded, Protection.Leaks,
      WellFormed,
      Protection.Agreed, Quiet;
    AgreedIs(h);
    ghost var st, was := h.St(), h.prot.Leaks();
    r := 0;
    AllCommitted(st);
    OpenGeneration(h);
    DoneSane(st, Begin, h.St());
    BegunHeads(st, h.St());
    ghost var s1, leaks1 := h.V(), h.prot.Leaks();
    ShieldsSame(View(st), s1, h.ro);
    stop := ProtectHomes(h);
    if stop != Going { return; }
    ShieldedSame(View(st), s1, old(h.ro), was, leaks1, h.prot.Leaks());
    AgreedIs(h);
    if was == {} { ShieldedQuiet(View(st), old(h.ro), was, h.prot.Leaks()); }
    r := h.gens[h.working].gen;
  }

  lemma ShieldedSame(s: Store, s': Store, ro: set<int>, was: set<int>, was': set<int>, now: set<int>)
    requires s'.order == s.order && s'.mem == s.mem && was' <= was && Shielded(s', ro, was', now)
    ensures Shielded(s, ro, was, now)
  {
    hide Bared, Completes;
    ShieldsSame(s, s', ro);
  }

  /** Table and process agree exactly if nothing leaks. */
  lemma AgreedIs(h: Heap)
    requires h.Ready()
    ensures h.prot.Agreed() <==> h.prot.Leaks() == {}
  {
    NoLeaking(h.prot.Maps(), h.prot.os);
  }

  lemma ShieldedQuiet(s: Store, ro: set<int>, was: set<int>, now: set<int>)
    requires Shielded(s, ro, was, now) && was == {}
    ensures now == {} <==> Quiet(s, ro)
  {
    hide Bared;
    if Quiet(s, ro) { assert forall x :: x !in now; }
  }

  lemma BegunHeads(st: State, st': State)
    requires Sane(st, {}) && !Mut(st) && Done(st, Begin, st')
    ensures st'.last == st.last + 1 && st'.working in st'.gens && st'.gens[st'.working].gen == st'.last
    ensures View(st').order == View(st).order && View(st').mem == View(st).mem
  {
  }

  // ------------------------------------------------------------ snap_commit

  /** What set_committed lists is the subtree of the working generation. */
  lemma CommitWalk(st: State)
    requires Sane(st, {}) && Mut(st)
    ensures st.working in Gens(st.tree) && Rep(st.gens, st.pages.Keys, Sub'(st.tree, st.working)) && Sub'(st.tree, st.working).at == st.working
    ensures var l := Walk(Sub'(st.tree, st.working), Gatherer(NodeOf()), []).1;
            (set x | x in l) == Nodes(Sub(st.tree, st.working))
  {
    GenAt(st, {}, st.working);
    var t := Sub(st.tree, st.working);
    WalkGathers(t, 0, NodeOf(), []);
    NodesGathered(t);
    assert [] + Gather(Items(t, 0), NodeOf()) == Gather(Items(t, 0), NodeOf());
  }

  lemma CommitDone(st: State, flagged: set<int>)
    requires Sane(st, {}) && Mut(st) && st.working in Gens(st.tree) && flagged == Nodes(Sub(st.tree, st.working))
    ensures var st' := st.(gens := FlaggedGens(st.gens, flagged), pages := FlaggedPages(st.pages, flagged), committed := st.working);
            && Done(st, Commit, st') && Sane(st', {}) && !Mut(st')
            && st.committed in st.gens && st.working in st.gens && st.gens[st.working].gen == st.last
  {
    hide Inv, Shaped, Tipped, Tail;
    CommitSane(st);
  }

  /** snap_commit: the nodes of the working generation are committed, and it is the
      committed generation. */
  method CommitWork(h: Heap) returns (r: int)
    requires h.Valid() && Mut(h.St())
    modifies h`gens, h`pages, h`committed
    ensures h.Valid() && Done(old(h.St()), Commit, h.St()) && !Mut(h.St())
    ensures r == h.lastGenIndex == Id(h.St(), h.committed) && h.committed == old(h.working)
  {
    hide ReadyFor, Sane, Done, Barrier, Rep, Sub, Sub', Nodes, Gens, Walk, Protection.Valid, Protection.Maps;
    ghost var st := h.St();
    CommitWalk(st);
    var action, list := h.WalkNodes(h.working, Gatherer(NodeOf()), [], Sub'(h.tree, h.working));
    var flagged := set x | x in list;
    CommitDone(st, flagged);
    FlagNodes(h, flagged);
    h.committed := h.working;
    r := h.gens[h.committed].gen;
  }

  method FlagNodes(h: Heap, flagged: set<int>)
    requires h.Ready()
    modifies h`gens, h`pages
    ensures h.Ready() && h.gens == FlaggedGens(old(h.gens), flagged) && h.pages == FlaggedPages(old(h.pages), flagged)
  {
    ReadySame(h.prot.Maps(), h.Sp(), h.pages, h.ro, FlaggedPages(h.pages, flagged));
    hide ReadyFor, Protection.Valid, Protection.Maps;
    ghost var sp := h.Sp();
    assert Extents(FlaggedPages(h.pages, flagged)) == Extents(h.pages);
    h.gens := FlaggedGens(h.gens, flagged);
    h.pages := FlaggedPages(h.pages, flagged);
    assert h.gens.Keys == sp.gens;
    assert h.Sp() == sp;
  }

  // ------------------------------------------------------------ snap_checkout

  /** The pointers to page x and to its home were exchanged, and so were the pages. */
  ghost predicate Swapped(st: State, x: int, st': State) {
    && Sane(st', {}) && View(st') == SwapHome(View(st), x) && (Tail(st) ==> Tail(st')) && SameHeads(st, st')
  }

  ghost predicate SameHeads(st: State, st': State) {
    && st' == st.(gens := st'.gens, pages := st'.pages, tree := st'.tree) && st'.tree.at == st.tree.at
    && (forall g :: g in st.gens ==> g in st'.gens && st'.gens[g].gen == st.gens[g].gen)
  }

  lemma SwapDone(st: State, x: int, p1: int, i1: int, p2: int, i2: int)
    requires Sane(st, {}) && !Mut(st) && x in st.pages && st.pages[x].realAddr in st.pages && st.pages[x].realAddr != x
    requires Slot(st.gens, p1, i1, x) && Slot(st.gens, p2, i2, st.pages[x].realAddr)
    ensures Swapped(st, x, AfterSwap(st, x, p1, i1, p2, i2))
  {
    hide Inv, Shaped, Headed, Tail, Moved;
    SwapSane(st, x, p1, i1, p2, i2);
    SaneTop(st, {});
    RootStays(st, {}, x, st.pages[x].realAddr);
  }

  /** The slots of a page that is not at home, and of the page at its home. */
  lemma SlotsFound(st: State, x: int)
    requires Sane(st, {}) && x in st.pages
    ensures Rep(st.gens, st.pages.Keys, st.tree)
    ensures var r := st.pages[x].realAddr;
            && r in st.pages && st.pages[r].realAddr == r && st.pages[r].pages == st.pages[x].pages && r <= x
            && (var (h1, h2) := (FirstHit(Items(st.tree, 0), ParentOf(st.gens, x)), FirstHit(Items(st.tree, 0), ParentOf(st.gens, r)));
                && h1.Some? && h1.value.0 in st.gens && Slot(st.gens, h1.value.0, h1.value.1, x)
                && h2.Some? && h2.value.0 in st.gens && Slot(st.gens, h2.value.0, h2.value.1, r))
  {
    RootIsGen(st);
    ParentHit(st, {}, x);
    ParentHit(st, {}, st.pages[x].realAddr);
  }

  /** The two tree pointers are exchanged. */
  method ExchangeSlots(h: Heap, p1: int, i1: int, x: int, p2: int, i2: int, r: int)
    requires h.Ready() && p1 in h.gens && p2 in h.gens && Slot(h.gens, p1, i1, x) && Slot(h.gens, p2, i2, r)
    modifies h`gens, h`tree
    ensures h.Ready() && h.gens == TwoSlots(old(h.gens), p1, i1, r, p2, i2, x) && h.tree == Relabel(old(h.tree), x, r)
  {
    hide ReadyFor, Protection.Valid, Protection.Maps, Relabel;
    ghost var sp, gens0 := h.Sp(), h.gens;
    h.gens := h.gens[p1 := h.gens[p1].(c := h.gens[p1].c[i1 := r])];
    h.gens := h.gens[p2 := h.gens[p2].(c := h.gens[p2].c[i2 := x])];
    h.tree := Relabel(h.tree, x, r);
    assert h.gens.Keys == sp.gens;
    assert h.Sp() == sp;
  }

  /** page_swap, once both pages are writable: the contents are exchanged and their
      segment pointers offset. */
  method ExchangePages(h: Heap, x: int, r: int)
    requires h.Ready() && x in h.pages && r in h.pages && x != r
    requires h.pages[x].realAddr == h.pages[r].realAddr && h.pages[x].pages == h.pages[r].pages
    modifies h`pages
    ensures h.Ready() && h.pages == old(h.pages[x := Moved(h.pages[r], x - r)][r := Moved(h.pages[x], r - x)])
  {
    var p := OffsetPointers(h.pages[r], x - r);
    var q := OffsetPointers(h.pages[x], r - x);
    ReadySame(h.prot.Maps(), h.Sp(), h.pages, h.ro, h.pages[x := p][r := q]);
    hide ReadyFor, Protection.Valid, Protection.Maps, Moved;
    ghost var sp := h.Sp();
    assert Extents(h.pages[x := p][r := q]) == Extents(h.pages);
    h.pages := h.pages[x := p][r := q];
    assert h.Sp() == sp;
  }

  /** The slots of page x and of the page at its home were exchanged, but not yet the
      pages. */
  ghost predicate HalfSwapped(st: State, x: int, st1: State) {
    && x in st.pages && st1 == st.(gens := st1.gens, tree := st1.tree)
    && (var r := st.pages[x].realAddr;
        && r in st.pages && r < x && st.pages[r].realAddr == r && st.pages[r].pages == st.pages[x].pages
        && Swapped(st, x, st1.(pages := st.pages[x := Moved(st.pages[r], x - r)][r := Moved(st.pages[x], r - x)])))
  }

  /** The part of the round that looks for the two slots and exchanges them. */
  method SwapSlots(h: Heap, x: int) returns (r: int)
    requires h.Valid() && !Mut(h.St()) && x in h.pages && h.pages[x].realAddr != x
    modifies h`gens, h`tree
    ensures h.Ready() && HalfSwapped(old(h.St()), x, h.St()) && r == h.pages[x].realAddr
  {
    hide ReadyFor, Lenient, Sane, Swapped, Barrier, Rep, FirstHit, Items, Relabel, TwoSlots, Moved, Protection.Valid,
      Protection.Maps;
    ghost var st := h.St();
    r := h.pages[x].realAddr;
    SlotsFound(st, x);
    var s1 := h.Search(h.root, ParentOf(h.gens, x), h.tree);
    var s2 := h.Search(h.root, ParentOf(h.gens, r), h.tree);
    SwapDone(st, x, s1.value.0, s1.value.1, s2.value.0, s2.value.1);
    ExchangeSlots(h, s1.value.0, s1.value.1, x, s2.value.0, s2.value.1, r);
  }

  /** One round of the checkout loop, for a page that is not at home. */
  method SwapPage(h: Heap, x: int) returns (stop: Stop)
    requires h.Valid() && !Mut(h.St()) && x in h.pages && h.pages[x].realAddr != x
    modifies h`gens, h`pages, h`tree, h`ro, h.prot`os, h.prot.active`len, h.prot.active.m
    ensures stop in {Going, TableFull} && (stop == TableFull ==> Crowded(|old(h.pages)|))
    ensures stop == Going ==> h.Valid() && !Mut(h.St()) && Swapped(old(h.St()), x, h.St())
    ensures stop == Going ==> h.ro == old(h.ro - {x, h.pages[x].realAddr})
    ensures stop == Going ==> h.prot.Leaks() <= old(h.prot.Leaks())
  {
    hide ReadyFor, Lenient, Leaking, Sane, Swapped, Barrier, Moved, Crowded, Protection.Leaks, WellFormed;
    ghost var st := h.St();
    var r := SwapSlots(h, x);
    stop := h.OpenPages([x, r]);
    if stop != Going { return; }
    ExchangePages(h, x, r);
    SwappedSane(st, x, h.St());
  }

  lemma SwappedSane(st: State, x: int, st': State)
    requires Swapped(st, x, st')
    ensures Sane(st', {}) && st'.tree.at == st.tree.at && SameHeads(st, st')
  {
  }

  /** What the two passes of pages_up_to_gen leave. */
  ghost function PickedPages(st: State, k: int): seq<int> {
    Fold(View(st).order, k, Picker(RealOf(st.pages)), [])
  }

  lemma PickWalks(st: State, k: int)
    requires Sane(st, {})
    ensures Rep(st.gens, st.pages.Keys, st.tree)
    ensures Walk(st.tree, Selector(Above(st.gens, k), IsGen(st.gens), Picker(RealOf(st.pages))), []).1 == PickedPages(st, k)
    ensures Walk(st.tree, Selector(Above(st.gens, k), IsGen(st.gens), Count), 0).1 == Fold(View(st).order, k, Count, 0)
  {
    hide Walk, Fold, Items, PagesOf, Inv, Headed;
    RootIsGen(st);
    GenAt(st, {}, st.tree.at);
    KnowsRep(st.gens, st.pages.Keys, st.tree, k);
    WalkSelects(st.tree, 0, k, Above(st.gens, k), IsGen(st.gens), Count, 0);
    WalkSelects(st.tree, 0, k, Above(st.gens, k), IsGen(st.gens), Picker(RealOf(st.pages)), []);
  }

  lemma SelectionWalks(st: State, k: int)
    requires Sane(st, {})
    ensures Rep(st.gens, st.pages.Keys, st.tree)
    ensures Walk(st.tree, Selector(Above(st.gens, k), IsGen(st.gens), Picker(RealOf(st.pages))), []).1 == PickedPages(st, k)
    ensures |PickedPages(st, k)| <= Walk(st.tree, Selector(Above(st.gens, k), IsGen(st.gens), Count), 0).1
    ensures Walk(st.tree, Selector(Above(st.gens, k), IsGen(st.gens), Count), 0).1 == |UpTo(View(st).order, |View(st).order|, k)|
    ensures Picked(View(st).order, RealOf(st.pages), |View(st).order|, k, PickedPages(st, k))
  {
    hide Walk, Fold, Items, Sane, Picked, UpTo;
    var order := View(st).order;
    PickWalks(st, k);
    SelectionExact(order, RealOf(st.pages), |order|, k);
    CountExact(order, |order|, k);
    assert order[..|order|] == order;
  }

  /** i of the selected pages have been passed. */
  ghost predicate Passing(st: State, sel: seq<int>, i: int, st': State) {
    && 0 <= i <= |sel| && Sane(st', {}) && !Mut(st') && (Tail(st) ==> Tail(st')) && SameHeads(st, st')
    && View(st') == SwapsHome(View(st), Away(st.pages, sel[..i]))
  }

  lemma PassingFirst(st: State, sel: seq<int>)
    requires Sane(st, {}) && !Mut(st)
    ensures Passing(st, sel, 0, st)
  {
    assert Away(st.pages, sel[..0]) == [];
  }

  lemma PassingPages(st: State, sel: seq<int>, i: int, st': State)
    requires Sane(st, {}) && !Mut(st) && Passing(st, sel, i, st')
    ensures st'.pages.Keys == st.pages.Keys && forall b :: b in st.pages ==> st'.pages[b].realAddr == st.pages[b].realAddr
    ensures |st'.pages| == |st.pages|
  {
    HeadIds(st);
    SwapsHomeKeep(View(st), Away(st.pages, sel[..i]));
    SameCount(st'.pages, st.pages);
  }

  lemma PassingNext(st: State, sel: seq<int>, i: int, st1: State, st2: State)
    requires Passing(st, sel, i, st1) && i < |sel| && Sane(st2, {}) && !Mut(st2)
    requires if RealOf(st.pages)(sel[i]) != sel[i] then Swapped(st1, sel[i], st2) else st2 == st1
    ensures Passing(st, sel, i + 1, st2)
  {
    hide Sane, Tail, SwapHome, SwapsHome, Away, View;
    AwayNext(View(st), st.pages, sel, i);
  }

  lemma PickedIn(st: State, k: int)
    requires Sane(st, {})
    ensures forall i :: 0 <= i < |PickedPages(st, k)| ==> PickedPages(st, k)[i] in st.pages
  {
    SelectionWalks(st, k);
    PickedChosen(View(st), k, PickedPages(st, k));
  }

  /** All selected pages have been passed, and the headers point to generation k. */
  lemma CheckoutDone(st: State, k: int, g: int, st1: State)
    requires Sane(st, {}) && !Mut(st) && IsTop(st, g) && g in st.gens && st.gens[g].gen == k != Id(st, st.committed)
    requires Passing(st, PickedPages(st, k), |PickedPages(st, k)|, st1)
    ensures var st' := st1.(working := g, committed := g);
            CheckedOut(st, k, Away(st.pages, PickedPages(st, k)), st') && Sane(st', {}) && st'.tree.at == st.tree.at
  {
    hide Inv, Shaped, Headed, Tail, SwapsHome, Away, PickedPages, Picked;
    var sel := PickedPages(st, k);
    assert sel[..|sel|] == sel;
    SaneTop(st, {});
    HeadIds(st);
    BeginIds(st);
    SelectionWalks(st, k);
    SwapsCheckOut(View(st), k, sel);
    LandSane(st1, g);
  }

  lemma CheckoutNot(st: State, k: int)
    requires Sane(st, {}) && !Mut(st) && k == Id(st, st.committed)
    ensures CheckedOut(st, k, [], st)
  {
    BeginIds(st);
    HeadIds(st);
    hide Inv, Tail;
  }

  /** The two passes of pages_up_to_gen. The array that the first one sizes is large
      enough for the second. */
  method PickPages(h: Heap, k: int) returns (sel: seq<int>, count: nat)
    requires h.Valid()
    ensures sel == PickedPages(h.St(), k) && Picked(h.V().order, RealOf(h.pages), |h.V().order|, k, sel)
    ensures |sel| <= count == |UpTo(h.V().order, |h.V().order|, k)|
  {
    hide ReadyFor, Sane, Barrier, Rep, Walk, PickedPages, Picked, UpTo, Protection.Valid, Protection.Maps;
    SelectionWalks(h.St(), k);
    var a1;
    a1, count := h.WalkNodes(h.root, Selector(Above(h.gens, k), IsGen(h.gens), Count), 0, h.tree);
    var a2;
    a2, sel := h.WalkNodes(h.root, Selector(Above(h.gens, k), IsGen(h.gens), Picker(RealOf(h.pages))), [], h.tree);
  }

  lemma OpenedFirst(mem: map<int, Page>, sel: seq<int>)
    ensures Opened(mem, Away(mem, sel[..0])) == {}
  {
    assert Away(mem, sel[..0]) == [];
  }

  lemma OpenedNext(mem: map<int, Page>, sel: seq<int>, i: nat)
    requires i < |sel|
    ensures Opened(mem, Away(mem, sel[..i + 1]))
         == Opened(mem, Away(mem, sel[..i])) + if RealOf(mem)(sel[i]) != sel[i] then {sel[i], RealOf(mem)(sel[i])} else {}
  {
    assert sel[..i + 1][..i] == sel[..i];
    var w := Away(mem, sel[..i]);
    assert w + [] == w;
    OpenedOne(mem, w, sel[i]);
    hide Away, Opened;
  }

  lemma OpenedOne(mem: map<int, Page>, w: seq<int>, x: int)
    ensures Opened(mem, w + [x]) == Opened(mem, w) + {x, RealOf(mem)(x)}
  {
    var f := RealOf(mem);
    assert forall y :: y in w + [x] <==> y in w || y == x;
    assert (set y | y in w + [x] :: f(y)) == (set y | y in w :: f(y)) + {f(x)};
    assert (set y | y in w + [x]) == (set y | y in w) + {x};
  }

  /** One round of the loop, for page i of those that were selected in st. */
  method PassPage(h: Heap, sel: seq<int>, i: int, ghost st: State, ghost ro: set<int>) returns (stop: Stop)
    requires h.Valid() && !Mut(h.St()) && Sane(st, {}) && !Mut(st)
    requires 0 <= i < |sel| && sel[i] in st.pages && Passing(st, sel, i, h.St())
    requires h.ro == ro - Opened(st.pages, Away(st.pages, sel[..i]))
    modifies h`gens, h`pages, h`tree, h`ro, h.prot`os, h.prot.active`len, h.prot.active.m
    ensures stop in {Going, TableFull} && (stop == TableFull ==> Crowded(|st.pages|))
    ensures stop == Going ==> h.Valid() && !Mut(h.St()) && Passing(st, sel, i + 1, h.St())
    ensures stop == Going ==> h.ro == ro - Opened(st.pages, Away(st.pages, sel[..i + 1]))
    ensures stop == Going ==> h.prot.Leaks() <= old(h.prot.Leaks())
  {
    hide Heap.Valid, Sane, Passing, Swapped, Opened, Away, Crowded, Tail, Protection.Leaks;
    h.ValidHolds();
    ghost var st1 := h.St();
    PassingPages(st, sel, i, st1);
    OpenedNext(st.pages, sel, i);
    stop := Going;
    if h.pages[sel[i]].realAddr != sel[i] {
      stop := SwapPage(h, sel[i]);
      if stop != Going { return; }
    }
    h.ValidHolds();
    PassingNext(st, sel, i, st1, h.St());
  }

  /** The pages at the locations sel are swapped home where they are not. */
  method BringHome(h: Heap, sel: seq<int>) returns (stop: Stop)
    requires h.Valid() && !Mut(h.St()) && forall i :: 0 <= i < |sel| ==> sel[i] in h.pages
    modifies h`gens, h`pages, h`tree, h`ro, h.prot`os, h.prot.active`len, h.prot.active.m
    ensures stop in {Going, TableFull} && (stop == TableFull ==> Crowded(|old(h.pages)|))
    ensures stop == Going ==> h.Valid() && Passing(old(h.St()), sel, |sel|, h.St())
    ensures stop == Going ==> h.ro == old(h.ro) - Opened(old(h.pages), Away(old(h.pages), sel)) && |h.pages| == |old(h.pages)|
    ensures stop == Going ==> h.prot.Leaks() <= old(h.prot.Leaks())
  {
    hide Heap.Valid, Sane, Passing, Opened, Away, Crowded, Protection.Leaks;
    h.ValidHolds();
    ghost var st, ro := h.St(), h.ro;
    PassingFirst(st, sel);
    OpenedFirst(st.pages, sel);
    stop := Going;
    var i := 0;
    while i < |sel|
      invariant 0 <= i <= |sel| && stop == Going && h.Valid() && h.prot.Valid() && !Mut(h.St()) && Passing(st, sel, i, h.St())
      invariant h.ro == ro - Opened(st.pages, Away(st.pages, sel[..i]))
      invariant h.prot.Leaks() <= old(h.prot.Leaks())
    {
      stop := PassPage(h, sel, i, st, ro);
      if stop != Going { return; }
      h.ValidHolds();
      i := i + 1;
    }
    assert sel[..i] == sel;
    PassingPages(st, sel, i, h.St());
  }

  /** The pages that checkout opens, by the versions. */
  lemma CheckoutOpens(st: State, k: int, ro: set<int>)
    requires st.committed in st.gens
    ensures var swaps := if k == st.gens[st.committed].gen then [] else Away(st.pages, PickedPages(st, k));
            && SwapsTo(View(st), k) == swaps
            && RoAfter(View(st), ro, Checkout(k, swaps)) == if k == st.gens[st.committed].gen then ro else ro - Opened(st.pages, swaps)
  {
    hide Away, Fold;
  }

  /** snap_checkout: for an id that some generation has, every page selected for it
      ends at home, and the node that once worked for it is committed. */
  method CheckoutGen(h: Heap, k: int) returns (stop: Stop, ghost swaps: seq<int>)
    requires h.Valid() && !Mut(h.St())
    modifies h`gens, h`pages, h`tree, h`ro, h`working, h`committed, h.prot`os, h.prot.active`len, h.prot.active.m
    ensures stop in {Going, NoGeneration, TableFull}
    ensures stop == NoGeneration <==> !(0 <= k <= old(h.lastGenIndex))
    ensures stop == TableFull ==> Crowded(|old(h.pages)|)
    ensures stop == Going ==> |h.pages| == |old(h.pages)|
    ensures stop == Going ==> h.Valid() && CheckedOut(old(h.St()), k, swaps, h.St())
    ensures stop == Going ==> swaps == SwapsTo(old(h.V()), k) && k in old(h.tops) && h.committed == old(h.tops)[k]
    ensures stop == Going ==> h.ro == RoAfter(old(h.V()), old(h.ro), Checkout(k, swaps))
    ensures stop == Going ==> h.prot.Leaks() <= old(h.prot.Leaks())
  {
    hide Heap.Valid, Heap.Ready, Sane, CheckedOut, Passing, Rep, FirstHit, Items, IsTop, PickedPages, Picked, UpTo, Opened, Away,
      View, RoAfter, SwapsTo, Crowded, Protection.Leaks;
    h.ValidHolds();
    ghost var st, ro := h.St(), h.ro;
    stop, swaps := Going, [];
    GenFound(st, k);
    var found := h.Search(h.root, GenOf(h.gens, k), h.tree);
    if found.None? { return NoGeneration, swaps; }
    if h.gens[h.committed].gen == k {
      CheckoutNot(st, k);
      CheckoutOpens(st, k, ro);
      return;
    }
    CheckoutOpens(st, k, ro);
    PickedIn(st, k);
    var sel, count := PickPages(h, k);
    stop := BringHome(h, sel);
    if stop != Going { return; }
    swaps := Away(st.pages, PickedPages(st, k));
    CheckoutDone(st, k, found.value, h.St());
    LandAt(h, found.value);
  }

  /** The headers point to the generation that was asked for. */
  method LandAt(h: Heap, g: int)
    requires h.Valid() && !Mut(h.St()) && Sane(h.St().(working := g, committed := g), {})
    modifies h`working, h`committed
    ensures h.Valid() && h.St() == old(h.St()).(working := g, committed := g)
  {
    hide ReadyFor, Lenient, Sane, Barrier, Protection.Valid, Protection.Maps;
    ghost var st := h.St().(working := g, committed := g);
    h.committed := g;
    h.working := g;
    assert h.St() == st;
  }

  ghost predicate CheckedOut(st: State, k: int, swaps: seq<int>, st': State) {
    Done(st, Checkout(k, swaps), st') && Id(st', st'.committed) == k && !Mut(st')
  }

  lemma GenFound(st: State, k: int)
    requires Sane(st, {})
    ensures Rep(st.gens, st.pages.Keys, st.tree) && st.committed in st.gens
    ensures FirstHit(Items(st.tree, 0), GenOf(st.gens, k)) == if k in st.tops then Some(st.tops[k]) else None
    ensures k in st.tops ==> IsTop(st, st.tops[k]) && st.tops[k] in st.gens && st.gens[st.tops[k]].gen == k
    ensures k in st.tops <==> 0 <= k <= st.last
    ensures k == Id(st, st.committed) ==> k in st.tops && st.tops[k] == st.committed
  {
    GenHit(st, {}, k);
  }
}
