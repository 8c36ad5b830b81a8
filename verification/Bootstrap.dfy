/** The heap between the bootstrap of the evaluator and its first session: what the
    first commit leaves, whatever pages the bootstrap has filled. */
module Bootstrap {
  import opened Layout
  import opened Maps
  import opened Carving
  import opened Protections
  import opened Pages
  import opened VersionStore
  import opened LinearHistory
  import opened Trees
  import opened Forest
  import opened Pointers
  import opened Placement
  import opened Guards
  import opened HeapStates
  import opened Callbacks
  import opened Shields
  import opened Sessions
  import opened Heaps
  import opened Allocator
  import opened Transactions

  /** Nothing leaks, and the heap is settled. */
  ghost predicate AtRest(h: Heap)
    reads h, h.prot, h.prot.active, h.prot.active.m
  {
    h.Valid() && !Mut(h.St()) && h.prot.Leaks() == {} && Tail(h.St()) && Settled(h.V(), h.ro)
  }

  // ------------------------------------------------------------ a page of the bootstrap

  /** The page p, at home at `at`, has the segments of q, whose pointers are relative. */
  ghost predicate Holding(p: Page, at: int, q: Page) {
    && p.segs == q.segs && p.pages == q.pages && p.realAddr == at && p.committed
    && |p.c| == |q.c| && forall i :: 0 <= i < |q.c| ==> p.c[i] == q.c[i] + at
  }

  /** The contents q, with pointers relative to the page, at a location. */
  function Loaded(q: Page, at: int): Page { Moved(q, at).(committed := true, realAddr := at) }

  lemma LoadedTiled(q: Page, at: int)
    requires Tiled(q, 0)
    ensures Tiled(Loaded(q, at), at) && Loaded(q, at).realAddr == at && Loaded(q, at).committed && Loaded(q, at).pages == q.pages >= 1
    ensures Holding(Loaded(q, at), at, q)
  {
    MovedTiled(q, 0, at);
    var p := Moved(q, at);
    forall i | 0 <= i < |p.c| ensures TiledAt(Loaded(q, at), at, i) { assert TiledAt(p, at, i); }
  }

  /** The entries of the order as before, and one of the newest generation behind them. */
  ghost predicate Appended(s: Store, at: int, s': Store)
    requires Located(s.order, s.mem)
  {
    && s'.order == s.order + [Entry(s.last, at)] && Located(s'.order, s'.mem)
    && Real(s', |s.order|) == at
    && forall i :: 0 <= i < |s.order| ==> Real(s', i) == Real(s, i)
  }

  lemma AppendTip(s: Store, at: int, s': Store)
    requires TipHome(s) && s.working == s.last && Appended(s, at, s') && s'.working == s.working
    ensures TipHome(s')
  {
    forall i | Selected(s', s'.working, i) ensures s'.order[i].loc == Real(s', i) {
      if i < |s.order| {
        forall j | i < j < |s.order| && s.order[j].gen <= s.working ensures Real(s, j) != Real(s, i) {
          assert s'.order[j] == s.order[j] && Real(s', j) != Real(s', i);
        }
        assert s'.order[i] == s.order[i] && Selected(s, s.working, i);
      }
    }
  }

  lemma AppendRest(s: Store, ro: set<int>, at: int, p: Page, s': Store)
    requires Located(s.order, s.mem) && ShutRest(s, ro) && Appended(s, at, s') && s'.last == s.last
    requires at !in s.mem && s'.mem == s.mem[at := p] && p.realAddr == at
    ensures ShutRest(s', ro)
  {
    forall x | x in s.mem ensures Owns(s', x) <==> Owns(s, x) {
      if i :| 0 <= i < |s.order| && s.order[i].gen == s.last && Real(s, i) == x { assert s'.order[i] == s.order[i] && Real(s', i) == x; }
      if i :| 0 <= i < |s'.order| && s'.order[i].gen == s.last && Real(s', i) == x { assert s'.order[i] == s.order[i] && Real(s, i) == x; }
    }
    assert s'.order[|s.order|].gen == s.last;
  }

  /** The newest generation, committed already, has one more page: the heap stays settled. */
  lemma AdoptSettled(s: Store, ro: set<int>, at: int, p: Page)
    requires Settled(s, ro) && s.committed == s.last && at !in s.mem
    requires p.realAddr == at && p.committed && Tiled(p, at)
    ensures Settled(Adopt(s, |s.order|, at, p), ro)
  {
    hide Tiled, TipHome, ShutRest;
    var s' := Adopt(s, |s.order|, at, p);
    forall i | 0 <= i < |s.order| ensures s.order[i].loc != at && Real(s, i) != at { assert HomedAt(s.mem, s.order[i].loc); }
    AdoptKeeps(s, |s.order|, at, p);
    assert Appended(s, at, s');
    AppendTip(s, at, s');
    AppendRest(s, ro, at, p, s');
  }

  ghost function AfterLoad(st: State, at: int, p: Page): State
    requires st.working in Gens(st.tree) && st.working in st.gens && |st.gens[st.working].c| == GENERATION_CHILDREN
    requires |Sub(st.tree, st.working).kids| < GENERATION_CHILDREN
  {
    var (w, c) := (st.working, st.gens[st.working].c);
    st.(gens := st.gens[w := st.gens[w].(c := c[|Sub(st.tree, w).kids| := at])],
        pages := st.pages[at := p],
        tree := AddKid(st.tree, w, Leaf(at)))
  }

  /** The page is new_page's at first. */
  lemma LoadIs(st: State, at: int, n: int, p: Page)
    requires st.working in Gens(st.tree) && st.working in st.gens && |st.gens[st.working].c| == GENERATION_CHILDREN
    requires |Sub(st.tree, st.working).kids| < GENERATION_CHILDREN
    ensures var (w, c) := (st.working, st.gens[st.working].c);
            AfterLoad(st, at, p) == st.(gens := st.gens[w := st.gens[w].(c := c[|Sub(st.tree, w).kids| := at])],
                                        pages := st.pages[at := FreshPage(at, n)][at := p], tree := AddKid(st.tree, w, Leaf(at)))
  {
    hide AddKid, Gens, Sub;
  }

  lemma LoadSane(st: State, ro: set<int>, at: int, p: Page)
    requires Sane(st, {}) && !Mut(st) && Newest(st) && Settled(View(st), ro)
    requires at !in st.gens && at !in st.pages && at != NULL && p.realAddr == at && p.committed && Tiled(p, at)
    requires st.working in Gens(st.tree) && |Sub(st.tree, st.working).kids| < GENERATION_CHILDREN
    requires Tipped(st.tree, st.working, st.last) && After(st.tree, 0, st.working) == []
    ensures st.working in st.gens && |st.gens[st.working].c| == GENERATION_CHILDREN
    ensures var st' := AfterLoad(st, at, p);
            && Sane(st', {}) && Tail(st') && Newest(st') && View(st') == Adopt(View(st), |View(st).order|, at, p)
            && Settled(View(st'), ro) && !Mut(st') && st'.tree.at == st.tree.at
  {
    hide Tipped, Items, PagesOf, EndOf, Before, After, AddKid, Inv, Kept, Rep, Sub, Gens, Nodes, Settled;
    var w := st.working;
    PagesAreNodes(st, {});
    SaneTop(st, {});
    GenAt(st, {}, w);
    var st' := AfterLoad(st, at, p);
    var pages' := st.pages.Keys + {at};
    assert st'.pages.Keys == pages';
    AddLeafShaped(st.gens, st.pages.Keys, pages', st.tree, st.tops, st.last, w, at);
    EndIsLast(st.tree, w);
    assert Shaped(st', {}) && Headed(st');
    HeadIds(st);
    AdoptSettled(View(st), ro, at, p);
    assert View(st') == Adopt(View(st), |View(st).order|, at, p);
    SettledSound(View(st'), ro);
    AddKidAt(st.tree, w, Leaf(at));
  }

  lemma SettledSound(s: Store, ro: set<int>)
    requires Settled(s, ro)
    ensures Inv(s)
  {
  }

  /** The fresh page is filled, and its address is written into the free slot. */
  method PutPage(h: Heap, at: int, index: int, p: Page)
    requires h.Ready() && at in h.pages && p.pages == h.pages[at].pages && p.realAddr == h.pages[at].realAddr
    requires h.working in h.gens && h.working in Gens(h.tree) && |h.gens[h.working].c| == GENERATION_CHILDREN
    requires index == |Sub(h.tree, h.working).kids| < GENERATION_CHILDREN
    modifies h`gens, h`pages, h`tree
    ensures h.Ready() && h.pages == old(h.pages)[at := p] && h.tree == AddKid(old(h.tree), h.working, Leaf(at))
    ensures h.gens == old(h.gens)[h.working := old(h.gens[h.working].(c := h.gens[h.working].c[index := at]))]
    ensures h.prot.Leaks() == old(h.prot.Leaks()) && h.Sp() == old(h.Sp())
  {
    hide ReadyFor, Lenient, Leaking, Gens, Sub, AddKid, WellFormed;
    ReadySame(h.prot.Maps(), h.Sp(), h.pages, h.ro, h.pages[at := p]);
    ghost var sp := h.Sp();
    assert Extents(h.pages[at := p]) == Extents(h.pages);
    h.pages := h.pages[at := p];
    assert h.Sp() == sp;
    PlantPage(h, at, index);
  }

  lemma RestFacts(h: Heap)
    requires AtRest(h)
    ensures h.Valid() && h.prot.Valid() && h.prot.Leaks() == {} && Sane(h.St(), {}) && !Mut(h.St()) && Tail(h.St()) && Settled(h.V(), h.ro)
    ensures h.root == h.tree.at && h.V().mem == h.pages
  {
  }

  lemma RestIs(h: Heap)
    requires h.Ready() && h.prot.Leaks() == {} && Sane(h.St(), {}) && !Mut(h.St()) && Tail(h.St()) && Settled(h.V(), h.ro)
    requires h.root == h.tree.at
    ensures AtRest(h)
  {
  }

  /** The slot for the page is the first free one of the newest generation. */
  lemma SlotNewest(st: State, g: int, k: int, st1: State)
    requires Sane(st, {}) && !Mut(st) && Tail(st) && Newest(st) && Slotted(st, g, k, st1)
    ensures st1 == st.(gens := st1.gens, tree := st1.tree) && Sane(st1, {}) && !Mut(st1) && View(st1) == View(st) && st1.tree.at == st.tree.at
    ensures g == st1.working && g in st1.gens && g in Gens(st1.tree) && k == |Sub(st1.tree, g).kids| < GENERATION_CHILDREN
    ensures |st1.gens[g].c| == GENERATION_CHILDREN && Newest(st1)
    ensures Tipped(st1.tree, g, st1.last) && After(st1.tree, 0, g) == []
  {
    hide Inv, Tipped, After, Sub, Gens, Tail;
    SaneTop(st1, {});
    GenAt(st1, {}, g);
    SameNewest(st, st1);
  }

  lemma SameNewest(st: State, st1: State)
    requires View(st1) == View(st) && Newest(st) && st1.committed == st.committed && st1.last == st.last
    ensures Newest(st1)
  {
  }

  /** What one page of the bootstrap adds: the page is new_page's, in a free slot of
      generation 0, and holds whatever the evaluator has put there when the bootstrap is
      committed. */
  method LoadPage(h: Heap, q: Page) returns (stop: Stop, at: int)
    requires AtRest(h) && Newest(h.St()) && Tiled(q, 0)
    modifies h`size, h`lastPage, h`lastGen, h`gens, h`pages, h`tree, h.prot`os, h.prot.active.m
    ensures stop in {Going, ShortGrowth} && (stop == ShortGrowth ==> Large(q.pages, old(h.size))) && h.size >= old(h.size)
    ensures stop == Going ==> AtRest(h) && Newest(h.St()) && at !in old(h.pages) && at in h.pages && Holding(h.pages[at], at, q)
    ensures stop == Going ==> h.V() == Adopt(old(h.V()), |old(h.V()).order|, at, h.pages[at])
    ensures stop == Going ==> old(h.lastPage in h.pages) && h.Sp() == AfterPage(HeadSpace(old(h.St()), old(h.Sp())), q.pages)
  {
    hide AtRest, Heap.Valid, Heap.Ready, Sane, View, Settled, Slotted, Newest, Tail, Tipped, After, Sub, Gens, Tiled, Mut,
      AddKid, Adopt, Loaded, AfterLoad,
      AfterPage, HeadSpace, Extents, Holding, PageStop, Large, Protection.Leaks;
    RestFacts(h);
    ghost var st := h.St();
    at := 0;
    var g, k := SlotBelowCommitted(h);
    ghost var st1 := h.St();
    SlotNewest(st, g, k, st1);
    LoadedTiled(q, 0);
    LoadStops(h, q.pages, old(h.size));
    stop, at := h.NewPage(q.pages);
    if stop != Going { return; }
    LoadedTiled(q, at);
    LoadSane(st1, h.ro, at, Loaded(q, at));
    LoadIs(st1, at, q.pages, Loaded(q, at));
    PutPage(h, at, k, Loaded(q, at));
    RestIs(h);
  }

  /** A page that the heap cannot grow for takes more than half of it. */
  lemma LoadStops(h: Heap, n: int, size: int)
    requires h.Ready() && n >= 1 && h.size >= size
    ensures h.Sp().lastPage in h.Sp().extent && PageStop(h.Sp(), n) in {Going, ShortGrowth}
    ensures PageStop(h.Sp(), n) == ShortGrowth ==> Large(n, size)
  {
    PageStuck(h.prot.Maps(), h.Sp(), h.pages, h.ro, n);
  }

  // ------------------------------------------------------------ the whole bootstrap

  /** The pages of the heap, all at home and in generation 0, hold the contents qs. */
  ghost predicate Holds(s: Store, qs: seq<Page>) {
    && |s.order| == |qs| && Located(s.order, s.mem) && s.last == s.working == 0
    && forall i :: 0 <= i < |qs| ==> s.order[i].gen == 0 && Holding(s.mem[s.order[i].loc], s.order[i].loc, qs[i])
  }

  lemma HoldsFirst(q: Page)
    requires Tiled(q, 0)
    ensures Holds(View(FirstState(Loaded(q, FIRST_PAGE))), [q])
  {
    FirstItems();
    LoadedTiled(q, FIRST_PAGE);
  }

  lemma HoldsNext(s: Store, qs: seq<Page>, at: int, p: Page, q: Page)
    requires Holds(s, qs) && at !in s.mem && Holding(p, at, q)
    ensures Holds(Adopt(s, |s.order|, at, p), qs + [q])
  {
    hide Holding;
    var s' := Adopt(s, |s.order|, at, p);
    assert s'.order == s.order + [Entry(0, at)];
  }

  lemma FirstRests(h: Heap, first: Page)
    requires Tiled(first, FIRST_PAGE) && first.realAddr == FIRST_PAGE && first.committed
    requires h.Valid() && h.prot.Leaks() == {} && !Mut(h.St()) && Tail(h.St()) && h.ro == {}
    requires h.V() == View(FirstState(first)) && h.lastGenIndex == 0
    ensures AtRest(h) && Newest(h.St())
  {
    FirstTip(first);
    hide Settled;
    HeadNewest(h.St(), first);
  }

  lemma HeadNewest(st: State, first: Page)
    requires Tiled(first, FIRST_PAGE) && first.realAddr == FIRST_PAGE && first.committed && View(st) == View(FirstState(first))
    ensures Newest(st)
  {
  }

  /** new_db, a bootstrap that allocates and fills any number of pages, and the first
      commit: a session can begin. */
  method Boot(first: Page, more: seq<Page>) returns (stop: Stop, h: Heap)
    requires Tiled(first, 0) && first.pages == 1 && forall i :: 0 <= i < |more| ==> Tiled(more[i], 0)
    ensures fresh(h) && fresh(h.prot) && fresh(h.prot.active) && fresh(h.prot.active.m)
    ensures stop in {Going, ShortGrowth}
    ensures stop == ShortGrowth ==> exists i :: 0 <= i < |more| && Large(more[i].pages, INITIAL_PAGES * 4096)
    ensures stop == Going ==> AtRest(h) && Newest(h.St()) && Holds(h.V(), [first] + more)
  {
    hide AtRest, Heap.Valid, View, Tail, Mut, Newest, Holds, Holding, Loaded, Tiled, Large, AfterPage, HeadSpace,
      Extents, Protection.Leaks;
    LoadedTiled(first, FIRST_PAGE);
    h := new Heap(Loaded(first, FIRST_PAGE));
    FirstRests(h, Loaded(first, FIRST_PAGE));
    HoldsFirst(first);
    stop := Going;
    assert [first] + more[..0] == [first];
    for i := 0 to |more|
      invariant stop == Going && fresh(h) && fresh(h.prot) && fresh(h.prot.active) && fresh(h.prot.active.m)
      invariant AtRest(h) && Newest(h.St()) && Holds(h.V(), [first] + more[..i]) && h.size >= INITIAL_PAGES * 4096
    {
      RestFacts(h);
      ghost var s := h.V();
      var at;
      FreeStops(more[i].pages, INITIAL_PAGES * 4096, h.size, 0);
      stop, at := LoadPage(h, more[i]);
      if stop != Going { return; }
      HoldsNext(s, [first] + more[..i], at, h.pages[at], more[i]);
      assert [first] + more[..i] + [more[i]] == [first] + more[..i + 1];
    }
    assert more[..|more|] == more;
  }
}
