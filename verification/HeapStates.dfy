/** The heap as a value: nodes in memory, the tree they form, and the header's
    pointers; and what every operation of the allocator keeps of it. */
module HeapStates {
  import opened Layout
  import opened Pages
  import opened VersionStore
  import opened Trees
  import opened Forest
  import opened Pointers

  /** `tree` is the shape of the pointer structure, `tops` maps the id of every
      generation to the node that was working for it. */
  datatype State = State(gens: map<int, Generation>, pages: map<int, Page>, tree: Node, tops: map<int, int>,
                         working: int, committed: int, last: int)

  predicate Mut(st: State) { st.working != st.committed }

  function Id(st: State, g: int): int {
    if g in st.gens then st.gens[g].gen else 0
  }

  /** The version store that the heap holds. */
  ghost function View(st: State): Store {
    Store(PagesOf(Items(st.tree, 0)), st.pages, Id(st, st.working), Id(st, st.committed), st.last)
  }

  /** The nodes in memory are those of the tree, apart from the loose pages, which
      are allocated but not in the tree yet. */
  ghost predicate Shaped(st: State, loose: set<int>) {
    && Rep(st.gens, st.pages.Keys, st.tree)
    && st.gens.Keys !! st.pages.Keys && loose <= st.pages.Keys
    && Nodes(st.tree) == st.gens.Keys + (st.pages.Keys - loose)
    && Kept(st.tree, st.tops, st.last)
  }

  ghost predicate IsTop(st: State, g: int) {
    g in st.gens && st.gens[g].gen in st.tops && st.tops[st.gens[g].gen] == g
  }

  /** The header points to the outermost nodes of the working and the committed
      generation; during a mutation the newest generation is working, and exactly
      its nodes are uncommitted. */
  ghost predicate Headed(st: State) {
    && IsTop(st, st.working) && IsTop(st, st.committed)
    && (Mut(st) ==> st.gens[st.working].gen == st.last && Tipped(st.tree, st.working, st.last))
    && (forall g :: g in st.gens ==> (st.gens[g].committed <==> !(Mut(st) && st.gens[g].gen == st.last)))
  }

  ghost predicate Sane(st: State, loose: set<int>) {
    Shaped(st, loose) && Headed(st) && Inv(View(st))
  }

  lemma SaneTop(st: State, loose: set<int>)
    requires Sane(st, loose)
    ensures Shaped(st, loose) && Headed(st) && Inv(View(st)) && st.working in st.gens && st.committed in st.gens
  {
  }

  lemma HeadIds(st: State)
    requires Headed(st)
    ensures Mut(st) <==> Mutating(View(st))
  {
  }

  /** A generation in memory and its subtree. */
  lemma GenAt(st: State, loose: set<int>, g: int)
    requires Shaped(st, loose) && g in st.gens
    ensures Gens(st.tree) == st.gens.Keys && Uniq(st.tree)
    ensures Sub(st.tree, g).id == st.gens[g].gen && SlotsOf(st.gens[g].c, Sub(st.tree, g).kids)
    ensures |st.gens[g].c| == GENERATION_CHILDREN && g != NULL && Rep(st.gens, st.pages.Keys, Sub(st.tree, g))
  {
    RepSets(st.gens, st.pages.Keys, st.tree);
    forall n | n in st.gens.Keys ensures n in Gens(st.tree) { assert n in Nodes(st.tree); }
    assert Gens(st.tree) == st.gens.Keys;
    RepSub(st.gens, st.pages.Keys, st.tree, g);
    RepNotNull(st.gens, st.pages.Keys, Sub(st.tree, g));
  }

  /** Every page is a node of the tree, and none is a generation or null. */
  lemma PagesAreNodes(st: State, loose: set<int>)
    requires Shaped(st, loose)
    ensures Uniq(st.tree) && Gens(st.tree) == st.gens.Keys
    ensures forall a :: a in st.pages ==> a !in Gens(st.tree) && (a !in loose ==> a in Nodes(st.tree) && a != NULL)
  {
    RepSets(st.gens, st.pages.Keys, st.tree);
    forall n | n in st.gens.Keys ensures n in Gens(st.tree) { assert n in Nodes(st.tree); }
    assert Gens(st.tree) == st.gens.Keys;
    hide Rep, Kept, Nodes, Gens;
    forall a | a in st.pages && a !in loose ensures a in Nodes(st.tree) {
      assert a in st.pages.Keys - loose;
    }
  }

  lemma SameOutside(gens: map<int, Generation>, pages: set<int>, gens': map<int, Generation>, pages': set<int>, ns: set<int>, g: int)
    requires forall n :: n in ns && n != g ==>
               (n in gens' <==> n in gens) && (n in pages' <==> n in pages) && (n in gens ==> gens'[n] == gens[n])
    ensures SameAt(gens, pages, gens', pages', ns - {g})
  {
  }

  // ---------------------------------------------------------- new_gen_between

  function Betweened(st: State, g: int, child: int): map<int, Generation>
    requires g in st.gens
  {
    st.gens[child := Generation(st.gens[g].committed, st.gens[g].gen, st.gens[g].c)]
           [g := st.gens[g].(c := EmptySlots()[0 := child])]
  }

  function SlotsMoved(gens: map<int, Generation>, g: int, child: int): map<int, Generation>
    requires g in gens && child in gens
  {
    gens[child := gens[child].(c := gens[g].c)][g := gens[g].(c := EmptySlots()[0 := child])]
  }

  /** The new child is made with empty slots before it gets those of g. */
  lemma BetweenedIs(st: State, g: int, child: int, gens1: map<int, Generation>)
    requires g in st.gens && child !in st.gens
    requires gens1 == st.gens[child := Generation(st.gens[g].committed, st.gens[g].gen, EmptySlots())]
    ensures SlotsMoved(gens1, g, child) == Betweened(st, g, child)
  {
  }

  lemma BetweenShaped(st: State, loose: set<int>, g: int, child: int)
    requires Shaped(st, loose) && IsTop(st, g) && child !in st.gens && child !in st.pages && child != NULL
    requires g in Gens(st.tree) && |Sub(st.tree, g).kids| == GENERATION_CHILDREN
    ensures var st' := st.(gens := Betweened(st, g, child), tree := Between(st.tree, g, child));
            Shaped(st', loose) && View(st').order == View(st).order && g in Gens(st'.tree)
            && Sub(st'.tree, g).kids == [Gen(child, st.gens[g].gen, Sub(st.tree, g).kids)]
  {
    hide Kept, Uniq, Gens, Sub, Items, PagesOf, Rep, SameAt, SlotsOf, SetKids;
    var st' := st.(gens := Betweened(st, g, child), tree := Between(st.tree, g, child));
    GenAt(st, loose, g);
    SameOutside(st.gens, st.pages.Keys, st'.gens, st'.pages.Keys, Nodes(st.tree), g);
    BetweenKept(st.tree, st.tops, st.last, g, child);
    BetweenOrder(st.tree, g, child);
    RepBetween(st.gens, st.pages.Keys, st'.gens, st'.pages.Keys, st.tree, g, child);
    assert st'.gens.Keys == st.gens.Keys + {child};
  }

  /** The children of g have moved to a new child: there is room again, and the
      versions and their order are as before. */
  ghost predicate MadeRoom(st: State, loose: set<int>, g: int, child: int, st': State) {
    && g in st.gens && child !in st.gens && g in Gens(st.tree)
    && st' == st.(gens := Betweened(st, g, child), tree := Between(st.tree, g, child))
    && Sane(st', loose) && View(st') == View(st) && st'.tree.at == st.tree.at
    && g in Gens(st'.tree) && |Sub(st'.tree, g).kids| == 1
    && EndOf(st'.tree, g) == EndOf(st.tree, g) && After(st'.tree, 0, g) == After(st.tree, 0, g)
    && (Tipped(st.tree, g, st.last) ==> Tipped(st'.tree, g, st.last))
  }

  lemma BetweenSane(st: State, loose: set<int>, g: int, child: int)
    requires Sane(st, loose) && g == (if Mut(st) then st.working else st.committed)
    requires child !in st.gens && child !in st.pages && child != NULL
    requires g in Gens(st.tree) && |Sub(st.tree, g).kids| == GENERATION_CHILDREN
    ensures g in st.gens
    ensures MadeRoom(st, loose, g, child, st.(gens := Betweened(st, g, child), tree := Between(st.tree, g, child)))
  {
    var st' := st.(gens := Betweened(st, g, child), tree := Between(st.tree, g, child));
    BetweenShaped(st, loose, g, child);
    GenAt(st, loose, g);
    BetweenOrder(st.tree, g, child);
    if Tipped(st.tree, g, st.last) { TipBetween(st.tree, st.tops, st.last, g, child); }
    hide Kept, Uniq, Gens, Sub, Items, PagesOf, Rep, SlotsOf, SetKids, Inv, Tipped, Shaped;
    assert Headed(st');
    assert View(st') == View(st);
  }

  // ---------------------------------------------------------- members

  /** Every page of the heap is an entry of the version order. */
  lemma PageHasEntry(st: State, loose: set<int>, a: int)
    requires Shaped(st, loose) && a in st.pages && a !in loose
    ensures exists k :: PageItem(a, k) in Items(st.tree, 0) && Entry(k, a) in View(st).order
  {
    RepSets(st.gens, st.pages.Keys, st.tree);
    assert a in Nodes(st.tree) && a !in Gens(st.tree);
    NodesInItems(st.tree, 0, a);
    var k :| PageItem(a, k) in Items(st.tree, 0);
    PagesMembers(Items(st.tree, 0), Entry(k, a));
  }

  /** A page is uncommitted exactly if it lies below the working generation. */
  lemma WorkingPage(st: State, loose: set<int>, a: int)
    requires Sane(st, loose) && Mut(st) && a in st.pages && a !in loose
    ensures !st.pages[a].committed <==> PageItem(a, st.last) in Items(Sub(st.tree, st.working), 0)
  {
    PageHasEntry(st, loose, a);
    TipMembers(st.tree, st.working, st.last, a);
    PagesMembers(Items(st.tree, 0), Entry(st.last, a));
    var v := View(st);
    var k :| PageItem(a, k) in Items(st.tree, 0) && Entry(k, a) in v.order;
    var i :| 0 <= i < |v.order| && v.order[i] == Entry(k, a);
    assert st.pages[a].committed <==> k != st.last;
    if Entry(st.last, a) in v.order {
      var j :| 0 <= j < |v.order| && v.order[j] == Entry(st.last, a);
      assert v.order[i].loc == v.order[j].loc && Distinct(v.order);
    }
  }

  lemma {:induction false} KidItemIn(ks: seq<Node>, i: nat, id: int)
    requires i < |ks| && ks[i].Leaf?
    ensures PageItem(ks[i].at, id) in ItemsAll(ks, id)
    decreases ks
  {
    if i > 0 {
      KidItemIn(ks[1..], i - 1, id);
    } else {
      assert PageItem(ks[0].at, id) in Items(ks[0], id);
    }
  }

  /** The working node has no slot with a committed page. */
  lemma WorkingSlot(st: State, loose: set<int>, i: nat, a: int)
    requires Sane(st, loose) && Mut(st) && a in st.pages && a !in loose && Slot(st.gens, st.working, i, a) && a != NULL
    ensures !st.pages[a].committed
  {
    var w := st.working;
    GenAt(st, loose, w);
    var kids := Sub(st.tree, w).kids;
    assert kids[i].at == a;
    RepNotNull(st.gens, st.pages.Keys, Sub(st.tree, w));
    RepKid(st.gens, st.pages.Keys, kids, i);
    assert kids[i].Leaf?;
    KidItemIn(kids, i, st.last);
    assert Items(Sub(st.tree, w), 0) == [GenItem(w, st.last)] + ItemsAll(kids, st.last);
    WorkingPage(st, loose, a);
  }

  // ---------------------------------------------------------- handle_segv

  /** A page copied to a fresh location, not in the tree yet. */
  lemma CopySane(st: State, a: int, copy: int)
    requires Sane(st, {}) && a in st.pages && st.pages[a].realAddr == a
    requires copy !in st.gens && copy !in st.pages && a < copy
    ensures var st' := st.(pages := st.pages[copy := Moved(st.pages[a], copy - a)]);
            && Sane(st', {copy}) && View(st') == View(st).(mem := st'.pages)
  {
    hide Kept, Rep, Items, PagesOf, Tipped;
    var st' := st.(pages := st.pages[copy := Moved(st.pages[a], copy - a)]);
    MovedTiled(st.pages[a], a, copy);
    RepSets(st.gens, st.pages.Keys, st.tree);
    assert SameAt(st.gens, st.pages.Keys, st'.gens, st'.pages.Keys, Nodes(st.tree));
    RepFrame(st.gens, st.pages.Keys, st'.gens, st'.pages.Keys, st.tree);
    assert Shaped(st', {copy});
    CopyInv(View(st), a, copy);
  }

  /** A page was copied to a location behind all others. */
  ghost predicate Copied(st: State, a: int, copy: int, st': State) {
    && a in st.pages && copy !in st.pages && copy !in st.gens && copy != NULL && a < copy
    && st' == st.(pages := st.pages[copy := Moved(st.pages[a], copy - a)])
    && Sane(st', {copy}) && View(st') == View(st).(mem := st'.pages) && (Tail(st) ==> Tail(st'))
  }

  lemma CopiedSane(st: State, a: int, copy: int)
    requires Sane(st, {}) && a in st.pages && st.pages[a].realAddr == a
    requires copy !in st.gens && copy !in st.pages && a < copy && copy != NULL
    ensures forall pages' :: pages' == st.pages[copy := Moved(st.pages[a], copy - a)] ==> Copied(st, a, copy, st.(pages := pages'))
  {
    hide Sane, View, Tipped;
    CopySane(st, a, copy);
  }

  lemma SanePages(st: State, a: int)
    requires Sane(st, {}) && a in st.pages
    ensures st.pages[a].pages >= 1 && Tiled(st.pages[a], a)
  {
  }

  lemma CopyInv(s: Store, a: int, copy: int)
    requires Inv(s) && a in s.mem && s.mem[a].realAddr == a && copy !in s.mem && a < copy
    requires Tiled(Moved(s.mem[a], copy - a), copy)
    ensures Inv(s.(mem := s.mem[copy := Moved(s.mem[a], copy - a)]))
  {
    var s' := s.(mem := s.mem[copy := Moved(s.mem[a], copy - a)]);
    assert Matches(s, s');
    MatchKeeps(s, s');
  }

  /** The slot of the hit page gets the copy, and a free slot of the working
      generation gets the hit page. */
  function Trapped(st: State, p: int, i: int, copy: int, k: int, a: int): map<int, Generation>
    requires p in st.gens && 0 <= i < |st.gens[p].c| && st.working in st.gens && 0 <= k < |st.gens[st.working].c|
  {
    TwoSlots(st.gens, p, i, copy, st.working, k, a)
  }

  lemma TrapSlots(st: State, p: int, i: int, copy: int, k: int, a: int)
    requires p in st.gens && 0 <= i < |st.gens[p].c| && st.working in st.gens && 0 <= k < |st.gens[st.working].c|
    ensures var gens := st.gens[p := st.gens[p].(c := st.gens[p].c[i := copy])];
            && Trapped(st, p, i, copy, k, a) == gens[st.working := gens[st.working].(c := gens[st.working].c[k := a])]
            && Trapped(st, p, i, copy, k, a).Keys == st.gens.Keys
  {
  }

  /** The slot of page a rewritten to its copy. */
  lemma TrapRelabels(st: State, p: int, i: int, a: int, copy: int)
    requires Sane(st, {copy}) && Mut(st) && a in st.pages && a != copy && a != NULL && copy != NULL
    requires p in st.gens && Slot(st.gens, p, i, a)
    ensures var t1 := Relabel(st.tree, a, copy);
            var gens1 := st.gens[p := st.gens[p].(c := st.gens[p].c[i := copy])];
            && Rep(gens1, st.pages.Keys, t1) && Kept(t1, st.tops, st.last) && Tipped(t1, st.working, st.last)
            && Gens(t1) == st.gens.Keys && a !in Nodes(t1) && Nodes(t1) + {a} == st.gens.Keys + st.pages.Keys
            && |Sub(t1, st.working).kids| == |Sub(st.tree, st.working).kids| && Sub(t1, st.working).id == st.last
            && PagesOf(Items(t1, 0)) == Exchange(View(st).order, a, copy)
            && EndOf(t1, st.working) == EndOf(st.tree, st.working)
            && (After(st.tree, 0, st.working) == [] ==> After(t1, 0, st.working) == [])
  {
    hide Kept, Rep, Items, PagesOf, Tipped, Uniq, Inv, Sub, Relabel, Nodes, Gens, Before, After, EndOf;
    var w := st.working;
    SaneTop(st, {copy});
    GenAt(st, {copy}, w);
    PagesAreNodes(st, {copy});
    var gens1 := st.gens[p := st.gens[p].(c := st.gens[p].c[i := copy])];
    RepMoveLeaf(st.gens, st.pages.Keys, gens1, st.tree, p, i, a, copy);
    RelabelKept(st.tree, st.tops, st.last, a, copy);
    RelabelTipped(st.tree, w, st.last, a, copy);
    RelabelNodes(st.tree, a, copy);
    RelabelSplit(st.tree, 0, a, copy, w);
    RelabelOrder(st.tree, 0, a, copy);
    RelabelPages(Items(st.tree, 0), a, copy);
    var t1 := Relabel(st.tree, a, copy);
    assert a in Nodes(st.tree) && copy !in Nodes(st.tree) && copy !in st.gens;
    forall n ensures n in Nodes(t1) <==> n in st.gens.Keys + (st.pages.Keys - {a}) {
      assert n in Nodes(t1) <==> Other(n, a, copy) in Nodes(st.tree);
    }
  }

  /** A page written into the first free slot of the working node. */
  lemma AddLeafShaped(gens: map<int, Generation>, pages: set<int>, pages': set<int>, t: Node, tops: map<int, int>,
                      last: int, w: int, x: int)
    requires Rep(gens, pages, t) && Kept(t, tops, last) && Tipped(t, w, last) && w in gens && x !in gens && x in pages' && x != NULL
    requires |gens[w].c| == GENERATION_CHILDREN && gens[w].gen == last && last in tops && tops[last] == w
    requires |Sub(t, w).kids| < GENERATION_CHILDREN && x !in Nodes(t)
    requires Nodes(t) + {x} == gens.Keys + pages' && gens.Keys !! pages' && Gens(t) == gens.Keys && pages' <= pages + {x}
    ensures var gens' := gens[w := gens[w].(c := gens[w].c[|Sub(t, w).kids| := x])];
            var t' := AddKid(t, w, Leaf(x));
            && Rep(gens', pages', t') && Kept(t', tops, last) && Tipped(t', w, last)
            && Nodes(t') == gens'.Keys + pages' && Gens(t') == Gens(t)
            && EndOf(t, w) <= |PagesOf(Items(t, 0))|
            && PagesOf(Items(t', 0)) == Insert(PagesOf(Items(t, 0)), EndOf(t, w), Entry(last, x))
            && After(t', 0, w) == After(t, 0, w) && EndOf(t', w) == EndOf(t, w) + 1
  {
    var gens' := gens[w := gens[w].(c := gens[w].c[|Sub(t, w).kids| := x])];
    AddLeafKept(t, tops, last, w, x);
    AddLeafOrder(t, w, x);
    TipAddLeaf(t, tops, last, w, x);
    RepSets(gens, pages, t);
    LeavesStay(gens, pages, pages', t, x);
    assert Uniq(t) && Rep(gens', pages', Leaf(x));
    assert gens'[w].gen == Sub(t, w).id;
    SameOutside(gens, pages, gens', pages', Nodes(t), w);
    hide *;
    RepAddKid(gens, pages, gens', pages', t, w, Leaf(x));
    assert AddKid(t, w, Leaf(x)) == SetKids(t, w, Sub(t, w).kids + [Leaf(x)]) by { AddKidIs(t, w, Leaf(x)); }
  }

  lemma AddKidIs(t: Node, g: int, k: Node)
    requires g in Gens(t)
    ensures AddKid(t, g, k) == SetKids(t, g, Sub(t, g).kids + [k])
  {
  }

  lemma LeavesStay(gens: map<int, Generation>, pages: set<int>, pages': set<int>, t: Node, x: int)
    requires Rep(gens, pages, t) && x !in Nodes(t) && Nodes(t) + {x} == gens.Keys + pages' && gens.Keys !! pages' && pages' <= pages + {x}
    ensures forall n :: n in Nodes(t) ==> (n in pages' <==> n in pages)
  {
    RepNodes(gens, pages, t);
  }

  lemma {:induction false} RepNodes(gens: map<int, Generation>, pages: set<int>, t: Node)
    requires Rep(gens, pages, t)
    ensures forall n :: n in Nodes(t) ==> (n in gens <==> n !in pages)
    decreases t, 1
  {
    if t.Gen? { RepNodesAll(gens, pages, t.kids); }
  }

  lemma {:induction false} RepNodesAll(gens: map<int, Generation>, pages: set<int>, ks: seq<Node>)
    requires RepAll(gens, pages, ks)
    ensures forall n :: n in NodesAll(ks) ==> (n in gens <==> n !in pages)
    decreases ks, 0
  {
    if ks != [] {
      RepNodes(gens, pages, ks[0]);
      RepNodesAll(gens, pages, ks[1..]);
    }
  }

  /** handle_segv's slot writes: the tree, and the order of the versions. */
  lemma TrapShaped(st: State, p: int, i: int, a: int, copy: int, pages': map<int, Page>)
    requires Sane(st, {copy}) && Mut(st) && a in st.pages && a != copy && st.pages[a].committed && a != NULL && copy != NULL
    requires p in st.gens && Slot(st.gens, p, i, a)
    requires st.working in Gens(st.tree) && |Sub(st.tree, st.working).kids| < GENERATION_CHILDREN
    requires pages'.Keys == st.pages.Keys
    ensures p != st.working && |st.gens[st.working].c| == GENERATION_CHILDREN
    ensures var w := st.working;
            var t1 := Relabel(st.tree, a, copy);
            var st' := st.(gens := Trapped(st, p, i, copy, |Sub(st.tree, w).kids|, a), pages := pages',
                           tree := AddKid'(t1, w, Leaf(a)));
            && w in Gens(t1) && Shaped(st', {}) && Tipped(st'.tree, w, st.last)
            && EndOf(st.tree, w) <= |View(st).order|
            && View(st').order == Insert(Exchange(View(st).order, a, copy), EndOf(st.tree, w), Entry(st.last, a))
            && TipEnd(st') == EndOf(st.tree, w) + 1
            && (After(st.tree, 0, w) == [] ==> After(st'.tree, 0, w) == [])
  {
    hide Rep, Items, PagesOf, Inv, Sub, Relabel, Gens, Nodes, Before, After, SetKids, EndOf, Exchange, Kept, Tipped, AddKid;
    var w := st.working;
    SaneTop(st, {copy});
    PagesAreNodes(st, {copy});
    if p == w { WorkingSlot(st, {copy}, i, a); }
    GenAt(st, {copy}, w);
    GenAt(st, {copy}, p);
    TrapRelabels(st, p, i, a, copy);
    var t1 := Relabel(st.tree, a, copy);
    var gens1 := st.gens[p := st.gens[p].(c := st.gens[p].c[i := copy])];
    assert a !in st.gens && gens1[w] == st.gens[w] && gens1.Keys == st.gens.Keys;
    AddLeafShaped(gens1, st.pages.Keys, pages'.Keys, t1, st.tops, st.last, w, a);
  }

  ghost function AddKid'(t: Node, g: int, k: Node): Node {
    if g in Gens(t) then AddKid(t, g, k) else t
  }

  /** When nothing follows the newest generation in the tree, and the committed
      generation is the newest, the history is linear so far. */
  ghost predicate Tail(st: State) {
    && st.last in st.tops && Tipped(st.tree, st.tops[st.last], st.last)
    && After(st.tree, 0, st.tops[st.last]) == []
  }

  ghost function AfterTrap(st: State, p: int, i: int, a: int, copy: int): State
    requires a in st.pages && copy in st.pages && p in st.gens && Slot(st.gens, p, i, a) && st.working in Gens(st.tree)
    requires st.working in st.gens && |st.gens[st.working].c| == GENERATION_CHILDREN && |Sub(st.tree, st.working).kids| < GENERATION_CHILDREN
  {
    st.(gens := Trapped(st, p, i, copy, |Sub(st.tree, st.working).kids|, a),
        pages := st.pages[copy := st.pages[copy].(committed := true)][a := st.pages[a].(committed := false)],
        tree := AddKid'(Relabel(st.tree, a, copy), st.working, Leaf(a)))
  }

  /** handle_segv takes a Trap step of the version store and keeps the heap sane.
      s is the store before the copy was made. */
  lemma TrapSane(s: Store, st: State, p: int, i: int, a: int, copy: int)
    requires Sane(st, {copy}) && Mut(st) && Inv(s) && copy !in s.mem && a in s.mem && a < copy && a != NULL
    requires s.mem[a].realAddr == a && s.mem[a].committed
    requires View(st) == s.(mem := s.mem[copy := Moved(s.mem[a], copy - a)])
    requires p in st.gens && Slot(st.gens, p, i, a) && copy != NULL
    requires st.working in Gens(st.tree) && |Sub(st.tree, st.working).kids| < GENERATION_CHILDREN
    ensures st.working in st.gens && |st.gens[st.working].c| == GENERATION_CHILDREN
    ensures var st' := AfterTrap(st, p, i, a, copy);
            && Sane(st', {}) && Taken(s, Trap(a, copy, EndOf(st.tree, st.working)), View(st'))
            && (Tail(st) ==> Tail(st') && EndOf(st.tree, st.working) == |s.order|) && TipEnd(st') == EndOf(st.tree, st.working) + 1
  {
    hide Inv, Shaped, Tipped, Items, PagesOf, Relabel, EndOf, Before, After, Sub, Gens, Nodes, AddKid';
    var w := st.working;
    assert st.pages[a] == s.mem[a] && st.pages[copy] == Moved(s.mem[a], copy - a);
    var pages' := st.pages[copy := st.pages[copy].(committed := true)][a := st.pages[a].(committed := false)];
    TrapShaped(st, p, i, a, copy, pages');
    var st' := AfterTrap(st, p, i, a, copy);
    assert pages' == s.mem[copy := Moved(s.mem[a], copy - a)][a := s.mem[a].(committed := false)];
    assert Headed(st');
    HeadIds(st);
    assert Mutating(s);
    assert Taken(s, Trap(a, copy, EndOf(st.tree, w)), View(st'));
    StepKeeps(s, Trap(a, copy, EndOf(st.tree, w)), View(st'));
    if Tail(st) { EndIsLast(st.tree, w); }
  }

  /** The place in the version order behind all pages of the working generation. */
  ghost function TipEnd(st: State): nat {
    if st.working in Gens(st.tree) then EndOf(st.tree, st.working) else 0
  }

  /** The operation took step l of the version store and kept the heap sane; a page
      that it adds goes behind those of the working generation, also on a branching
      history, and on a linear history the step extends it. */
  ghost predicate Done(st: State, l: Step, st': State) {
    && Sane(st', {}) && Taken(View(st), l, View(st')) && st'.tree.at == st.tree.at
    && (l.Trap? || l.NewPage? ==> l.j == TipEnd(st) && TipEnd(st') == l.j + 1)
    && (l.Write? || l.Leak? ==> TipEnd(st') == TipEnd(st))
    && (Tail(st) && (l.Begin? ==> Id(st, st.committed) == st.last) ==> Tail(st') && Extends(View(st), l))
  }

  /** The whole of handle_segv: the copy, room in the working node if it had none,
      and the slot writes. */
  lemma TrapDone(st: State, a: int, copy: int, st1: State, st2: State, p: int, i: int)
    requires Sane(st, {}) && Mut(st) && Copied(st, a, copy, st1) && st.pages[a].realAddr == a && st.pages[a].committed && a != NULL
    requires Sane(st2, {copy}) && View(st2) == View(st1) && Mut(st2) && st2.tree.at == st1.tree.at && (Tail(st1) ==> Tail(st2))
    requires p in st2.gens && Slot(st2.gens, p, i, a)
    requires st2.working in Gens(st2.tree) && |Sub(st2.tree, st2.working).kids| < GENERATION_CHILDREN && TipEnd(st2) == TipEnd(st)
    ensures a in st2.pages && copy in st2.pages && st2.working in st2.gens && |st2.gens[st2.working].c| == GENERATION_CHILDREN
    ensures Done(st, Trap(a, copy, EndOf(st2.tree, st2.working)), AfterTrap(st2, p, i, a, copy))
  {
    hide Inv, Items, PagesOf, Relabel, Kept, Rep, Uniq, Nodes, EndOf, Before, After, Taken, Tipped, Moved, Shaped;
    var s := View(st);
    SaneTop(st, {});
    TrapSane(s, st2, p, i, a, copy);
    AddKidAt(Relabel(st2.tree, a, copy), st2.working, Leaf(a));
    RootStays(st2, {copy}, a, copy);
  }

  lemma AddKidAt(t: Node, g: int, k: Node)
    ensures AddKid'(t, g, k).at == t.at
  {
  }

  lemma RootStays(st: State, loose: set<int>, a: int, b: int)
    requires Shaped(st, loose)
    ensures Relabel(st.tree, a, b).at == st.tree.at
  {
  }

  // ---------------------------------------------------------- a fresh page

  ghost function AfterNewPage(st: State, at: int, n: int): State
    requires st.working in Gens(st.tree) && st.working in st.gens && |st.gens[st.working].c| == GENERATION_CHILDREN
    requires |Sub(st.tree, st.working).kids| < GENERATION_CHILDREN
  {
    var (w, c) := (st.working, st.gens[st.working].c);
    st.(gens := st.gens[w := st.gens[w].(c := c[|Sub(st.tree, w).kids| := at])],
        pages := st.pages[at := FreshPage(at, n)],
        tree := AddKid(st.tree, w, Leaf(at)))
  }

  lemma NewPageSane(st: State, at: int, n: int)
    requires Sane(st, {}) && Mut(st) && at !in st.gens && at !in st.pages && at != NULL && n >= 1
    requires st.working in Gens(st.tree) && |Sub(st.tree, st.working).kids| < GENERATION_CHILDREN
    ensures st.working in st.gens && |st.gens[st.working].c| == GENERATION_CHILDREN
    ensures var st' := AfterNewPage(st, at, n);
            && Sane(st', {}) && Taken(View(st), NewPage(at, n, EndOf(st.tree, st.working)), View(st'))
            && (Tail(st) ==> Tail(st') && EndOf(st.tree, st.working) == |View(st).order|) && TipEnd(st') == EndOf(st.tree, st.working) + 1
  {
    hide Tipped, Items, PagesOf, EndOf, Before, After, AddKid, Inv, Kept, Rep, Sub, Gens, Nodes;
    var w := st.working;
    PagesAreNodes(st, {});
    SaneTop(st, {});
    GenAt(st, {}, w);
    var st' := AfterNewPage(st, at, n);
    var pages' := st.pages.Keys + {at};
    assert st'.pages.Keys == pages';
    AddLeafShaped(st.gens, st.pages.Keys, pages', st.tree, st.tops, st.last, w, at);
    assert Shaped(st', {}) && Headed(st');
    HeadIds(st);
    assert Tiled(FreshPage(at, n), at);
    var l := NewPage(at, n, EndOf(st.tree, w));
    assert Taken(View(st), l, View(st'));
    StepKeeps(View(st), l, View(st'));
    if Tail(st) { EndIsLast(st.tree, w); }
  }

  // ---------------------------------------------------------- a write

  /** A change of a page that keeps its layout keeps the heap sane, whatever page
      it is: this is what a store does when it is not trapped. */
  lemma PokeSane(st: State, a: int, p: Page)
    requires Sane(st, {}) && a in st.pages && Grows(st.pages[a], p) && Tiled(p, a)
    ensures Sane(st.(pages := st.pages[a := p]), {}) && (Tail(st) ==> Tail(st.(pages := st.pages[a := p])))
  {
    hide Rep, Kept, Items, PagesOf;
    var st' := st.(pages := st.pages[a := p]);
    assert st'.pages.Keys == st.pages.Keys;
    assert Shaped(st', {}) && Headed(st');
    PokeKeeps(View(st), a, p);
  }

  /** During a mutation a write into a page of the working generation is a write
      step, and one into a committed page at home, which no trap has stopped, a leak. */
  lemma WriteDone(st: State, a: int, p: Page)
    requires Sane(st, {}) && Mut(st) && a in st.pages && Grows(st.pages[a], p) && Tiled(p, a)
    requires st.pages[a].committed ==> st.pages[a].realAddr == a
    ensures Done(st, WriteStep(st.pages[a], a, p), st.(pages := st.pages[a := p]))
  {
    hide Inv, Shaped, Headed, Tail, Grows, Tiled;
    PokeSane(st, a, p);
    SaneTop(st, {});
    HeadIds(st);
  }

  // ---------------------------------------------------------- snap_begin_mut

  ghost function AfterBegin(st: State, g: int, next: int): State
    requires g in Gens(st.tree) && g in st.gens && |st.gens[g].c| == GENERATION_CHILDREN && |Sub(st.tree, g).kids| < GENERATION_CHILDREN
  {
    st.(gens := st.gens[next := Generation(false, st.last + 1, EmptySlots())]
                       [g := st.gens[g].(c := st.gens[g].c[|Sub(st.tree, g).kids| := next])],
        tree := AddKid(st.tree, g, Gen(next, st.last + 1, [])),
        tops := st.tops[st.last + 1 := next], working := next, last := st.last + 1)
  }

  lemma EmptyRep(gens: map<int, Generation>, pages: set<int>, at: int, id: int)
    requires at in gens && at !in pages && at != NULL && gens[at].gen == id && gens[at].c == EmptySlots()
    ensures Rep(gens, pages, Gen(at, id, []))
  {
    assert SlotsOf(EmptySlots(), []);
  }

  lemma BeginShaped(st: State, g: int, next: int)
    requires Sane(st, {}) && !Mut(st) && next !in st.gens && next !in st.pages && next != NULL
    requires g in Gens(st.tree) && |Sub(st.tree, g).kids| < GENERATION_CHILDREN
    ensures g in st.gens && |st.gens[g].c| == GENERATION_CHILDREN
    ensures Shaped(AfterBegin(st, g, next), {}) && Tipped(AfterBegin(st, g, next).tree, next, st.last + 1)
    ensures View(AfterBegin(st, g, next)).order == View(st).order
    ensures After(st.tree, 0, g) == [] ==> After(AfterBegin(st, g, next).tree, 0, next) == []
    ensures TipEnd(AfterBegin(st, g, next)) == EndOf(st.tree, g)
  {
    hide Rep, Kept, Items, PagesOf, Tipped, Sub, SetKids, Uniq, Nodes, SlotsOf, Before, After, Inv, AddKid, SameAt, Gens;
    SaneTop(st, {});
    PagesAreNodes(st, {});
    GenAt(st, {}, g);
    var st' := AfterBegin(st, g, next);
    var k := Gen(next, st.last + 1, []);
    AddGenKept(st.tree, st.tops, st.last, g, next);
    AddGenOrder(st.tree, g, next, st.last + 1);
    AddGenTip(st.tree, st.tops, st.last, g, next);
    SameOutside(st.gens, st.pages.Keys, st'.gens, st'.pages.Keys, Nodes(st.tree), g);
    EmptyRep(st'.gens, st'.pages.Keys, next, st.last + 1);
    BeginIds(st);
    GenIs(next, st.last + 1, [], 0);
    NoKids(0);
    AddKidIs(st.tree, g, k);
    assert st'.gens.Keys == st.gens.Keys + {next};
    RepAddKid(st.gens, st.pages.Keys, st'.gens, st'.pages.Keys, st.tree, g, k);
  }

  lemma BeginSane(st: State, g: int, next: int)
    requires Sane(st, {}) && !Mut(st) && next !in st.gens && next !in st.pages && next != NULL
    requires g in Gens(st.tree) && |Sub(st.tree, g).kids| < GENERATION_CHILDREN
    ensures g in st.gens && |st.gens[g].c| == GENERATION_CHILDREN
    ensures var st' := AfterBegin(st, g, next);
            && Sane(st', {}) && Taken(View(st), Begin, View(st')) && Mut(st')
            && (After(st.tree, 0, g) == [] ==> Tail(st')) && TipEnd(st') == EndOf(st.tree, g)
  {
    hide Inv, Shaped, Tipped, Items, PagesOf, After;
    BeginShaped(st, g, next);
    GenAt(st, {}, g);
    var st' := AfterBegin(st, g, next);
    BeginIds(st);
    HeadIds(st);
    assert Headed(st');
    assert Taken(View(st), Begin, View(st'));
    StepKeeps(View(st), Begin, View(st'));
  }

  lemma BeginIds(st: State)
    requires Shaped(st, {})
    ensures forall g :: g in st.gens ==> st.gens[g].gen <= st.last && st.gens[g].gen in st.tops
    ensures st.last + 1 !in st.tops
  {
    forall g | g in st.gens ensures st.gens[g].gen <= st.last && st.gens[g].gen in st.tops {
      GenAt(st, {}, g);
      GenHasTop(st.tree, st.tops, st.last, g);
    }
  }

  // ---------------------------------------------------------- snap_commit

  function FlaggedGens(gens: map<int, Generation>, flagged: set<int>): map<int, Generation> {
    map g | g in gens :: if g in flagged then gens[g].(committed := true) else gens[g]
  }

  function FlaggedPages(pages: map<int, Page>, flagged: set<int>): map<int, Page> {
    map a | a in pages :: if a in flagged then pages[a].(committed := true) else pages[a]
  }

  lemma CommitSane(st: State)
    requires Sane(st, {}) && Mut(st)
    requires st.working in Gens(st.tree)
    ensures var ns := Nodes(Sub(st.tree, st.working));
            var st' := st.(gens := FlaggedGens(st.gens, ns), pages := FlaggedPages(st.pages, ns), committed := st.working);
            && Sane(st', {}) && Taken(View(st), Commit, View(st')) && (Tail(st) ==> Tail(st'))
  {
    hide Rep, Kept, Items, PagesOf, Tipped, Sub, Nodes;
    var w := st.working;
    var sub := Sub(st.tree, w);
    var ns := Nodes(sub);
    var st' := st.(gens := FlaggedGens(st.gens, ns), pages := FlaggedPages(st.pages, ns), committed := w);
    assert st'.gens.Keys == st.gens.Keys && st'.pages.Keys == st.pages.Keys;
    assert SameAt(st.gens, st.pages.Keys, st'.gens, st'.pages.Keys, Nodes(st.tree));
    RepFrame(st.gens, st.pages.Keys, st'.gens, st'.pages.Keys, st.tree);
    ItemsAreNodes(sub, 0);
    forall g | g in st.gens ensures st'.gens[g].committed {
      GenAt(st, {}, g);
      GenItemIn(st.tree, 0, g);
      if st.gens[g].gen == st.last { TipMembers(st.tree, w, st.last, g); }
    }
    forall a | a in st.pages ensures st'.pages[a] == st.pages[a].(committed := true) {
      WorkingPage(st, {}, a);
    }
    HeadIds(st);
    assert View(st').mem == map a | a in View(st).mem :: View(st).mem[a].(committed := true);
    StepKeeps(View(st), Commit, View(st'));
  }

  // ---------------------------------------------------------- snap_checkout

  ghost function AfterSwap(st: State, x: int, p1: int, i1: int, p2: int, i2: int): State
    requires x in st.pages && st.pages[x].realAddr in st.pages
    requires Slot(st.gens, p1, i1, x) && Slot(st.gens, p2, i2, st.pages[x].realAddr)
  {
    var r := st.pages[x].realAddr;
    st.(gens := TwoSlots(st.gens, p1, i1, r, p2, i2, x),
        pages := st.pages[x := Moved(st.pages[r], x - r)][r := Moved(st.pages[x], r - x)],
        tree := Relabel(st.tree, x, r))
  }

  /** Two leaves of the tree relabelled. */
  lemma SwapRelabels(st: State, x: int, r: int)
    requires Shaped(st, {}) && x in st.pages && r in st.pages
    ensures var t' := Relabel(st.tree, x, r);
            && Kept(t', st.tops, st.last) && Nodes(t') == Nodes(st.tree)
            && PagesOf(Items(t', 0)) == Exchange(View(st).order, x, r)
            && (Tail(st) ==> Tail(st.(tree := t')))
  {
    hide Items, PagesOf, Before, After, Rep, Kept, Tipped, Sub, Relabel, Nodes, Gens, Uniq;
    PagesAreNodes(st, {});
    RelabelKept(st.tree, st.tops, st.last, x, r);
    RelabelNodes(st.tree, x, r);
    RelabelOrder(st.tree, 0, x, r);
    RelabelPages(Items(st.tree, 0), x, r);
    forall n ensures n in Nodes(Relabel(st.tree, x, r)) <==> n in Nodes(st.tree) {
      assert n in Nodes(Relabel(st.tree, x, r)) <==> Other(n, x, r) in Nodes(st.tree);
    }
    if Tail(st) { RelabelTipped(st.tree, st.tops[st.last], st.last, x, r); }
  }

  lemma SwapShaped(st: State, x: int, p1: int, i1: int, p2: int, i2: int)
    requires Shaped(st, {}) && x in st.pages && st.pages[x].realAddr in st.pages && st.pages[x].realAddr != x
    requires Slot(st.gens, p1, i1, x) && Slot(st.gens, p2, i2, st.pages[x].realAddr)
    ensures Shaped(AfterSwap(st, x, p1, i1, p2, i2), {})
    ensures View(AfterSwap(st, x, p1, i1, p2, i2)).order == Exchange(View(st).order, x, st.pages[x].realAddr)
    ensures Tail(st) ==> Tail(AfterSwap(st, x, p1, i1, p2, i2))
  {
    hide Items, PagesOf, Before, After, Inv, Moved, Rep, Kept, Tipped, Sub, Relabel, Nodes, Gens, Uniq;
    var r := st.pages[x].realAddr;
    PagesAreNodes(st, {});
    RepSwapLeaves(st.gens, st.pages.Keys, st.tree, p1, i1, x, p2, i2, r);
    SwapRelabels(st, x, r);
    var st' := AfterSwap(st, x, p1, i1, p2, i2);
    assert st'.pages.Keys == st.pages.Keys && st'.gens.Keys == st.gens.Keys;
  }

  lemma SwapSane(st: State, x: int, p1: int, i1: int, p2: int, i2: int)
    requires Sane(st, {}) && !Mut(st) && x in st.pages && st.pages[x].realAddr in st.pages && st.pages[x].realAddr != x
    requires Slot(st.gens, p1, i1, x) && Slot(st.gens, p2, i2, st.pages[x].realAddr)
    ensures var st' := AfterSwap(st, x, p1, i1, p2, i2);
            && Sane(st', {}) && View(st') == SwapHome(View(st), x) && (Tail(st) ==> Tail(st'))
  {
    hide Inv, Shaped, Tipped, Items, PagesOf, Before, After, Relabel, Sub, Gens, Moved;
    var st' := AfterSwap(st, x, p1, i1, p2, i2);
    SwapShaped(st, x, p1, i1, p2, i2);
    HeadIds(st);
    assert Headed(st');
    assert View(st') == SwapHome(View(st), x);
    SwapHomeKeeps(View(st), x);
  }

  lemma LandSane(st: State, g: int)
    requires Sane(st, {}) && !Mut(st) && IsTop(st, g)
    ensures var st' := st.(working := g, committed := g);
            && Sane(st', {}) && View(st') == View(st).(working := st.gens[g].gen, committed := st.gens[g].gen)
            && (Tail(st) ==> Tail(st'))
  {
    hide Rep, Kept, Items, PagesOf, Tipped;
    BeginIds(st);
  }

  // ---------------------------------------------------------- the first commit

  const FIRST_GEN: int := MAP_START + 4096
  const FIRST_PAGE: int := MAP_START + 8192

  /** The heap after the first commit, when generation 0 has one page. */
  ghost function FirstState(first: Page): State {
    State(map[FIRST_GEN := Generation(true, 0, EmptySlots()[0 := FIRST_PAGE])], map[FIRST_PAGE := first],
          Gen(FIRST_GEN, 0, [Leaf(FIRST_PAGE)]), map[0 := FIRST_GEN], FIRST_GEN, FIRST_GEN, 0)
  }

  lemma FirstItems()
    ensures var k := Leaf(FIRST_PAGE);
            var t := Gen(FIRST_GEN, 0, [k]);
            && Nodes(t) == {FIRST_GEN, FIRST_PAGE} && Gens(t) == {FIRST_GEN}
            && Items(t, 0) == [GenItem(FIRST_GEN, 0), PageItem(FIRST_PAGE, 0)]
            && PagesOf(Items(t, 0)) == [Entry(0, FIRST_PAGE)]
            && Uniq(t) && Sound(t) && FirstGen(Items(t, 0), 0) == FIRST_GEN
  {
    var k := Leaf(FIRST_PAGE);
    var t := Gen(FIRST_GEN, 0, [k]);
    assert [] + [k] == [k];
    NodesConcat([], k);
    UniqConcat([], k);
    SoundOne(k, 0);
    KidItems([], k, 0);
    PagesConcat([GenItem(FIRST_GEN, 0)], [PageItem(FIRST_PAGE, 0)]);
    OneItem(GenItem(FIRST_GEN, 0));
    OneItem(PageItem(FIRST_PAGE, 0));
    assert Items(t, 0) == [GenItem(FIRST_GEN, 0)] + [PageItem(FIRST_PAGE, 0)];
  }

  lemma FirstRep(gens: map<int, Generation>, pages: set<int>, k: Node)
    requires k == Leaf(FIRST_PAGE) && pages == {FIRST_PAGE}
    requires gens == map[FIRST_GEN := Generation(true, 0, EmptySlots()[0 := FIRST_PAGE])]
    ensures Rep(gens, pages, Gen(FIRST_GEN, 0, [k]))
  {
    SlotsOne(k);
    assert [k][1..] == [];
    assert Rep(gens, pages, k) && RepAll(gens, pages, [k]);
  }

  lemma FirstSane(first: Page)
    requires Tiled(first, FIRST_PAGE) && first.realAddr == FIRST_PAGE && first.committed
    ensures Sane(FirstState(first), {}) && Tail(FirstState(first))
  {
    var st := FirstState(first);
    var k := Leaf(FIRST_PAGE);
    FirstItems();
    SlotsOne(k);
    assert [k][1..] == [];
    FirstRep(st.gens, st.pages.Keys, k);
    assert Kept(st.tree, st.tops, 0);
    assert Sub(st.tree, FIRST_GEN) == st.tree && Before(st.tree, 0, FIRST_GEN) == [] && After(st.tree, 0, FIRST_GEN) == [];
    assert Shaped(st, {});
    assert Inv(View(st));
    KidItems([], k, 0);
    assert [] + [k] == [k];
  }
}
