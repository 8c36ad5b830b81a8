/** The callbacks that the allocator hands to walk_nodes, and what their walks
    find in a sane heap. */
module Callbacks {
  import opened Layout
  import opened Maps
  import opened Carving
  import opened Pages
  import opened VersionStore
  import opened Trees
  import opened Forest
  import opened Pointers
  import opened Walks
  import opened Placement
  import opened Guards
  import opened HeapStates

  function IndexOf(c: seq<int>, x: int, i: nat): (r: nat)
    requires i <= |c|
    ensures i <= r <= |c| && (r < |c| ==> c[r] == x) && forall k :: i <= k < r ==> c[k] != x
    decreases |c| - i
  {
    if i == |c| || c[i] == x then i else IndexOf(c, x, i + 1)
  }

  /** first_free_slot */
  function FreeSlotOf(gens: map<int, Generation>): int -> Option<(int, int)> {
    n => if n in gens && IndexOf(gens[n].c, NULL, 0) < |gens[n].c| then Some((n, IndexOf(gens[n].c, NULL, 0))) else None
  }

  /** find_parent */
  function ParentOf(gens: map<int, Generation>, child: int): int -> Option<(int, int)> {
    n => if n in gens && IndexOf(gens[n].c, child, 0) < |gens[n].c| then Some((n, IndexOf(gens[n].c, child, 0))) else None
  }

  /** first_gen_for_id */
  function GenOf(gens: map<int, Generation>, id: int): int -> Option<int> {
    n => if n in gens && gens[n].gen == id then Some(n) else None
  }

  /** all_gen_match: the first generation with another id */
  function MismatchOf(gens: map<int, Generation>, id: int): int -> Option<int> {
    n => if n in gens && gens[n].gen != id then Some(n) else None
  }

  /** first_page_fit */
  function FitOf(pages: map<int, Page>, size: int): int -> Option<int> {
    n => if n in pages && CanFit(pages[n], n, size) then Some(n) else None
  }

  /** find_page: the page that has the address behind its header, with the index
      of the segment that holds the address */
  function PageAtOf(pages: map<int, Page>, hit: int): int -> Option<(int, int)> {
    n => if n in pages && n + PAGE_HEADER <= hit < n + Bytes(pages[n].pages)
         then Some((n, SegmentAt(pages[n], hit, 0))) else None
  }

  /** pages_in_gen */
  function HomeMapsOf(pages: map<int, Page>): int -> seq<Map> {
    n => if n in pages && pages[n].committed && pages[n].realAddr == n then [PageMap(pages, n, false)] else []
  }

  /** set_committed */
  function NodeOf(): int -> seq<int> { n => [n] }

  /** pages_up_to_gen, at a generation */
  function Above(gens: map<int, Generation>, k: int): int -> bool { n => n in gens && gens[n].gen > k }

  function IsGen(gens: map<int, Generation>): int -> bool { n => n in gens }

  // ---------------------------------------------------------- first_free_slot

  lemma FirstNull(c: seq<int>, ks: seq<Node>)
    requires SlotsOf(c, ks)
    ensures IndexOf(c, NULL, 0) == |ks|
  {
    assert forall k :: 0 <= k < |ks| ==> c[k] != NULL;
    assert |ks| < |c| ==> c[|ks|] == NULL;
  }

  lemma SubItems(st: State, loose: set<int>, g: int, x: Item)
    requires Shaped(st, loose) && g in st.gens && g in Gens(st.tree) && x in Items(Sub(st.tree, g), 0)
    ensures x.at in Nodes(st.tree) && (x.GenItem? <==> x.at in st.gens) && (x.GenItem? ==> x.at in Gens(st.tree) && x.at in Gens(Sub(st.tree, g)))
  {
    GenAt(st, loose, g);
    ItemsAreNodes(Sub(st.tree, g), 0);
    SubIn(st.tree, g);
    RepSets(st.gens, st.pages.Keys, st.tree);
    ItemsKinds(Sub(st.tree, g), 0, st.gens, st.pages.Keys);
    GensAreNodes(st.tree);
  }

  lemma {:induction false} ItemsKinds(t: Node, id: int, gens: map<int, Generation>, pages: set<int>)
    requires Rep(gens, pages, t)
    ensures forall i :: 0 <= i < |Items(t, id)| ==> (Items(t, id)[i].GenItem? <==> Items(t, id)[i].at in gens)
    ensures forall i :: 0 <= i < |Items(t, id)| ==> Items(t, id)[i].GenItem? ==> gens[Items(t, id)[i].at].gen == Items(t, id)[i].id
    ensures forall i :: 0 <= i < |Items(t, id)| ==> Items(t, id)[i].PageItem? ==> Items(t, id)[i].at in pages
    decreases t, 1
  {
    if t.Gen? { ItemsKindsAll(t.kids, t.id, gens, pages); }
  }

  lemma {:induction false} ItemsKindsAll(ks: seq<Node>, id: int, gens: map<int, Generation>, pages: set<int>)
    requires RepAll(gens, pages, ks)
    ensures forall i :: 0 <= i < |ItemsAll(ks, id)| ==> (ItemsAll(ks, id)[i].GenItem? <==> ItemsAll(ks, id)[i].at in gens)
    ensures forall i :: 0 <= i < |ItemsAll(ks, id)| ==> ItemsAll(ks, id)[i].GenItem? ==> gens[ItemsAll(ks, id)[i].at].gen == ItemsAll(ks, id)[i].id
    ensures forall i :: 0 <= i < |ItemsAll(ks, id)| ==> ItemsAll(ks, id)[i].PageItem? ==> ItemsAll(ks, id)[i].at in pages
    decreases ks, 0
  {
    if ks != [] {
      ItemsKinds(ks[0], id, gens, pages);
      ItemsKindsAll(ks[1..], id, gens, pages);
    }
  }

  /** The first free slot below g is the first slot behind the children of some
      node there, of g itself if g has room. */
  lemma FreeSlotHit(st: State, loose: set<int>, g: int)
    requires Shaped(st, loose) && g in st.gens
    ensures g in Gens(st.tree)
    ensures var h := FirstHit(Items(Sub(st.tree, g), 0), FreeSlotOf(st.gens));
            if h.Some? then
              var (x, k) := h.value;
              && x in st.gens && x in Gens(st.tree) && k == |Sub(st.tree, x).kids| < GENERATION_CHILDREN
              && x in Gens(Sub(st.tree, g))
              && (|Sub(st.tree, g).kids| < GENERATION_CHILDREN ==> x == g)
            else |Sub(st.tree, g).kids| == GENERATION_CHILDREN
  {
    GenAt(st, loose, g);
    var items, p := Items(Sub(st.tree, g), 0), FreeSlotOf(st.gens);
    FirstNull(st.gens[g].c, Sub(st.tree, g).kids);
    assert items[0].at == g;
    if FirstHit(items, p).Some? {
      var i := HitAt(items, p);
      var x := items[i].at;
      SubItems(st, loose, g, items[i]);
      GenAt(st, loose, x);
      FirstNull(st.gens[x].c, Sub(st.tree, x).kids);
    } else {
      NoHit(items, p);
    }
  }

  /** Every node of the subtree is full. */
  ghost predicate NoRoom(t: Node) {
    forall x :: x in Gens(t) ==> |Sub(t, x).kids| == GENERATION_CHILDREN
  }

  /** Item i of the preorder of t is generation g, which has a free slot, and none of the
      generations before it has one. */
  ghost predicate RoomAt(t: Node, i: int, g: int) {
    && 0 <= i < |Items(t, 0)| && Items(t, 0)[i].GenItem? && Items(t, 0)[i].at == g
    && g in Gens(t) && |Sub(t, g).kids| < GENERATION_CHILDREN
    && forall j :: 0 <= j < i && Items(t, 0)[j].GenItem? ==> FullAt(t, Items(t, 0)[j].at)
  }

  ghost predicate FullAt(t: Node, x: int) { x in Gens(t) && |Sub(t, x).kids| == GENERATION_CHILDREN }

  /** g is the first generation of t in preorder with a free slot. */
  ghost predicate FirstRoom(t: Node, g: int) { exists i :: RoomAt(t, i, g) }

  /** The slots of a generation below g, by its children. */
  lemma FreeAt(st: State, loose: set<int>, g: int, i: int)
    requires Shaped(st, loose) && g in st.gens && g in Gens(st.tree) && 0 <= i < |Items(Sub(st.tree, g), 0)|
    ensures var x := Items(Sub(st.tree, g), 0)[i];
            && (x.GenItem? <==> x.at in st.gens)
            && (x.GenItem? ==> x.at in Gens(st.tree) && x.at in Gens(Sub(st.tree, g)) && Sub(Sub(st.tree, g), x.at) == Sub(st.tree, x.at)
                               && |Sub(st.tree, x.at).kids| <= GENERATION_CHILDREN == |st.gens[x.at].c|
                               && IndexOf(st.gens[x.at].c, NULL, 0) == |Sub(st.tree, x.at).kids|)
  {
    var x := Items(Sub(st.tree, g), 0)[i];
    SubItems(st, loose, g, x);
    if x.GenItem? {
      GenAt(st, loose, x.at);
      FirstNull(st.gens[x.at].c, Sub(st.tree, x.at).kids);
      SubSub(st.tree, 0, g, x.at);
    }
  }

  /** first_free_slot finds the first one in preorder, and none only if all are full. */
  lemma FreeSlotFirst(st: State, loose: set<int>, g: int)
    requires Shaped(st, loose) && g in st.gens
    ensures g in Gens(st.tree)
    ensures var h := FirstHit(Items(Sub(st.tree, g), 0), FreeSlotOf(st.gens));
            if h.Some? then FirstRoom(Sub(st.tree, g), h.value.0) && h.value.1 == |Sub(Sub(st.tree, g), h.value.0).kids| else NoRoom(Sub(st.tree, g))
  {
    GenAt(st, loose, g);
    var t := Sub(st.tree, g);
    var items, p := Items(t, 0), FreeSlotOf(st.gens);
    if FirstHit(items, p).Some? {
      var i := HitAt(items, p);
      FreeAt(st, loose, g, i);
      forall j | 0 <= j < i && items[j].GenItem? ensures FullAt(t, items[j].at) { FreeAt(st, loose, g, j); }
      assert RoomAt(t, i, items[i].at);
    } else {
      NoHit(items, p);
      forall x | x in Gens(t) ensures |Sub(t, x).kids| == GENERATION_CHILDREN {
        GenItemIn(t, 0, x);
        var j :| 0 <= j < |items| && items[j].GenItem? && items[j].at == x;
        FreeAt(st, loose, g, j);
      }
    }
  }

  /** In the newest generation only the outermost node can have a free slot. */
  lemma TipSlot(st: State, loose: set<int>, g: int)
    requires Shaped(st, loose) && g in st.gens && g in Gens(st.tree) && Tipped(st.tree, g, st.last)
    ensures var h := FirstHit(Items(Sub(st.tree, g), 0), FreeSlotOf(st.gens));
            h.Some? ==> h.value == (g, |Sub(st.tree, g).kids|)
  {
    FreeSlotHit(st, loose, g);
    GenAt(st, loose, g);
    var sub := Sub(st.tree, g);
    var h := FirstHit(Items(sub, 0), FreeSlotOf(st.gens));
    if h.Some? && |sub.kids| == GENERATION_CHILDREN {
      SoundSub(st.tree, g);
      FullBelow(sub);
      SubSub(st.tree, 0, g, h.value.0);
      assert false;
    }
  }

  // ---------------------------------------------------------- find_parent

  lemma ParentHit(st: State, loose: set<int>, x: int)
    requires Shaped(st, loose) && x in Nodes(st.tree) && x != st.tree.at
    ensures var h := FirstHit(Items(st.tree, 0), ParentOf(st.gens, x));
            h.Some? && h.value.0 in st.gens && h.value.0 in Gens(st.tree) && Slot(st.gens, h.value.0, h.value.1, x)
  {
    var items, f := Items(st.tree, 0), ParentOf(st.gens, x);
    RepSets(st.gens, st.pages.Keys, st.tree);
    var g, j := HasParent(st.gens, st.pages.Keys, st.tree, x);
    NodesInItems(st.tree, 0, g);
    GensAreNodes(st.tree);
    GenItemIn(st.tree, 0, g);
    assert IndexOf(st.gens[g].c, x, 0) <= j;
    var n :| 0 <= n < |items| && items[n].at == g;
    assert f(items[n].at).Some?;
    if FirstHit(items, f).None? {
      NoHit(items, f);
    } else {
      var i := HitAt(items, f);
      ItemsAreNodes(st.tree, 0);
      ItemsKinds(st.tree, 0, st.gens, st.pages.Keys);
    }
  }

  // ---------------------------------------------------------- first_gen_for_id

  lemma {:induction false} GenHitItems(items: seq<Item>, gens: map<int, Generation>, id: int)
    requires NonNull(items)
    requires forall i :: 0 <= i < |items| ==> (items[i].GenItem? <==> items[i].at in gens)
    requires forall i :: 0 <= i < |items| ==> items[i].GenItem? ==> gens[items[i].at].gen == items[i].id
    ensures FirstHit(items, GenOf(gens, id)) == if FirstGen(items, id) != NULL then Some(FirstGen(items, id)) else None
    decreases items
  {
    if items != [] { GenHitItems(items[1..], gens, id); }
  }

  /** The walk for an id finds the node that was once working for it, and nothing
      for an id that no generation has. */
  lemma GenHit(st: State, loose: set<int>, id: int)
    requires Shaped(st, loose)
    ensures FirstHit(Items(st.tree, 0), GenOf(st.gens, id))
         == if id in st.tops then Some(st.tops[id]) else None
    ensures id in st.tops ==> IsTop(st, st.tops[id]) && st.gens[st.tops[id]].gen == id
  {
    var items := Items(st.tree, 0);
    ItemsKinds(st.tree, 0, st.gens, st.pages.Keys);
    GenHitItems(items, st.gens, id);
    FirstGenNone(items, id);
    if FirstGen(items, id) != NULL {
      FirstGenAt(items, id);
      var i :| 0 <= i < |items| && items[i] == GenItem(FirstGen(items, id), id);
      assert items[i].id in st.tops;
    }
  }

  // ---------------------------------------------------------- find_page

  /** The address lies in the page at a, behind its header. */
  ghost predicate PageHit(pages: map<int, Page>, a: int, addr: int) {
    a in pages && a + PAGE_HEADER <= addr < a + Bytes(pages[a].pages)
  }

  /** The page that has the address behind its header, if there is one. */
  ghost function HitPage(pages: map<int, Page>, addr: int): (r: Option<int>)
    ensures r.Some? ==> PageHit(pages, r.value, addr)
    ensures r.None? ==> forall a :: !PageHit(pages, a, addr)
  {
    if a :| PageHit(pages, a, addr) then Some(a) else None
  }

  lemma OneHit(pages: map<int, Page>, size: int, a: int, b: int, addr: int)
    requires PagesPlaced(pages, size) && PageHit(pages, a, addr) && PageHit(pages, b, addr)
    ensures a == b
  {
    assert Covers(pages, a, addr) && Covers(pages, b, addr);
    OneCover(pages, size, a, b, addr);
  }

  /** find_page finds the page that has the address, and the segment in it. */
  lemma PageSearch(st: State, loose: set<int>, size: int, addr: int)
    requires Shaped(st, loose) && PagesPlaced(st.pages, size)
    requires forall a :: PageHit(st.pages, a, addr) ==> a !in loose
    ensures var h := FirstHit(Items(st.tree, 0), PageAtOf(st.pages, addr));
            match HitPage(st.pages, addr)
            case None => h.None?
            case Some(a) => h == Some((a, SegmentAt(st.pages[a], addr, 0)))
  {
    var items, f := Items(st.tree, 0), PageAtOf(st.pages, addr);
    if HitPage(st.pages, addr).Some? {
      var n := PageIndex(st, loose, HitPage(st.pages, addr).value);
      SomeHit(items, f, n);
    }
    if FirstHit(items, f).Some? {
      var j := HitAt(items, f);
      assert PageHit(st.pages, items[j].at, addr);
      OneHit(st.pages, size, items[j].at, HitPage(st.pages, addr).value, addr);
    }
  }

  /** Where a page stands in the preorder. */
  lemma PageIndex(st: State, loose: set<int>, a: int) returns (n: int)
    requires Shaped(st, loose) && a in st.pages && a !in loose
    ensures 0 <= n < |Items(st.tree, 0)| && Items(st.tree, 0)[n].at == a
  {
    PageHasEntry(st, loose, a);
    var k :| PageItem(a, k) in Items(st.tree, 0) && Entry(k, a) in View(st).order;
    n :| 0 <= n < |Items(st.tree, 0)| && Items(st.tree, 0)[n] == PageItem(a, k);
  }

  /** How handle_segv ends before it looks for room: where the fault lies, and
      whether something is being mutated. */
  ghost function Verdict(pages: map<int, Page>, size: int, mut: bool, addr: int): Stop {
    if addr < MAP_START || addr >= MAP_START + size then OutOfHeap
    else if !mut then OutsideMutation
    else match HitPage(pages, addr)
      case None => NoPage
      case Some(a) =>
        if SegmentAt(pages[a], addr, 0) == -1 then NoSegment
        else if !pages[a].committed then NotCommitted
        else Going
  }

  /** Segment i of the page at a has the address. */
  ghost predicate SegmentHit(pages: map<int, Page>, a: int, i: int, addr: int) {
    && PageHit(pages, a, addr) && 0 <= i < |pages[a].c| && i < |pages[a].segs|
    && pages[a].c[i] <= addr < pages[a].c[i] + SEGMENT_HEADER + pages[a].segs[i].size
  }

  /** What an exit of handle_segv tells of the fault. */
  ghost predicate Told(v: Stop, pages: map<int, Page>, size: int, mut: bool, addr: int) {
    var handled := MAP_START <= addr < MAP_START + size && mut;
    && (v == OutOfHeap <==> !(MAP_START <= addr < MAP_START + size))
    && (v == OutsideMutation <==> MAP_START <= addr < MAP_START + size && !mut)
    && (v == NoPage <==> handled && forall a :: !PageHit(pages, a, addr))
    && (v == NoSegment <==> handled && (exists a :: PageHit(pages, a, addr)) && forall a, i :: !SegmentHit(pages, a, i, addr))
    && (v == NotCommitted <==> handled && exists a, i :: SegmentHit(pages, a, i, addr) && !pages[a].committed)
    && (v == Going <==> handled && exists a, i :: SegmentHit(pages, a, i, addr) && pages[a].committed)
  }

  /** The verdict, told without looking for a page. */
  lemma VerdictTells(pages: map<int, Page>, size: int, mut: bool, addr: int)
    requires PagesPlaced(pages, size) && forall a :: a in pages ==> |pages[a].c| == |pages[a].segs|
    ensures Told(Verdict(pages, size, mut, addr), pages, size, mut, addr)
  {
    match HitPage(pages, addr)
    case None =>
      assert forall a, i :: SegmentHit(pages, a, i, addr) ==> PageHit(pages, a, addr);
    case Some(a) =>
      var r := SegmentAt(pages[a], addr, 0);
      SegmentAtFinds(pages[a], addr, 0);
      assert PageHit(pages, a, addr);
      if r >= 0 { assert SegmentHit(pages, a, r, addr); }
      forall b, i | SegmentHit(pages, b, i, addr) ensures b == a && r >= 0 { OneHit(pages, size, a, b, addr); }
  }

  lemma SaneTells(st: State, t: seq<Map>, sp: Space, ro: set<int>, addr: int)
    requires Sane(st, {}) && ReadyFor(t, sp, st.pages, ro)
    ensures Told(Verdict(st.pages, sp.size, Mut(st), addr), st.pages, sp.size, Mut(st), addr)
  {
    PlacedPages(sp, st.pages);
    forall a | a in st.pages ensures |st.pages[a].c| == |st.pages[a].segs| { SanePages(st, a); }
    hide Sane, ReadyFor, Told, Verdict;
    VerdictTells(st.pages, sp.size, Mut(st), addr);
  }

  lemma VerdictMut(pages: map<int, Page>, size: int, mut: bool, addr: int)
    requires Verdict(pages, size, mut, addr) == Going
    ensures mut && HitPage(pages, addr).Some? && PageHit(pages, HitPage(pages, addr).value, addr)
  {
  }

  /** A page that is hit by a write fault is at home, and committed during a mutation. */
  lemma FaultCommitted(t: seq<Map>, sp: Space, pages: map<int, Page>, ro: set<int>, os: int -> bool, mut: bool, addr: int)
    requires ReadyFor(t, sp, pages, ro) && WellFormed(t) && Lenient(t, os) && !os(addr) && (mut ==> Barrier(pages, ro))
    ensures Verdict(pages, sp.size, mut, addr) != NotCommitted
    ensures Verdict(pages, sp.size, mut, addr) == Going ==>
              forall a :: PageHit(pages, a, addr) ==> pages[a].realAddr == a
  {
    if MAP_START <= addr < MAP_START + sp.size {
      FaultShut(t, sp, pages, ro, os, addr);
      forall a | PageHit(pages, a, addr) ensures a in ro && pages[a].realAddr == a { assert Covers(pages, a, addr); }
    }
  }

  /** Every byte of every segment is found in its page and its segment. */
  lemma VerdictAt(pages: map<int, Page>, size: int, mut: bool, a: int, i: int, addr: int)
    requires PagesPlaced(pages, size) && a in pages && Tiled(pages[a], a) && 0 <= i < |pages[a].c|
    requires pages[a].c[i] <= addr < pages[a].c[i] + SEGMENT_HEADER + pages[a].segs[i].size
    ensures HitPage(pages, addr) == Some(a) && SegmentAt(pages[a], addr, 0) == i
    ensures forall b :: PageHit(pages, b, addr) ==> b == a
    ensures Verdict(pages, size, mut, addr)
         == if !mut then OutsideMutation else if !pages[a].committed then NotCommitted else Going
  {
    SegmentInPage(pages[a], a, i);
    SegmentUnique(pages[a], a, i, addr);
    assert PageHit(pages, a, addr);
    forall b | PageHit(pages, b, addr) ensures b == a { OneHit(pages, size, a, b, addr); }
  }

  // ---------------------------------------------------------- the working subtree

  lemma WorkingItems(st: State, loose: set<int>, x: Item)
    requires Sane(st, loose) && Mut(st) && x in Items(Sub'(st.tree, st.working), 0)
    ensures st.working in Gens(st.tree) && x.id == st.last
    ensures x.PageItem? ==> x.at in st.pages && (x.at !in loose ==> !st.pages[x.at].committed)
    ensures x.GenItem? ==> x.at in st.gens && st.gens[x.at].gen == st.last
  {
    GenAt(st, loose, st.working);
    TipMembers(st.tree, st.working, st.last, x.at);
    ItemsKinds(Sub(st.tree, st.working), 0, st.gens, st.pages.Keys);
    if x.PageItem? && x.at !in loose { WorkingPage(st, loose, x.at); }
  }

  ghost function Sub'(t: Node, g: int): Node {
    if g in Gens(t) then Sub(t, g) else t
  }

  /** The nodes below the working one, by their items. */
  lemma WorkingNodes(st: State, x: int)
    requires Sane(st, {}) && Mut(st)
    ensures st.working in Gens(st.tree)
    ensures x in Nodes(Sub(st.tree, st.working)) <==>
              GenItem(x, st.last) in Items(Sub(st.tree, st.working), 0) || PageItem(x, st.last) in Items(Sub(st.tree, st.working), 0)
  {
    GenAt(st, {}, st.working);
    var sub := Sub(st.tree, st.working);
    TipMembers(st.tree, st.working, st.last, x);
    ItemsAreNodes(sub, 0);
    if x in Nodes(sub) {
      NodesInItems(sub, 0, x);
      var k :| (if x in Gens(sub) then GenItem(x, k) else PageItem(x, k)) in Items(sub, 0);
      assert k == st.last;
    }
  }

  /** The items of the working subtree are of the kinds that memory says. */
  lemma WorkingKinds(st: State, x: int)
    requires Sane(st, {}) && Mut(st)
    ensures st.working in Gens(st.tree)
    ensures GenItem(x, st.last) in Items(Sub(st.tree, st.working), 0) ==> x in st.gens && st.gens[x].gen == st.last
    ensures PageItem(x, st.last) in Items(Sub(st.tree, st.working), 0) ==> x in st.pages
  {
    GenAt(st, {}, st.working);
    ItemsKinds(Sub(st.tree, st.working), 0, st.gens, st.pages.Keys);
  }

  lemma WorkingGen(st: State, x: int)
    requires Sane(st, {}) && Mut(st) && x in st.gens
    ensures st.working in Gens(st.tree) && (x in Nodes(Sub(st.tree, st.working)) <==> st.gens[x].gen == st.last)
  {
    WorkingNodes(st, x);
    WorkingKinds(st, x);
    GenAt(st, {}, x);
    GenItemIn(st.tree, 0, x);
    TipMembers(st.tree, st.working, st.last, x);
    hide Rep, Items, Kept, Inv;
  }

  /** Commit bits: during a mutation the uncommitted nodes are exactly those of the
      working subtree, and between mutations there are none. */
  lemma CommitBits(st: State, x: int)
    requires Sane(st, {}) && (x in st.gens || x in st.pages)
    ensures var committed := if x in st.gens then st.gens[x].committed else st.pages[x].committed;
            committed <==> !(Mut(st) && x in Nodes(Sub'(st.tree, st.working)))
  {
    hide Inv, Shaped, Items, Nodes, Gens, Sub;
    SaneTop(st, {});
    if x in st.gens {
      if Mut(st) { WorkingGen(st, x); }
    } else if Mut(st) {
      WorkingNodes(st, x);
      WorkingKinds(st, x);
      WorkingPage(st, {}, x);
    } else {
      AllCommitted(st);
    }
  }

  /** Between mutations every page is committed, and some page is at home. */
  lemma AllCommitted(st: State)
    requires Sane(st, {}) && !Mut(st)
    ensures forall a :: a in st.pages ==> st.pages[a].committed && st.pages[a].realAddr in Homes(st.pages)
  {
    HeadIds(st);
    var v := View(st);
    forall a | a in st.pages ensures st.pages[a].committed {
      PageHasEntry(st, {}, a);
      var k :| PageItem(a, k) in Items(st.tree, 0) && Entry(k, a) in v.order;
      var i :| 0 <= i < |v.order| && v.order[i] == Entry(k, a);
      assert v.mem[v.order[i].loc].committed;
    }
    assert forall a :: a in v.mem ==> HomedAt(v.mem, a);
  }

  lemma NoMismatch(st: State)
    requires Sane(st, {}) && Mut(st)
    ensures FirstHit(Items(Sub'(st.tree, st.working), 0), MismatchOf(st.gens, st.last)).None?
  {
    var items, f := Items(Sub'(st.tree, st.working), 0), MismatchOf(st.gens, st.last);
    GenAt(st, {}, st.working);
    if FirstHit(items, f).Some? {
      var i := HitAt(items, f);
      WorkingItems(st, {}, items[i]);
      ItemsKinds(Sub(st.tree, st.working), 0, st.gens, st.pages.Keys);
    }
  }

  /** The walk finds a page of the working generation that fits, if there is one. */
  lemma FitHit(st: State, size: int)
    requires Sane(st, {}) && Mut(st)
    ensures var h := FirstHit(Items(Sub'(st.tree, st.working), 0), FitOf(st.pages, size));
            if h.Some? then h.value in st.pages && !st.pages[h.value].committed && CanFit(st.pages[h.value], h.value, size)
            else forall a :: a in st.pages && !st.pages[a].committed ==> !CanFit(st.pages[a], a, size)
  {
    var items, f := Items(Sub'(st.tree, st.working), 0), FitOf(st.pages, size);
    GenAt(st, {}, st.working);
    if FirstHit(items, f).Some? {
      var i := HitAt(items, f);
      ItemsKinds(Sub(st.tree, st.working), 0, st.gens, st.pages.Keys);
      WorkingItems(st, {}, items[i]);
    } else {
      NoHit(items, f);
      forall a | a in st.pages && !st.pages[a].committed ensures !CanFit(st.pages[a], a, size) {
        WorkingPage(st, {}, a);
        var j :| 0 <= j < |items| && items[j] == PageItem(a, st.last);
        assert f(items[j].at).None?;
      }
    }
  }

  // ---------------------------------------------------------- lists

  /** The maps that pages_in_gen lists, by the order of the versions. */
  function HomeMaps(order: seq<Entry>, pages: map<int, Page>): seq<Map>
    decreases order
  {
    if order == [] then [] else HomeMapsOf(pages)(order[0].loc) + HomeMaps(order[1..], pages)
  }

  lemma {:induction false} GatherHomeMaps(items: seq<Item>, pages: map<int, Page>)
    requires forall i :: 0 <= i < |items| && items[i].GenItem? ==> items[i].at !in pages
    ensures Gather(items, HomeMapsOf(pages)) == HomeMaps(PagesOf(items), pages)
    decreases items
  {
    if items != [] {
      GatherHomeMaps(items[1..], pages);
      var e := Entry(items[0].id, items[0].at);
      var rest := PagesOf(items[1..]);
      if items[0].PageItem? {
        assert ([e] + rest)[0] == e && ([e] + rest)[1..] == rest;
      } else {
        assert [] + rest == rest;
        assert HomeMapsOf(pages)(items[0].at) == [];
      }
    }
  }

  lemma HomesGathered(st: State)
    requires Shaped(st, {})
    ensures HomeList(st.pages, Gather(Items(st.tree, 0), HomeMapsOf(st.pages)))
  {
    var items, f := Items(st.tree, 0), HomeMapsOf(st.pages);
    var ms := Gather(items, f);
    forall i | 0 <= i < |ms|
      ensures ms[i].start in st.pages && ms[i] == PageMap(st.pages, ms[i].start, false)
           && st.pages[ms[i].start].realAddr == ms[i].start && st.pages[ms[i].start].committed
    {
      Gathered(items, f, ms[i]);
    }
    forall a | a in st.pages && st.pages[a].realAddr == a && st.pages[a].committed
      ensures PageMap(st.pages, a, false) in ms
    {
      PageHasEntry(st, {}, a);
      var k :| PageItem(a, k) in items && Entry(k, a) in View(st).order;
      var n :| 0 <= n < |items| && items[n] == PageItem(a, k);
      Gathered(items, f, PageMap(st.pages, a, false));
      assert PageMap(st.pages, a, false) in f(items[n].at);
    }
  }

  lemma NodesGathered(t: Node)
    ensures (set x | x in Gather(Items(t, 0), NodeOf())) == Nodes(t)
  {
    var items, f := Items(t, 0), NodeOf();
    ItemsAreNodes(t, 0);
    forall x ensures x in Gather(items, f) <==> x in Nodes(t) {
      Gathered(items, f, x);
      if x in Nodes(t) {
        NodesInItems(t, 0, x);
        var k :| (if x in Gens(t) then GenItem(x, k) else PageItem(x, k)) in items;
        var i :| 0 <= i < |items| && items[i].at == x;
        assert x in f(items[i].at);
      }
    }
  }

  /** The walk knows which nodes are generations above k. */
  lemma {:induction false} KnowsRep(gens: map<int, Generation>, pages: set<int>, t: Node, k: int)
    requires Rep(gens, pages, t)
    ensures Knows(t, Above(gens, k), IsGen(gens), k)
    decreases t, 1
  {
    if t.Gen? { KnowsRepAll(gens, pages, t.kids, k); }
  }

  lemma {:induction false} KnowsRepAll(gens: map<int, Generation>, pages: set<int>, ks: seq<Node>, k: int)
    requires RepAll(gens, pages, ks)
    ensures KnowsAll(ks, Above(gens, k), IsGen(gens), k)
    decreases ks, 0
  {
    if ks != [] {
      KnowsRep(gens, pages, ks[0], k);
      KnowsRepAll(gens, pages, ks[1..], k);
    }
  }

  // ---------------------------------------------------------- room for a child

  /** From st to st' at most room was made below the working node; there is a free
      slot in it. */
  ghost predicate Roomy(st: State, loose: set<int>, st': State) {
    && Sane(st', loose) && st' == st.(gens := st'.gens, tree := st'.tree) && View(st') == View(st) && st'.tree.at == st.tree.at
    && st.working in Gens(st.tree) && st.working in Gens(st'.tree) && |Sub(st'.tree, st.working).kids| < GENERATION_CHILDREN
    && EndOf(st'.tree, st.working) == EndOf(st.tree, st.working)
    && (Tail(st) ==> Tail(st'))
    && (forall g :: g in st.gens && g != st.working ==> g in st'.gens && st'.gens[g] == st.gens[g])
  }

  /** The working node has no free slot. */
  ghost predicate WorkingFull(st: State) {
    var sub := Sub'(st.tree, st.working); sub.Gen? && |sub.kids| == GENERATION_CHILDREN
  }

  /** The placement once there is room in the working node. */
  ghost function RoomSpace(st: State, sp: Space): (r: Space)
    requires sp.lastPage in sp.extent
    ensures r.lastPage in r.extent
  {
    if WorkingFull(st) then AfterGen(sp) else sp
  }

  /** The placement after a trap on a page of n physical pages. */
  ghost function TrapSpace(st: State, sp: Space, n: int): Space
    requires sp.lastPage in sp.extent
  {
    RoomSpace(st, AfterPage(sp, n))
  }

  /** What the walk for a free slot below the working node tells. */
  lemma WorkingSlotFound(st: State, loose: set<int>)
    requires Sane(st, loose) && Mut(st)
    ensures st.working in st.gens && st.working in Gens(st.tree) && Rep(st.gens, st.pages.Keys, Sub'(st.tree, st.working))
    ensures Sub'(st.tree, st.working).at == st.working
    ensures var h := FirstHit(Items(Sub'(st.tree, st.working), 0), FreeSlotOf(st.gens));
            if h.Some? then h.value == (st.working, |Sub'(st.tree, st.working).kids|) && Roomy(st, loose, st) && !WorkingFull(st)
            else |Sub(st.tree, st.working).kids| == GENERATION_CHILDREN && WorkingFull(st)
  {
    hide Inv, Rep, Kept, Tipped, FirstHit, Items, PagesOf;
    GenAt(st, loose, st.working);
    FreeSlotHit(st, loose, st.working);
    TipSlot(st, loose, st.working);
  }

  lemma RoomMade(st: State, loose: set<int>, child: int, st': State)
    requires Sane(st, loose) && Mut(st) && MadeRoom(st, loose, st.working, child, st')
    ensures Roomy(st, loose, st')
  {
    hide Inv, Rep, Kept, Tipped, Items, PagesOf, Before, Sub, EndOf;
    WorkingIsTip(st, loose);
  }

  lemma WorkingIsTip(st: State, loose: set<int>)
    requires Sane(st, loose) && Mut(st)
    ensures st.last in st.tops && st.tops[st.last] == st.working && Tipped(st.tree, st.working, st.last)
  {
  }

  /** What the walks of handle_segv find: the page and the segment that have the
      address, and the slot of that page. */
  lemma FaultFound(st: State, t: seq<Map>, sp: Space, ro: set<int>, addr: int)
    requires Sane(st, {}) && ReadyFor(t, sp, st.pages, ro)
    ensures Rep(st.gens, st.pages.Keys, st.tree)
    ensures var h := FirstHit(Items(st.tree, 0), PageAtOf(st.pages, addr));
            match HitPage(st.pages, addr)
            case None => h.None?
            case Some(a) => h == Some((a, SegmentAt(st.pages[a], addr, 0)))
    ensures var p := HitPage(st.pages, addr);
            p.Some? ==>
              var h := FirstHit(Items(st.tree, 0), ParentOf(st.gens, p.value));
              p.value != NULL && h.Some? && h.value.0 in st.gens && Slot(st.gens, h.value.0, h.value.1, p.value)
  {
    PlacedPages(sp, st.pages);
    PageSearch(st, {}, sp.size, addr);
    RootIsGen(st);
    var p := HitPage(st.pages, addr);
    if p.Some? {
      ParentHit(st, {}, p.value);
      PagesAreNodes(st, {});
    }
  }

  lemma RootIsGen(st: State)
    requires Sane(st, {})
    ensures st.tree.at in st.gens && forall a :: a in st.pages ==> a in Nodes(st.tree) && a != st.tree.at
  {
  }

  lemma SubPrime(t: Node, g: int)
    ensures g in Gens(t) ==> Sub'(t, g) == Sub(t, g)
  {
  }

  lemma MutWorks(st: State)
    requires Mut(st)
    ensures st.working == if Mut(st) then st.working else st.committed
  {
  }

  /** After room was made the slot behind the children is free. */
  lemma RoomySane(st: State, loose: set<int>, st': State)
    requires Roomy(st, loose, st')
    ensures Sane(st', loose) && (Mut(st) ==> Mut(st')) && st'.working == st.working
    ensures st.working in Gens(st'.tree) && |Sub(st'.tree, st.working).kids| < GENERATION_CHILDREN
  {
  }

  lemma CopiedFacts(st: State, a: int, copy: int, st1: State)
    requires Copied(st, a, copy, st1)
    ensures Sane(st1, {copy}) && a in st.pages && copy !in st.pages && copy != NULL && a < copy && st1.gens == st.gens
    ensures st1.pages == st.pages[copy := Moved(st.pages[a], copy - a)] && (Mut(st) ==> Mut(st1))
    ensures st1.tree.at == st.tree.at && TipEnd(st1) == TipEnd(st)
    ensures WorkingFull(st1) == WorkingFull(st)
  {
  }

  /** The slot of a committed page is not touched when room is made. */
  lemma SlotStays(st: State, st1: State, loose: set<int>, st2: State, p: int, i: int, a: int)
    requires Sane(st1, loose) && Mut(st1) && Roomy(st1, loose, st2) && st1.gens == st.gens
    requires a in st1.pages && a !in loose && st1.pages[a].committed && a != NULL && Slot(st.gens, p, i, a)
    ensures p in st2.gens && Slot(st2.gens, p, i, a) && Sane(st2, loose) && View(st2) == View(st1) && Mut(st2)
    ensures st2.tree.at == st1.tree.at && (Tail(st1) ==> Tail(st2)) && st2.pages == st1.pages
    ensures st2.working in Gens(st2.tree) && |Sub(st2.tree, st2.working).kids| < GENERATION_CHILDREN && TipEnd(st2) == TipEnd(st1)
  {
    hide Inv, Shaped, Headed, Rep, Items, PagesOf, EndOf, After;
    if p == st1.working { WorkingSlot(st1, loose, i, a); }
  }

  lemma TrapPages(st: State, p: int, i: int, a: int, copy: int)
    requires a in st.pages && copy in st.pages && p in st.gens && Slot(st.gens, p, i, a) && st.working in Gens(st.tree)
    requires st.working in st.gens && |st.gens[st.working].c| == GENERATION_CHILDREN && |Sub(st.tree, st.working).kids| < GENERATION_CHILDREN
    ensures AfterTrap(st, p, i, a, copy).pages == st.pages[copy := st.pages[copy].(committed := true)][a := st.pages[a].(committed := false)]
    ensures AfterTrap(st, p, i, a, copy).working == st.working && AfterTrap(st, p, i, a, copy).committed == st.committed
  {
  }

  lemma DoneSane(st: State, l: Step, st': State)
    requires Done(st, l, st')
    ensures Sane(st', {}) && st'.tree.at == st.tree.at && Taken(View(st), l, View(st'))
  {
  }
}
