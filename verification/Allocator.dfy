/** What an evaluation does to the heap: stores of the interpreter, and snap_malloc,
    snap_free and snap_realloc. */
module Allocator {
  import opened Layout
  import opened Maps
  import opened Carving
  import opened Protections
  import opened Pages
  import opened VersionStore
  import opened History
  import opened Trees
  import opened Forest
  import opened Pointers
  import opened Walks
  import opened Placement
  import opened Guards
  import opened HeapStates
  import opened Callbacks
  import opened Evolution
  import opened Sights
  import opened Heaps

  // ------------------------------------------------------------ stores

  /** A store faults exactly if it hits a committed page, except at the bytes that
      leak. */
  lemma FaultsIfCommitted(t: seq<Map>, os: int -> bool, sp: Space, pages: map<int, Page>, ro: set<int>, a: int, i: int, addr: int)
    requires ReadyFor(t, sp, pages, ro) && WellFormed(t) && Lenient(t, os) && Barrier(pages, ro)
    requires a in pages && pages[a].realAddr == a && Tiled(pages[a], a) && 0 <= i < |pages[a].c|
    requires pages[a].c[i] <= addr < pages[a].c[i] + SEGMENT_HEADER + pages[a].segs[i].size
    ensures os(addr) <==> !pages[a].committed || addr in Leaking(t, os)
  {
    PlacedPages(sp, pages);
    SegmentInPage(pages[a], a, i);
    assert Covers(pages, a, addr);
    BarrierBytes(t, pages, ro, sp.size, addr);
    if b :| Covers(pages, b, addr) && pages[b].realAddr == b && pages[b].committed { OneCover(pages, sp.size, a, b, addr); }
  }

  /** Bytes of a page do not matter to the placement, the table and the barrier. */
  lemma SetReady(t: seq<Map>, sp: Space, pages: map<int, Page>, ro: set<int>, a: int, p: Page)
    requires ReadyFor(t, sp, pages, ro) && a in pages && Grows(pages[a], p)
    ensures ReadyFor(t, sp, pages[a := p], ro) && Extents(pages[a := p]) == Extents(pages)
    ensures Barrier(pages, ro) ==> Barrier(pages[a := p], ro)
  {
    ReadySame(t, sp, pages, ro, pages[a := p]);
    assert Extents(pages[a := p]) == Extents(pages);
  }

  /** The bytes of page a are rewritten, without a fault. */
  method SetPage(h: Heap, a: int, p: Page)
    requires h.Valid() && a in h.pages && Grows(h.pages[a], p) && Tiled(p, a) && (h.pages[a].committed ==> h.pages[a].realAddr == a)
    modifies h`pages
    ensures h.Valid() && h.pages == old(h.pages)[a := p] && h.Sp() == old(h.Sp())
    ensures old(Mut(h.St())) ==> Evolved(old(h.St()), [WriteStep(old(h.pages[a]), a, p)], h.St())
  {
    hide ReadyFor, Lenient, Sane, Evolved, Tiled, Grows, Barrier, Extents, WellFormed, Protection.Maps;
    ghost var st := h.St();
    PokeSane(st, a, p);
    if Mut(st) { WriteEvolves(st, a, p); }
    SetReady(h.prot.Maps(), h.Sp(), h.pages, h.ro, a, p);
    ghost var sp := h.Sp();
    h.pages := h.pages[a := p];
    assert h.St() == st.(pages := h.pages);
    assert h.Sp() == sp;
  }

  lemma WriteEvolves(st: State, a: int, p: Page)
    requires Sane(st, {}) && Mut(st) && a in st.pages && Grows(st.pages[a], p) && Tiled(p, a)
    requires st.pages[a].committed ==> st.pages[a].realAddr == a
    ensures Evolved(st, [WriteStep(st.pages[a], a, p)], st.(pages := st.pages[a := p]))
  {
    WriteDone(st, a, p);
    EvolvedOne(st, WriteStep(st.pages[a], a, p), st.(pages := st.pages[a := p]));
  }

  /** Nothing but the commit bit has changed, if at all from set to clear. */
  ghost predicate OnlyBit(p: Page, q: Page) {
    q == p.(committed := q.committed) && (q.committed ==> p.committed)
  }

  /** A byte of the page at a is about to be written: nothing has happened, or one
      trap. */
  ghost predicate Touched(st: State, a: int, ls: seq<Step>, st': State) {
    if ls == [] then st' == st else |ls| == 1 && ls[0].Trap? && ls[0].a == a && Done(st, ls[0], st')
  }

  /** Nothing but commit bits of what was there has changed. */
  ghost predicate Spared(st: State, a: int, ls: seq<Step>, st': State) {
    && Evolved(st, ls, st') && Evaluates(ls) && Mut(st') == Mut(st)
    && (forall b :: b in st.pages ==> b in st'.pages && OnlyBit(st.pages[b], st'.pages[b]))
    && (ls != [] ==> a in st'.pages && !st'.pages[a].committed)
  }

  lemma TouchedSpares(st: State, a: int, ls: seq<Step>, st': State)
    requires Sane(st, {}) && Touched(st, a, ls, st')
    ensures Spared(st, a, ls, st')
  {
    hide Inv, Shaped, Headed, Evolved;
    if ls == [] {
      EvolvedNot(st);
    } else {
      assert ls == [ls[0]];
      EvolvedOne(st, ls[0], st');
      HeadIds(st);
      HeadIds(st');
    }
  }

  lemma SparedBit(st: State, a: int, ls: seq<Step>, st': State)
    requires Spared(st, a, ls, st')
    ensures ls != [] ==> a in st'.pages && !st'.pages[a].committed
  {
  }

  /** How a write into the page at a ends: it goes on if the process can write there;
      otherwise it stops outside a mutation, and ends as the trap does during one. */
  ghost predicate Writes(stop: Stop, writable: bool, mut: bool, sp: Space, pages: map<int, Page>, a: int)
    requires sp.lastPage in sp.extent && a in pages
  {
    if writable then stop == Going else if !mut then stop == OutsideMutation else Traps(stop, sp, pages, a)
  }

  /** The placement after it. */
  ghost function WriteSpace(writable: bool, st: State, sp: Space, a: int): Space
    requires sp.lastPage in sp.extent && a in st.pages
  {
    if writable then sp else TrapSpace(st, sp, st.pages[a].pages)
  }

  /** Before a byte of segment i of the page at a is written, a fault of the
      protection is handled. */
  method Touch(h: Heap, addr: int, ghost a: int, ghost i: int) returns (stop: Stop, ghost ls: seq<Step>)
    requires h.Valid() && a in h.pages && h.pages[a].realAddr == a
    requires 0 <= i < |h.pages[a].c| && i < |h.pages[a].segs|
    requires h.pages[a].c[i] <= addr < h.pages[a].c[i] + SEGMENT_HEADER + h.pages[a].segs[i].size
    modifies h`size, h`lastPage, h`lastGen, h`gens, h`pages, h`tree, h`ro, h.prot`os, h.prot.active`len, h.prot.active.m
    ensures stop == Going ==> Touched(old(h.St()), a, ls, h.St()) && h.Valid()
    ensures stop == Going ==> h.prot.Leaks() <= old(h.prot.Leaks())
    ensures stop == Going ==> (ls == [] <==> old(h.prot.os(addr)))
    ensures stop == Going && old(Mut(h.St())) && addr !in old(h.prot.Leaks()) ==> a in h.pages && !h.pages[a].committed
    ensures Writes(stop, old(h.prot.os(addr)), old(Mut(h.St())), old(h.Sp()), old(h.pages), a) && h.size >= old(h.size)
    ensures stop == Going ==> h.Sp() == WriteSpace(old(h.prot.os(addr)), old(h.St()), old(h.Sp()), a)
  {
    hide ReadyFor, Lenient, Leaking, Sane, Spared, Done, Barrier, WellFormed, Traps;
    ghost var st := h.St();
    SanePages(st, a);
    ReadyPlaced(h.prot.Maps(), h.Sp(), h.pages, h.ro);
    VerdictAt(h.pages, h.size, Mut(st), a, i, addr);
    if Mut(st) { FaultsIfCommitted(h.prot.Maps(), h.prot.os, h.Sp(), h.pages, h.ro, a, i, addr); }
    stop, ls := Going, [];
    if !h.prot.os(addr) {
      ghost var l;
      stop, l := h.HandleSegv(addr);
      if stop != Going { return; }
      ls := [l];
      TouchedSpares(st, a, ls, h.St());
      SparedBit(st, a, ls, h.St());
    }
  }

  /** Segment i of the page at a is replaced by s, with at most one trap before. */
  ghost predicate Rewritten(st: State, a: int, i: int, s: Segment, ls: seq<Step>, st': State) {
    && a in st.pages && a in st'.pages && 0 <= i < |st.pages[a].segs|
    && Reads(Sight(st.pages), a, i, s, Sight(st'.pages)) && |st'.pages| <= |st.pages| + 1
    && OnlyBit(st.pages[a].(segs := st.pages[a].segs[i := s]), st'.pages[a])
    && (forall b :: b in st.pages && b != a ==> b in st'.pages && OnlyBit(st.pages[b], st'.pages[b]))
    && ls != [] && ls[|ls| - 1] == WriteStep(st'.pages[a], a, st'.pages[a])
    && Touched(st, a, ls[..|ls| - 1], st'.(pages := st'.pages[a := st.pages[a].(committed := st'.pages[a].committed)]))
    && (Mut(st) ==> Evolved(st, ls, st') && Evaluates(ls))
    && Mut(st') == Mut(st)
  }

  /** The bytes of a segment are changed in place. */
  lemma ChangedTiled(p: Page, at: int, i: int, s: Segment)
    requires Tiled(p, at) && 0 <= i < |p.segs| && s.size == p.segs[i].size == |s.data|
    ensures Grows(p, p.(segs := p.segs[i := s])) && Tiled(p.(segs := p.segs[i := s]), at)
  {
    forall k | 0 <= k < |p.segs| && k != i ensures |p.segs[k].data| == p.segs[k].size { assert TiledAt(p, at, k); }
    SegmentChanged(p, at, p.(segs := p.segs[i := s]));
  }

  /** The trap is not seen, and adds one page: the copy. */
  lemma TouchedSight(st: State, a: int, ls: seq<Step>, st1: State)
    requires Touched(st, a, ls, st1) && a in st.pages && a in st1.pages
    ensures Sight(st1.pages) == Sight(st.pages) && |st1.pages| <= |st.pages| + 1
    ensures st.pages[a].realAddr == a ==> Sight(st.pages)[a] == st.pages[a].(committed := false)
  {
    hide Sane, Tail;
    if ls != [] {
      TrapUnseen(View(st), ls[0], View(st1));
      TrapCount(View(st), ls[0], View(st1));
    }
  }

  lemma TrapCount(s: Store, l: Step, s': Store)
    requires Taken(s, l, s') && l.Trap?
    ensures |s'.mem| == |s.mem| + 1
  {
    assert s'.mem.Keys == s.mem.Keys + {l.copy};
    assert |s'.mem.Keys| == |s'.mem| && |s.mem.Keys| == |s.mem|;
  }

  lemma RewrittenSight(st: State, a: int, i: int, s: Segment, ls: seq<Step>, st1: State, p: Page)
    requires Touched(st, a, ls, st1) && At(st.pages, a, i) && a in st1.pages && st.pages[a].realAddr == a
    requires p == st.pages[a].(segs := st.pages[a].segs[i := s], committed := st1.pages[a].committed)
    ensures Reads(Sight(st.pages), a, i, s, Sight(st1.pages[a := p])) && |st1.pages[a := p]| <= |st.pages| + 1
  {
    TouchedSight(st, a, ls, st1);
    SightWith(st1.pages, a, p);
    hide Touched, Sight;
    assert st1.pages[a := p].Keys == st1.pages.Keys;
    SameCount(st1.pages[a := p], st1.pages);
  }

  lemma RewrittenIs(st: State, a: int, i: int, s: Segment, ls: seq<Step>, st1: State, p: Page, st': State)
    requires Touched(st, a, ls, st1) && Spared(st, a, ls, st1) && a in st.pages && a in st1.pages && 0 <= i < |st.pages[a].segs|
    requires st.pages[a].realAddr == a && i < |st.pages[a].c|
    requires p == st1.pages[a].(segs := st.pages[a].segs[i := s]) && st' == st1.(pages := st1.pages[a := p])
    requires Mut(st1) ==> Evolved(st1, [WriteStep(p, a, p)], st')
    ensures Rewritten(st, a, i, s, ls + [WriteStep(p, a, p)], st')
  {
    hide Evolved, Touched, Sight, Reads;
    RewrittenSight(st, a, i, s, ls, st1, p);
    assert (ls + [WriteStep(p, a, p)])[..|ls|] == ls;
    assert st1.pages == st'.pages[a := st.pages[a].(committed := p.committed)];
    if Mut(st) { EvolvedThen(st, ls, st1, [WriteStep(p, a, p)], st'); }
  }

  /** The write leaks only if the byte it starts at does. */
  lemma RewrittenLeaks(st: State, addr: int, a: int, i: int, s: Segment, ls: seq<Step>, st': State, bytes: set<int>)
    requires Rewritten(st, a, i, s, ls, st') && a <= addr < a + Bytes(st.pages[a].pages)
    requires st'.pages[a].committed ==> addr in bytes
    ensures LeaksIn(ls, bytes)
  {
    hide Evolved, Done;
    var n := |ls| - 1;
    forall k | 0 <= k < |ls| ensures LeakIn(ls[k], bytes) {
      if k < n { assert ls[k] == ls[..n][k]; }
    }
  }

  lemma TouchedPage(st: State, a: int, ls: seq<Step>, st': State)
    requires Sane(st, {}) && Touched(st, a, ls, st') && a in st.pages
    ensures a in st'.pages && st'.pages[a] == st.pages[a].(committed := st'.pages[a].committed) && Sane(st', {})
    ensures Spared(st, a, ls, st')
  {
    TouchedSpares(st, a, ls, st');
    hide Touched, Inv, Shaped, Headed;
  }

  /** Bytes of segment i of the page at home at a are written, the first of them at
      addr; the segment reads s afterwards. */
  method Rewrite(h: Heap, addr: int, a: int, i: int, s: Segment) returns (stop: Stop, ghost ls: seq<Step>)
    requires h.Valid() && a in h.pages && h.pages[a].realAddr == a
    requires 0 <= i < |h.pages[a].c| && i < |h.pages[a].segs| && s.size == h.pages[a].segs[i].size == |s.data|
    requires h.pages[a].c[i] <= addr < h.pages[a].c[i] + SEGMENT_HEADER + h.pages[a].segs[i].size
    modifies h`size, h`lastPage, h`lastGen, h`gens, h`pages, h`tree, h`ro, h.prot`os, h.prot.active`len, h.prot.active.m
    ensures stop == Going ==> h.Valid() && Rewritten(old(h.St()), a, i, s, ls, h.St())
    ensures stop == Going ==> h.prot.Leaks() <= old(h.prot.Leaks())
    ensures stop == Going && old(Mut(h.St())) ==> LeaksIn(ls, old(h.prot.Leaks()))
    ensures stop == Going ==> (|ls| == 1 <==> old(h.prot.os(addr)))
    ensures Writes(stop, old(h.prot.os(addr)), old(Mut(h.St())), old(h.Sp()), old(h.pages), a) && h.size >= old(h.size)
    ensures stop == Going ==> h.Sp() == WriteSpace(old(h.prot.os(addr)), old(h.St()), old(h.Sp()), a)
  {
    hide WriteSpace, Writes, ReadyFor, Lenient, Leaking, Sane, Touched, Spared, Evolved, Barrier, Extents, Tiled, Grows,
      Rewritten, Protection.Maps, Protection.Leaks;
    ghost var st := h.St();
    PageSpan(st, addr, a, i);
    stop, ls := Touch(h, addr, a, i);
    if stop != Going { return; }
    ghost var st1 := h.St();
    TouchedPage(st, a, ls, st1);
    SanePages(st1, a);
    var p := h.pages[a].(segs := h.pages[a].segs[i := s]);
    ChangedTiled(h.pages[a], a, i, s);
    SetPage(h, a, p);
    RewrittenIs(st, a, i, s, ls, st1, p, h.St());
    TouchedLength(st, a, ls, st1);
    ls := ls + [WriteStep(p, a, p)];
    if Mut(st) { RewrittenLeaks(st, addr, a, i, s, ls, h.St(), old(h.prot.Leaks())); }
  }

  lemma TouchedLength(st: State, a: int, ls: seq<Step>, st': State)
    requires Touched(st, a, ls, st')
    ensures |ls| <= 1
  {
  }

  lemma PageSpan(st: State, addr: int, a: int, i: int)
    requires Sane(st, {}) && a in st.pages && 0 <= i < |st.pages[a].c| && i < |st.pages[a].segs|
    requires st.pages[a].c[i] <= addr < st.pages[a].c[i] + SEGMENT_HEADER + st.pages[a].segs[i].size
    ensures a <= addr < a + Bytes(st.pages[a].pages)
  {
    SanePages(st, a);
    SegmentInPage(st.pages[a], a, i);
  }

  lemma DataLength(st: State, a: int, i: int)
    requires Sane(st, {}) && a in st.pages && 0 <= i < |st.pages[a].segs|
    ensures |st.pages[a].segs[i].data| == st.pages[a].segs[i].size > 0 && |st.pages[a].c| == |st.pages[a].segs|
  {
    assert Tiled(st.pages[a], a);
    assert TiledAt(st.pages[a], a, i);
  }

  /** Byte o of the payload of segment i of the page at a is v. No other byte of that
      payload, no other segment of any page, and no place or size has changed. */
  ghost predicate OnlyByte(pages: map<int, Page>, a: int, i: int, o: int, v: Byte, pages': map<int, Page>) {
    && At(pages, a, i) && At(pages', a, i) && 0 <= o < |pages[a].segs[i].data|
    && (var (s, s') := (pages[a].segs[i], pages'[a].segs[i]);
        && |s'.data| == |s.data| && s'.data[o] == v && s'.used == s.used && s'.size == s.size
        && forall q :: 0 <= q < |s.data| && q != o ==> s'.data[q] == s.data[q])
    && OthersStay(pages, a, i, pages')
  }

  /** No segment but i of the page at a has changed, and none has moved. */
  ghost predicate OthersStay(pages: map<int, Page>, a: int, i: int, pages': map<int, Page>) {
    forall b :: b in pages ==>
      && b in pages' && |pages[b].c| <= |pages'[b].c| && |pages[b].segs| <= |pages'[b].segs| && pages'[b].realAddr == pages[b].realAddr
      && (forall j :: 0 <= j < |pages[b].c| ==> pages'[b].c[j] == pages[b].c[j])
      && forall j :: 0 <= j < |pages[b].segs| && (b != a || j != i) ==> pages'[b].segs[j] == pages[b].segs[j]
  }

  lemma RewrittenOthers(st: State, a: int, i: int, s: Segment, ls: seq<Step>, st': State)
    requires Rewritten(st, a, i, s, ls, st')
    ensures OthersStay(st.pages, a, i, st'.pages) && st'.pages[a].segs[i] == s
  {
    hide Evolved, Touched, Sight;
  }

  lemma RewrittenByte(st: State, a: int, i: int, o: int, v: Byte, ls: seq<Step>, st': State)
    requires At(st.pages, a, i) && 0 <= o < |st.pages[a].segs[i].data|
    requires Rewritten(st, a, i, Poke(st.pages[a], i, o, v).segs[i], ls, st')
    ensures OnlyByte(st.pages, a, i, o, v, st'.pages)
  {
    RewrittenOthers(st, a, i, Poke(st.pages[a], i, o, v).segs[i], ls, st');
    hide Rewritten;
  }

  /** A store of the interpreter to byte o of the payload of segment i of the page
      that is at home at a. */
  method StoreByte(h: Heap, a: int, i: int, o: int, v: Byte) returns (stop: Stop, ghost ls: seq<Step>)
    requires h.Valid() && a in h.pages && h.pages[a].realAddr == a
    requires 0 <= i < |h.pages[a].c| && i < |h.pages[a].segs| && 0 <= o < h.pages[a].segs[i].size == |h.pages[a].segs[i].data|
    modifies h`size, h`lastPage, h`lastGen, h`gens, h`pages, h`tree, h`ro, h.prot`os, h.prot.active`len, h.prot.active.m
    ensures stop == Going ==> h.Valid() && Rewritten(old(h.St()), a, i, old(Poke(h.pages[a], i, o, v).segs[i]), ls, h.St())
    ensures stop == Going ==> h.prot.Leaks() <= old(h.prot.Leaks())
    ensures stop == Going && old(Mut(h.St())) ==> LeaksIn(ls, old(h.prot.Leaks()))
    ensures stop == Going ==> OnlyByte(old(h.pages), a, i, o, v, h.pages)
    ensures stop == Going ==> (|ls| == 1 <==> old(h.prot.os(h.pages[a].c[i] + SEGMENT_HEADER + o)))
    ensures Writes(stop, old(h.prot.os(h.pages[a].c[i] + SEGMENT_HEADER + o)), old(Mut(h.St())), old(h.Sp()), old(h.pages), a)
    ensures stop == Going ==>
              h.Sp() == WriteSpace(old(h.prot.os(h.pages[a].c[i] + SEGMENT_HEADER + o)), old(h.St()), old(h.Sp()), a)
    ensures h.size >= old(h.size)
  {
    hide WriteSpace, Writes, ReadyFor, Lenient, Leaking, Sane, Evolved, Barrier, Extents, Rewritten, Protection.Maps,
      Protection.Leaks;
    ghost var st := h.St();
    stop, ls := Rewrite(h, h.pages[a].c[i] + SEGMENT_HEADER + o, a, i, Poke(h.pages[a], i, o, v).segs[i]);
    if stop == Going { RewrittenByte(st, a, i, o, v, ls, h.St()); }
  }

  // ------------------------------------------------------------ snap_malloc

  /** A page of the working generation that fits a payload of n bytes. */
  ghost predicate SomeFit(pages: map<int, Page>, n: int) {
    exists a :: a in pages && !pages[a].committed && CanFit(pages[a], a, n)
  }

  /** The pages with room for n bytes at a: as they are if some page of the working
      generation fits, and otherwise with a fresh page. */
  function Roomed(pages: map<int, Page>, n: int, a: int): map<int, Page> {
    if a in pages then pages else pages[a := FreshPage(a, n / PAGE_SIZE + 1)]
  }

  /** The first page below the working generation that fits n bytes. */
  ghost function FirstFit(st: State, n: int): Option<int> {
    FirstHit(Items(Sub'(st.tree, st.working), 0), FitOf(st.pages, n))
  }

  /** A page of the working generation at a has room for n bytes; a fresh page was
      added exactly if no page had. */
  ghost predicate Offered(st: State, n: int, a: int, ls: seq<Step>, st': State) {
    && Evolved(st, ls, st') && Evaluates(ls) && Sealed(ls) && Mut(st') && Intact(st.pages, st'.pages)
    && a in st'.pages && st'.pages[a].realAddr == a && !st'.pages[a].committed && CanFit(st'.pages[a], a, n)
    && st'.pages == Roomed(st.pages, n, a)
    && (if SomeFit(st.pages, n) then a in st.pages && FirstFit(st, n) == Some(a) else a !in st.pages && !Misfit(n))
  }

  lemma IntactSame(pages: map<int, Page>)
    ensures Intact(pages, pages)
  {
  }

  /** An uncommitted page is at home. */
  lemma WorkingHome(st: State, a: int)
    requires Sane(st, {}) && Mut(st) && a in st.pages && !st.pages[a].committed
    ensures st.pages[a].realAddr == a
  {
    PageHasEntry(st, {}, a);
    var v := View(st);
    var k :| PageItem(a, k) in Items(st.tree, 0) && Entry(k, a) in v.order;
    var i :| 0 <= i < |v.order| && v.order[i] == Entry(k, a);
    HeadIds(st);
    assert v.order[i].gen == v.working && Real(v, i) == v.order[i].loc;
  }

  lemma OfferedOld(st: State, n: int, a: int)
    requires Sane(st, {}) && Mut(st) && FirstFit(st, n) == Some(a)
    ensures Offered(st, n, a, [], st)
  {
    hide Evolved, FirstHit, Items, Sub';
    FitHit(st, n);
    EvolvedNot(st);
    IntactSame(st.pages);
    WorkingHome(st, a);
  }

  ghost predicate FreshMade(st: State, at: int, n: int, l: Step, st': State) {
    && Done(st, l, st') && l.NewPage? && Mut(st') && at !in st.pages && st'.pages == st.pages[at := FreshPage(at, n)]
  }

  lemma OfferedFresh(st: State, n: int, at: int, l: Step, st': State)
    requires Sane(st, {}) && Mut(st) && n > 0 && FreshMade(st, at, n / PAGE_SIZE + 1, l, st') && !SomeFit(st.pages, n)
    requires CanFit(FreshPage(at, n / PAGE_SIZE + 1), at, n)
    ensures Offered(st, n, at, [l], st')
  {
    hide Evolved, Sane;
    EvolvedOne(st, l, st');
    FreshFits(at, n);
  }

  /** The fresh page's address is written into the free slot. */
  method PlantPage(h: Heap, at: int, index: int)
    requires h.Ready() && h.working in h.gens && h.working in Gens(h.tree) && |h.gens[h.working].c| == GENERATION_CHILDREN
    requires index == |Sub(h.tree, h.working).kids| < GENERATION_CHILDREN
    modifies h`gens, h`tree
    ensures h.Ready() && h.tree == AddKid(old(h.tree), h.working, Leaf(at)) && h.Sp() == old(h.Sp())
    ensures h.gens == old(h.gens)[h.working := old(h.gens[h.working].(c := h.gens[h.working].c[index := at]))]
  {
    hide ReadyFor, Protection.Valid, Protection.Maps, AddKid;
    ghost var sp := h.Sp();
    h.gens := h.gens[h.working := h.gens[h.working].(c := h.gens[h.working].c[index := at])];
    h.tree := AddKid(h.tree, h.working, Leaf(at));
    assert h.gens.Keys == sp.gens;
    assert h.Sp() == sp;
  }

  lemma PageMade(st: State, st1: State, at: int, n: int)
    requires Sane(st, {}) && Mut(st) && Roomy(st, {}, st1) && at !in st1.gens && at !in st1.pages && at != NULL && n >= 1
    ensures st1.working in Gens(st1.tree) && st1.working in st1.gens && |st1.gens[st1.working].c| == GENERATION_CHILDREN
    ensures |Sub(st1.tree, st1.working).kids| < GENERATION_CHILDREN
    ensures st1.pages == st.pages
    ensures var st' := AfterNewPage(st1, at, n);
            && FreshMade(st, at, n, NewPage(at, n, EndOf(st1.tree, st1.working)), st')
            && Sane(st', {}) && st'.tree.at == st.tree.at
  {
    hide Inv, Shaped, Headed, EndOf, Items, PagesOf, Tipped, After, Before, Kept, Sub, Gens, Nodes;
    NewPageSane(st1, at, n);
    AddKidAt(st1.tree, st1.working, Leaf(at));
  }

  /** Whether the heap can grow for a fresh page of n physical pages, behind the generation
      that is added if the working node is full. */
  ghost function RoomStop(st: State, sp: Space, n: int): (r: Stop)
    requires sp.lastPage in sp.extent
    ensures r in {Going, ShortGrowth}
  {
    PageStop(RoomSpace(st, sp), n)
  }

  /** How looking for a page that fits n bytes ends. */
  ghost function FitStop(st: State, sp: Space, n: int): Stop
    requires sp.lastPage in sp.extent
  {
    if SomeFit(st.pages, n) then Going
    else if RoomStop(st, sp, n / PAGE_SIZE + 1) != Going then ShortGrowth
    else if Misfit(n) then NoFit
    else Going
  }

  /** The placement after it. */
  ghost function FitSpace(st: State, sp: Space, n: int): Space
    requires sp.lastPage in sp.extent
  {
    if SomeFit(st.pages, n) then sp else AfterPage(RoomSpace(st, sp), n / PAGE_SIZE + 1)
  }

  /** new_page and the write of its address into the slot. */
  method AddPage(h: Heap, n: int) returns (stop: Stop, at: int, ghost l: Step)
    requires h.Valid() && Mut(h.St()) && n >= 1
    modifies h`size, h`lastPage, h`lastGen, h`gens, h`pages, h`tree, h.prot`os, h.prot.active.m
    ensures stop == RoomStop(old(h.St()), old(h.Sp()), n) && h.size >= old(h.size)
    ensures stop == ShortGrowth ==> Large(n, old(h.size))
    ensures stop == Going ==> h.Valid() && FreshMade(old(h.St()), at, n, l, h.St())
    ensures stop == Going ==> h.Sp() == AfterPage(RoomSpace(old(h.St()), old(h.Sp())), n)
    ensures stop == Going ==> h.prot.Leaks() <= old(h.prot.Leaks())
  {
    hide ReadyFor, Lenient, Leaking, Sane, FreshMade, Roomy, Barrier, Gens, Sub, Sub', View, AddKid, RoomSpace,
      PageStop, AfterGen, AfterPage, Large, Extents, WellFormed, Protection.Leaks, EndOf;
    ghost var st := h.St();
    var index;
    at, l := 0, Begin;
    ReadyRo(h.prot.Maps(), h.Sp(), h.pages, h.ro);
    index := h.MakeRoom({});
    ghost var st1 := h.St();
    PageStuck(h.prot.Maps(), h.Sp(), h.pages, h.ro, n);
    stop, at := h.NewPage(n);
    if stop != Going { return; }
    PageMade(st, st1, at, n);
    SubPrime(st1.tree, st1.working);
    l := NewPage(at, n, EndOf(st1.tree, st1.working));
    PlantPage(h, at, index);
    assert h.St() == AfterNewPage(st1, at, n);
    BarrierAdded(st.pages, h.ro, at, n);
  }

  lemma BarrierAdded(pages: map<int, Page>, ro: set<int>, at: int, n: int)
    requires Barrier(pages, ro) && at !in pages && at !in ro
    ensures Barrier(pages[at := FreshPage(at, n)], ro)
  {
  }

  /** The second walk for a page that fits can only find the fresh page. */
  lemma FreshFound(st: State, n: int, at: int, l: Step, st': State, fit: Option<int>)
    requires Sane(st, {}) && Mut(st) && n > 0 && FreshMade(st, at, n / PAGE_SIZE + 1, l, st') && !SomeFit(st.pages, n)
    requires fit == FirstHit(Items(Sub'(st'.tree, st'.working), 0), FitOf(st'.pages, n))
    ensures Sane(st', {}) && Mut(st')
    ensures if fit.Some? then fit == Some(at) && Offered(st, n, at, [l], st') && !Misfit(n) else Misfit(n)
  {
    hide Inv, Shaped, Headed, FirstHit, Items, Sub', View, Taken, Evolved;
    FitHit(st', n);
    FreshFits(at, n);
    if fit.Some? { OfferedFresh(st, n, at, l, st'); }
  }

  lemma FitExists(st: State, n: int)
    requires Sane(st, {}) && Mut(st)
    ensures SomeFit(st.pages, n) <==> FirstFit(st, n).Some?
  {
    FitHit(st, n);
    hide FirstHit, Items, CanFit;
  }

  /** A fresh page, and the second walk for one that fits. */
  method FitFresh(h: Heap, n: int) returns (stop: Stop, a: int, ghost ls: seq<Step>)
    requires h.Valid() && Mut(h.St()) && n > 0 && !SomeFit(h.pages, n)
    modifies h`size, h`lastPage, h`lastGen, h`gens, h`pages, h`tree, h.prot`os, h.prot.active.m
    ensures stop == FitStop(old(h.St()), old(h.Sp()), n) && h.size >= old(h.size)
    ensures stop == ShortGrowth ==> Large(n / PAGE_SIZE + 1, old(h.size))
    ensures stop == Going ==> h.Valid() && Offered(old(h.St()), n, a, ls, h.St()) && h.Sp() == FitSpace(old(h.St()), old(h.Sp()), n)
    ensures stop == Going ==> h.prot.Leaks() <= old(h.prot.Leaks())
  {
    hide Heap.Valid, RoomStop, Sane, Roomy, FreshMade, Offered, Gens, Sub, Sub', Rep, FirstHit, Items, View,
      Protection.Leaks, Misfit, SomeFit, Large, RoomSpace, AfterPage, Extents;
    h.ValidHolds();
    ghost var st := h.St();
    a, ls := 0, [];
    ghost var l;
    var at;
    stop, at, l := AddPage(h, n / PAGE_SIZE + 1);
    if stop != Going { return; }
    h.ValidHolds();
    FreshFound(st, n, at, l, h.St(), FirstHit(Items(Sub'(h.tree, h.working), 0), FitOf(h.pages, n)));
    WorkingSlotFound(h.St(), {});
    var fit := h.Search(h.working, FitOf(h.pages, n), Sub'(h.tree, h.working));
    if fit.None? { return NoFit, a, ls; }
    a, ls := fit.value, [l];
  }

  /** first_page_fit below the working generation, and a fresh page if it finds
      none. */
  method FindFit(h: Heap, n: int) returns (stop: Stop, a: int, ghost ls: seq<Step>)
    requires h.Valid() && Mut(h.St()) && n > 0
    modifies h`size, h`lastPage, h`lastGen, h`gens, h`pages, h`tree, h.prot`os, h.prot.active.m
    ensures stop == FitStop(old(h.St()), old(h.Sp()), n) && h.size >= old(h.size)
    ensures stop == ShortGrowth ==> Large(n / PAGE_SIZE + 1, old(h.size))
    ensures stop == Going ==> h.Valid() && Offered(old(h.St()), n, a, ls, h.St()) && h.Sp() == FitSpace(old(h.St()), old(h.Sp()), n)
    ensures stop == Going ==> h.prot.Leaks() <= old(h.prot.Leaks())
  {
    hide Heap.Valid, RoomStop, Sane, Roomy, FreshMade, Offered, Gens, Sub, Sub', Rep, FirstHit, Items, View,
      Protection.Leaks, Misfit, SomeFit, Large, RoomSpace, AfterPage, Extents;
    h.ValidHolds();
    ghost var st := h.St();
    FitExists(st, n);
    WorkingSlotFound(st, {});
    stop, a, ls := Going, 0, [];
    var fit := h.Search(h.working, FitOf(h.pages, n), Sub'(h.tree, h.working));
    if fit.Some? {
      a := fit.value;
      OfferedOld(st, n, a);
      return;
    }
    stop, a, ls := FitFresh(h, n);
  }

  /** The payload of segment i of the page at a was allocated: n bytes at p. */
  ghost predicate Given(st: State, p: int, n: int, a: int, i: int, junk: seq<Byte>, ls: seq<Step>, st': State) {
    && Evolved(st, ls, st') && Evaluates(ls) && Sealed(ls) && Mut(st') && Intact(st.pages, st'.pages)
    && LiveAt(st'.pages, a, i, p, n) && !st'.pages[a].committed && st'.pages[a].segs[i] == Segment(true, n, junk)
    && (a in st.pages ==> i == |st.pages[a].c| == |st.pages[a].segs|)
    && Allocated(st.pages, p, n, st'.pages)
    && st'.pages == Roomed(st.pages, n, a)[a := st'.pages[a]]
    && Cuts(Sight(st.pages), a, junk, Sight(st'.pages)) && |st'.pages| <= |st.pages| + 1
    && (if SomeFit(st.pages, n) then a in st.pages && FirstFit(st, n) == Some(a) else a !in st.pages && !Misfit(n))
  }

  lemma GivenIs(st: State, n: int, a: int, ls: seq<Step>, st1: State, size: int, junk: seq<Byte>, st': State)
    requires Sane(st, {}) && Mut(st) && Offered(st, n, a, ls, st1) && n > 0 && |junk| == n && PagesPlaced(st'.pages, size)
    requires a in st1.pages && st' == st1.(pages := st1.pages[a := NewSegment(st1.pages[a], a, n, junk)])
    requires Evolved(st1, [Write(a, st'.pages[a])], st')
    ensures Given(st, DataStart(st1.pages[a], a) + 1 - n, n, a, |st1.pages[a].c|, junk, ls + [Write(a, st'.pages[a])], st')
  {
    hide Evolved, Inv, Shaped, Headed, Tiled, Live, Allocated, CanFit, Sight, Cuts;
    OfferedTiled(st, n, a, ls, st1);
    CutSeen(st.pages, n, a, junk, st1.pages);
    EvolvedThen(st, ls, st1, [Write(a, st'.pages[a])], st');
    EvolvedSane(st1, [Write(a, st'.pages[a])], st');
    AllocatedFirst(st.pages, st1.pages, size, a, n, junk, st'.pages);
  }

  lemma CutIs(m: map<int, Page>, a: int, junk: seq<Byte>, p: Page)
    requires p == (if a in m then m[a] else FreshPage(a, |junk| / PAGE_SIZE + 1)) && |p.c| == |p.segs|
    ensures Cuts(m, a, junk, m[a := NewSegment(p, a, |junk|, junk)])
  {
  }

  /** The pages with room, as the interpreter sees them. */
  lemma RoomSeen(pages: map<int, Page>, n: int, a: int, pages1: map<int, Page>, q: Page)
    requires pages1 == Roomed(pages, n, a) && a in pages1 && pages1[a].realAddr == a && !pages1[a].committed
    ensures pages1[a] == if a in Sight(pages) then Sight(pages)[a] else FreshPage(a, n / PAGE_SIZE + 1)
    ensures Sight(pages1)[a := q] == Sight(pages)[a := q]
    ensures |pages1| <= |pages| + 1
  {
    assert pages1[a].(committed := false) == pages1[a];
    if a !in pages { SightWith(pages, a, FreshPage(a, n / PAGE_SIZE + 1)); }
    assert pages1.Keys == pages.Keys + {a};
    assert |pages1.Keys| == |pages1| && |pages.Keys| == |pages|;
  }

  /** The new segment, as the interpreter sees it. */
  lemma CutSeen(pages: map<int, Page>, n: int, a: int, junk: seq<Byte>, pages1: map<int, Page>)
    requires |junk| == n && pages1 == Roomed(pages, n, a) && a in pages1 && pages1[a].realAddr == a && |pages1[a].c| == |pages1[a].segs|
    requires !pages1[a].committed
    ensures var pages' := pages1[a := NewSegment(pages1[a], a, n, junk)];
            Cuts(Sight(pages), a, junk, Sight(pages')) && |pages'| <= |pages| + 1
  {
    hide Sight, Cuts, Roomed;
    var q := NewSegment(pages1[a], a, n, junk);
    RoomSeen(pages, n, a, pages1, q);
    CutIs(Sight(pages), a, junk, pages1[a]);
    SightWith(pages1, a, q);
    assert q.(committed := false) == q;
    assert pages1[a := q].Keys == pages1.Keys;
    SameCount(pages1[a := q], pages1);
  }

  /** What was allocated before a fresh page was added is apart as well. */
  lemma AllocatedFirst(pages: map<int, Page>, pages1: map<int, Page>, size: int, a: int, n: int, junk: seq<Byte>, pages': map<int, Page>)
    requires Intact(pages, pages1) && a in pages1 && pages1[a].realAddr == a && |pages1[a].c| == |pages1[a].segs|
    requires pages' == pages1[a := NewSegment(pages1[a], a, n, junk)] && AllTiled(pages') && PagesPlaced(pages', size)
    ensures Allocated(pages, DataStart(pages1[a], a) + 1 - n, n, pages')
  {
    hide AllTiled, PagesPlaced, Live, NewSegment;
    var p := DataStart(pages1[a], a) + 1 - n;
    SegmentAllocated(pages1, size, a, n, junk, pages');
    forall q, m | Live(pages, q, m) ensures Live(pages', q, m) && Disjoint(p, n, q, m) {
      LaidLive(pages, pages1, q, m);
    }
  }

  lemma EvolvedSane(st: State, ls: seq<Step>, st': State)
    requires Evolved(st, ls, st')
    ensures Sane(st', {}) && AllTiled(st'.pages)
  {
  }

  lemma OfferedTiled(st: State, n: int, a: int, ls: seq<Step>, st': State)
    requires Offered(st, n, a, ls, st')
    ensures Sane(st', {}) && a in st'.pages && Tiled(st'.pages[a], a) && CanFit(st'.pages[a], a, n) && Mut(st')
    ensures st'.pages[a].realAddr == a && !st'.pages[a].committed && |st'.pages[a].c| == |st'.pages[a].segs|
  {
  }

  /** page_new_segment */
  method CutSegment(h: Heap, a: int, n: int, junk: seq<Byte>) returns (p: int, ghost q: Page)
    requires h.Valid() && a in h.pages && Tiled(h.pages[a], a) && CanFit(h.pages[a], a, n) && n > 0 && |junk| == n && !h.pages[a].committed
    modifies h`pages
    ensures h.Valid() && q == NewSegment(old(h.pages[a]), a, n, junk) && h.pages == old(h.pages)[a := q] && h.Sp() == old(h.Sp())
    ensures p == old(DataStart(h.pages[a], a)) + 1 - n
    ensures PagesPlaced(h.pages, h.size)
    ensures old(Mut(h.St())) ==> Evolved(old(h.St()), [Write(a, q)], h.St())
  {
    hide ReadyFor, Lenient, Leaking, Sane, Evolved, Barrier, CanFit, Tiled, NewSegment, Protection.Maps;
    NewSegmentTiled(h.pages[a], a, n, junk);
    q := NewSegment(h.pages[a], a, n, junk);
    p := DataStart(h.pages[a], a) + 1 - n;
    SetPage(h, a, NewSegment(h.pages[a], a, n, junk));
    ReadyPlaced(h.prot.Maps(), h.Sp(), h.pages, h.ro);
  }

  lemma ReadyPlaced(t: seq<Map>, sp: Space, pages: map<int, Page>, ro: set<int>)
    requires ReadyFor(t, sp, pages, ro)
    ensures PagesPlaced(pages, sp.size)
  {
    PlacedPages(sp, pages);
  }

  lemma GivenSealed(st: State, p: int, n: int, a: int, i: int, junk: seq<Byte>, ls: seq<Step>, st': State)
    requires Given(st, p, n, a, i, junk, ls, st')
    ensures Sealed(ls)
  {
  }

  /** snap_malloc: no payload for no bytes, otherwise one that shares no byte with
      any other. It is in segment i of the page at a. */
  method Malloc(h: Heap, n: nat, junk: seq<Byte>) returns (stop: Stop, p: int, a: int, i: int, ghost ls: seq<Step>)
    requires h.Valid() && |junk| == n
    modifies h`size, h`lastPage, h`lastGen, h`gens, h`pages, h`tree, h.prot`os, h.prot.active.m
    ensures stop == if n == 0 then Going else if !old(Mut(h.St())) then OutsideMutation else FitStop(old(h.St()), old(h.Sp()), n)
    ensures h.size >= old(h.size) && (stop == ShortGrowth ==> Large(n / PAGE_SIZE + 1, old(h.size)))
    ensures n == 0 ==> stop == Going && p == NULL && ls == [] && h.Valid() && h.St() == old(h.St())
    ensures stop == Going && n > 0 ==> h.Valid() && Given(old(h.St()), p, n, a, i, junk, ls, h.St())
    ensures stop == Going && n > 0 ==> h.Sp() == FitSpace(old(h.St()), old(h.Sp()), n)
    ensures stop == Going ==> Sealed(ls)
    ensures stop == Going ==> h.prot.Leaks() <= old(h.prot.Leaks())
  {
    hide FitStop, FitSpace, ReadyFor, Lenient, Leaking, Sane, Evolved, Barrier, Offered, CanFit, Given, NewSegment, SomeFit,
      Misfit, Tiled, PagesPlaced,
      Sub', Rep, FirstHit, Items, Large, Protection.Maps, Protection.Leaks;
    ghost var st := h.St();
    stop, p, a, i, ls := Going, NULL, 0, 0, [];
    if n == 0 { return; }
    if h.working == h.committed { return OutsideMutation, p, a, i, ls; }
    CheckWorking(h);
    var at;
    stop, at, ls := FindFit(h, n);
    if stop != Going { return; }
    ghost var st1 := h.St();
    OfferedTiled(st, n, at, ls, st1);
    a, i := at, |h.pages[at].c|;
    ghost var q;
    p, q := CutSegment(h, at, n, junk);
    GivenIs(st, n, at, ls, st1, h.size, junk, h.St());
    GivenSealed(st, p, n, a, i, junk, ls + [Write(at, q)], h.St());
    ls := ls + [Write(at, q)];
  }

  /** all_gen_match finds no generation of another id below the working one. */
  method CheckWorking(h: Heap)
    requires h.Valid() && Mut(h.St())
  {
    hide ReadyFor, Lenient, Leaking, Sane, Barrier, Sub', Rep, FirstHit, Items, Protection.Maps;
    ghost var st := h.St();
    WorkingSlotFound(st, {});
    NoMismatch(st);
    SaneTop(st, {});
    var mismatch := h.Search(h.working, MismatchOf(h.gens, h.gens[h.working].gen), Sub'(h.tree, h.working));
    assert mismatch.None?;
  }

  // ------------------------------------------------------------ snap_free

  /** p points to the payload of segment i of the page at home at a. */
  ghost predicate PointsTo(pages: map<int, Page>, p: int, a: int, i: int) {
    && a in pages && pages[a].realAddr == a && 0 <= i < |pages[a].c| && i < |pages[a].segs|
    && pages[a].c[i] + SEGMENT_HEADER == p
  }

  lemma PointerFound(st: State, t: seq<Map>, sp: Space, ro: set<int>, p: int, a: int, i: int)
    requires Sane(st, {}) && ReadyFor(t, sp, st.pages, ro) && PointsTo(st.pages, p, a, i)
    ensures FirstHit(Items(st.tree, 0), PageAtOf(st.pages, p)) == Some((a, i)) && Rep(st.gens, st.pages.Keys, st.tree)
    ensures |st.pages[a].segs[i].data| == st.pages[a].segs[i].size > 0 && p >= MAP_START
  {
    DataLength(st, a, i);
    ReadyPlaced(t, sp, st.pages, ro);
    SegmentInPage(st.pages[a], a, i);
    VerdictAt(st.pages, sp.size, true, a, i, p);
    FaultFound(st, t, sp, ro, p);
  }

  lemma PointerIs(h: Heap, p: int, a: int, i: int)
    requires h.Valid() && PointsTo(h.pages, p, a, i)
    ensures FirstHit(Items(h.tree, 0), PageAtOf(h.pages, p)) == Some((a, i)) && Rep(h.gens, h.pages.Keys, h.tree)
    ensures |h.pages[a].segs[i].data| == h.pages[a].segs[i].size > 0 && p >= MAP_START
  {
    PointerFound(h.St(), h.prot.Maps(), h.Sp(), h.ro, p, a, i);
  }

  /** snap_free: the segment is no longer used; its bytes stay. */
  method Free(h: Heap, p: int, ghost a: int, ghost i: int) returns (stop: Stop, ghost ls: seq<Step>)
    requires h.Valid() && (p != NULL ==> PointsTo(h.pages, p, a, i))
    modifies h`size, h`lastPage, h`lastGen, h`gens, h`pages, h`tree, h`ro, h.prot`os, h.prot.active`len, h.prot.active.m
    ensures p == NULL ==> stop == Going && ls == [] && h.Valid() && h.St() == old(h.St())
    ensures stop == OutsideMutation <==> p != NULL && !old(Mut(h.St()))
    ensures p != NULL && old(Mut(h.St())) ==> (stop == NotUsed <==> !old(h.pages[a].segs[i].used))
    ensures stop == Going && p != NULL ==>
              h.Valid() && Rewritten(old(h.St()), a, i, old(h.pages[a].segs[i]).(used := false), ls, h.St())
    ensures stop == Going ==> h.prot.Leaks() <= old(h.prot.Leaks())
    ensures stop == Going ==> LeaksIn(ls, old(h.prot.Leaks()))
    ensures stop in {Going, OutsideMutation, NotUsed, TableFull, ShortGrowth} && h.size >= old(h.size)
    ensures p != NULL && stop !in {OutsideMutation, NotUsed} ==>
              && Writes(stop, old(h.prot.os(h.pages[a].c[i])), true, old(h.Sp()), old(h.pages), a)
              && (stop == Going ==> h.Sp() == WriteSpace(old(h.prot.os(h.pages[a].c[i])), old(h.St()), old(h.Sp()), a))
    ensures stop == TableFull ==> Crowded(|old(h.pages)|)
    ensures stop == ShortGrowth ==> a in old(h.pages) && Large(old(h.pages[a].pages), old(h.size))
  {
    hide WriteSpace, Traps, Crowded, Large, ReadyFor, Lenient, Leaking, LeaksIn, Sane, Evolved, Barrier, Rewritten, Rep,
      FirstHit, Items, Protection.Maps, Protection.Leaks;
    stop, ls := Going, [];
    SealedLeaks(ls, h.prot.Leaks());
    if p == NULL { return; }
    if h.working == h.committed { return OutsideMutation, ls; }
    PointerFound(h.St(), h.prot.Maps(), h.Sp(), h.ro, p, a, i);
    var hit := h.Search(h.root, PageAtOf(h.pages, p), h.tree);
    var (page, index) := hit.value;
    var s := h.pages[page].segs[index];
    if !s.used { return NotUsed, ls; }
    TrapStops(h, a);
    stop, ls := Rewrite(h, h.pages[page].c[index], page, index, s.(used := false));
  }

  lemma TrapStops(h: Heap, a: int)
    requires h.Valid() && a in h.pages
    ensures h.Sp().lastPage in h.Sp().extent
    ensures forall stop :: Traps(stop, h.Sp(), h.pages, a) ==>
              && stop in {Going, TableFull, ShortGrowth}
              && (stop == TableFull ==> Crowded(|h.pages|))
              && (stop == ShortGrowth ==> Large(h.pages[a].pages, h.size))
  {
    SanePages(h.St(), a);
    forall stop | Traps(stop, h.Sp(), h.pages, a)
      ensures stop in {Going, TableFull, ShortGrowth} && (stop == TableFull ==> Crowded(|h.pages|))
           && (stop == ShortGrowth ==> Large(h.pages[a].pages, h.size))
    {
      TrapsStuck(stop, h.Sp(), h.pages, a);
    }
  }

  // ------------------------------------------------------------ snap_realloc

  /** The payload at p, of n bytes, in segment j of the page at b, starts with what
      was in segment i of the page at a, which is free now. */
  ghost predicate Reallocated(st: State, a: int, i: int, p: int, n: int, b: int, j: int, ls: seq<Step>, st': State) {
    && a in st.pages && a in st'.pages && 0 <= i < |st.pages[a].segs| && i < |st'.pages[a].segs|
    && LiveAt(st'.pages, b, j, p, n) && (a != b || i != j)
    && (var (was, now) := (st.pages[a].segs[i].data, st'.pages[b].segs[j].data);
        |now| == n && now[..Least(|was|, n)] == was[..Least(|was|, n)])
    && st'.pages[b].segs[j].used && st'.pages[a].segs[i] == st.pages[a].segs[i].(used := false)
    && OthersStay(st.pages, a, i, st'.pages) && |st'.pages| <= |st.pages| + 2
    && (if SomeFit(st.pages, n) then b in st.pages && FirstFit(st, n) == Some(b) && j == |st.pages[b].c| else b !in st.pages)
    && (exists data, m1 :: Moves(Sight(st.pages), a, i, n, b, data, m1, Sight(st'.pages)))
    && Allocated(st.pages, p, n, st'.pages) && Mut(st') == Mut(st)
    && (Mut(st) ==> Evolved(st, ls, st') && Evaluates(ls))
    && MovedBy(st, a, i, p, n, b, j, ls, st')
  }

  /** The steps are those of the allocation, of filling the new payload and of the release. */
  ghost predicate MovedBy(st: State, a: int, i: int, p: int, n: int, b: int, j: int, ls: seq<Step>, st': State) {
    exists junk, ls1, st1, data, ls2, st2, ls3 ::
      ls == ls1 + ls2 + ls3 && |junk| == n && Given(st, p, n, b, j, junk, ls1, st1) && Filled(st1, a, i, n, b, j, data, ls2, st2, ls3, st')
  }

  /** memcpy of |behind| bytes from a payload: what lies behind the payload may be
      anything. */
  function CopiedBytes(was: seq<Byte>, behind: seq<Byte>): (r: seq<Byte>)
    ensures |r| == |behind| && r[..Least(|was|, |r|)] == was[..Least(|was|, |r|)]
  {
    if |behind| <= |was| then was[..|behind|] else was + behind[|was|..]
  }

  lemma RewrittenLaid(st: State, a: int, i: int, s: Segment, ls: seq<Step>, st': State)
    requires Rewritten(st, a, i, s, ls, st') && s.size == st.pages[a].segs[i].size
    ensures Laid(st.pages, st'.pages)
  {
    hide Evolved, Touched;
  }

  lemma AllocatedThen(pages: map<int, Page>, p: int, n: int, pages1: map<int, Page>, pages2: map<int, Page>)
    requires Allocated(pages, p, n, pages1) && Laid(pages1, pages2)
    ensures Allocated(pages, p, n, pages2)
  {
    hide Live, Laid;
    LaidLive(pages1, pages2, p, n);
    forall q, m | Live(pages, q, m) ensures Live(pages2, q, m) { LaidLive(pages1, pages2, q, m); }
  }

  /** A new segment that is filled then is one that was cut with these bytes. */
  lemma CutsFilled(m: map<int, Page>, b: int, j: int, junk: seq<Byte>, m0: map<int, Page>, data: seq<Byte>, m1: map<int, Page>)
    requires Cuts(m, b, junk, m0) && |data| == |junk| && Reads(m0, b, j, Segment(true, |data|, data), m1)
    requires b in m0 && j == |m0[b].segs| - 1
    ensures Cuts(m, b, data, m1)
  {
    var p := if b in m then m[b] else FreshPage(b, |data| / PAGE_SIZE + 1);
    assert m0[b].segs == p.segs + [Segment(true, |data|, junk)];
    assert m1[b].segs == p.segs + [Segment(true, |data|, data)];
    assert m1 == m[b := m1[b]];
  }

  /** The three steps, as the interpreter sees them. */
  lemma MovesSeen(m: map<int, Page>, a: int, i: int, n: nat, b: int, j: int, junk: seq<Byte>, m0: map<int, Page>,
                  data: seq<Byte>, m1: map<int, Page>, m': map<int, Page>)
    requires At(m, a, i) && Cuts(m, b, junk, m0) && Reads(m0, b, j, Segment(true, n, data), m1) && |data| == n == |junk|
    requires b in m0 && j == |m0[b].segs| - 1 && (var was := m[a].segs[i].data; data[..Least(|was|, n)] == was[..Least(|was|, n)])
    requires Reads(m1, a, i, m[a].segs[i].(used := false), m')
    ensures Moves(m, a, i, n, b, data, m1, m')
  {
    hide Reads;
    CutsFilled(m, b, j, junk, m0, data, m1);
  }

  /** Allocation, copy and release, taken together. */
  lemma ReallocatedIs(st: State, a: int, i: int, p: int, n: int, b: int, j: int, junk: seq<Byte>, ls1: seq<Step>, st1: State,
                      data: seq<Byte>, ls2: seq<Step>, st2: State, ls3: seq<Step>, st3: State)
    requires Mut(st) && a in st.pages && 0 <= i < |st.pages[a].c| == |st.pages[a].segs| && st.pages[a].realAddr == a
    requires Given(st, p, n, b, j, junk, ls1, st1) && |junk| == n && Filled(st1, a, i, n, b, j, data, ls2, st2, ls3, st3)
    ensures Reallocated(st, a, i, p, n, b, j, ls1 + ls2 + ls3, st3)
  {
    hide Evolved, Allocated, Evaluates, Misfit, SomeFit, FirstFit, Sight, Cuts, Reads, Moves, MovedBy;
    MovedByThese(st, a, i, p, n, b, j, junk, ls1, st1, data, ls2, st2, ls3, st3);
    assert IntactAt(st.pages[a], st1.pages[a]);
    assert st1.pages[a].segs[i] == st.pages[a].segs[i] && (a != b || i != j);
    assert st2.pages[a].segs[i] == st.pages[a].segs[i];
    RewrittenLaid(st1, b, j, Segment(true, n, data), ls2, st2);
    RewrittenLaid(st2, a, i, st2.pages[a].segs[i].(used := false), ls3, st3);
    AllocatedThen(st.pages, p, n, st1.pages, st2.pages);
    AllocatedThen(st.pages, p, n, st2.pages, st3.pages);
    EvolvedThen(st, ls1, st1, ls2, st2);
    EvaluatesJoin(ls1, ls2);
    EvolvedThen(st, ls1 + ls2, st2, ls3, st3);
    EvaluatesJoin(ls1 + ls2, ls3);
    MovedOthers(st, a, i, p, n, b, j, junk, ls1, st1, data, ls2, st2, ls3, st3);
    MovedSight(st, a, i, p, n, b, j, junk, ls1, st1, data, ls2, st2, ls3, st3);
  }

  lemma MovedByThese(st: State, a: int, i: int, p: int, n: int, b: int, j: int, junk: seq<Byte>, ls1: seq<Step>, st1: State,
                     data: seq<Byte>, ls2: seq<Step>, st2: State, ls3: seq<Step>, st3: State)
    requires Given(st, p, n, b, j, junk, ls1, st1) && |junk| == n && Filled(st1, a, i, n, b, j, data, ls2, st2, ls3, st3)
    ensures MovedBy(st, a, i, p, n, b, j, ls1 + ls2 + ls3, st3)
  {
    hide Given, Filled;
  }

  lemma MovedOthers(st: State, a: int, i: int, p: int, n: int, b: int, j: int, junk: seq<Byte>, ls1: seq<Step>, st1: State,
                    data: seq<Byte>, ls2: seq<Step>, st2: State, ls3: seq<Step>, st3: State)
    requires a in st.pages && 0 <= i < |st.pages[a].segs|
    requires Given(st, p, n, b, j, junk, ls1, st1)
    requires Rewritten(st1, b, j, Segment(true, n, data), ls2, st2) && |ls2| == 1
    requires a in st2.pages && i < |st2.pages[a].segs| && Rewritten(st2, a, i, st2.pages[a].segs[i].(used := false), ls3, st3)
    ensures OthersStay(st.pages, a, i, st3.pages) && |st3.pages| <= |st.pages| + 2
  {
    hide Given, Rewritten, OthersStay;
    GivenIntact(st, p, n, b, j, junk, ls1, st1);
    NoTrapCount(st1, b, j, Segment(true, n, data), ls2, st2);
    RewrittenOthers(st1, b, j, Segment(true, n, data), ls2, st2);
    RewrittenOthers(st2, a, i, st2.pages[a].segs[i].(used := false), ls3, st3);
    RewrittenCount(st2, a, i, st2.pages[a].segs[i].(used := false), ls3, st3);
    OthersThen(st.pages, b, j, st1.pages, st2.pages, a, i, st3.pages);
  }

  lemma RewrittenCount(st: State, a: int, i: int, s: Segment, ls: seq<Step>, st': State)
    requires Rewritten(st, a, i, s, ls, st')
    ensures |st'.pages| <= |st.pages| + 1
  {
  }

  /** Segment j of the page at b is none of those that were there at first. */
  lemma OthersThen(pages: map<int, Page>, b: int, j: int, pages1: map<int, Page>, pages2: map<int, Page>, a: int, i: int,
                   pages3: map<int, Page>)
    requires OthersStay(pages, b, j, pages1) && OthersStay(pages1, b, j, pages2) && OthersStay(pages2, a, i, pages3)
    requires b in pages ==> j >= |pages[b].segs|
    ensures OthersStay(pages, a, i, pages3)
  {
  }

  /** Nothing that was there has changed, and the new segment is not among it. */
  lemma GivenIntact(st: State, p: int, n: int, b: int, j: int, junk: seq<Byte>, ls: seq<Step>, st1: State)
    requires Given(st, p, n, b, j, junk, ls, st1)
    ensures |st1.pages| <= |st.pages| + 1
    ensures OthersStay(st.pages, b, j, st1.pages) && (b in st.pages ==> j >= |st.pages[b].segs|)
  {
    hide Evolved, Allocated, Cuts, Sight;
    forall x | x in st.pages && x != b ensures st1.pages[x] == st.pages[x] {}
    if b in st.pages { assert LaidAt(st.pages[b], st1.pages[b]) && IntactAt(st.pages[b], st1.pages[b]); }
  }

  lemma NoTrapCount(st: State, a: int, i: int, s: Segment, ls: seq<Step>, st': State)
    requires Rewritten(st, a, i, s, ls, st') && |ls| == 1
    ensures |st'.pages| == |st.pages|
  {
    hide Evolved, Sight, Reads;
    assert ls[..0] == [];
    assert st'.pages.Keys == st.pages.Keys;
    SameCount(st'.pages, st.pages);
  }

  lemma MovedSight(st: State, a: int, i: int, p: int, n: int, b: int, j: int, junk: seq<Byte>, ls1: seq<Step>, st1: State,
                   data: seq<Byte>, ls2: seq<Step>, st2: State, ls3: seq<Step>, st3: State)
    requires a in st.pages && 0 <= i < |st.pages[a].c| == |st.pages[a].segs| && st.pages[a].realAddr == a
    requires Given(st, p, n, b, j, junk, ls1, st1) && |junk| == n && Filled(st1, a, i, n, b, j, data, ls2, st2, ls3, st3)
    requires At(st1.pages, a, i) && At(st2.pages, a, i) && st.pages[a].segs[i] == st1.pages[a].segs[i] == st2.pages[a].segs[i]
    ensures exists m1 :: Moves(Sight(st.pages), a, i, n, b, data, m1, Sight(st3.pages))
  {
    var (m, m0, m1, m') := (Sight(st.pages), Sight(st1.pages), Sight(st2.pages), Sight(st3.pages));
    assert Cuts(m, b, junk, m0) && Reads(m0, b, j, Segment(true, n, data), m1) && Reads(m1, a, i, st.pages[a].segs[i].(used := false), m');
    assert j == |m0[b].segs| - 1;
    hide Given, Rewritten, Reads, Cuts, Moves;
    MovesSeen(m, a, i, n, b, j, junk, m0, data, m1, m');
  }

  /** How moving a payload ends: as the allocation does, if that stops; otherwise in
      memcpy behind the end of the heap, or as the release of the old payload does. */
  ghost predicate MoveEnds(stop: Stop, st: State, sp: Space, p: int, n: int, a: int, i: int, size: int)
    requires sp.lastPage in sp.extent && At(st.pages, a, i)
  {
    if FitStop(st, sp, n) != Going then stop == FitStop(st, sp, n)
    else
      || (stop == OutOfHeap && p + n > MAP_START + size)
      || (stop == NotUsed && !st.pages[a].segs[i].used)
      || (st.pages[a].segs[i].used && (stop == Going || (stop == TableFull && Crowded(|st.pages| + 1))
                                      || (stop == ShortGrowth && Large(st.pages[a].pages, sp.size))))
  }

  lemma MoveStops(stop: Stop, st: State, sp: Space, p: int, n: int, a: int, i: int, size: int)
    requires sp.lastPage in sp.extent && At(st.pages, a, i)
    requires if FitStop(st, sp, n) != Going then stop == FitStop(st, sp, n)
             else || (stop == OutOfHeap && p + n > MAP_START + size)
                  || (stop == NotUsed <==> !st.pages[a].segs[i].used)
    requires stop in {Going, TableFull, ShortGrowth, NotUsed, OutOfHeap} || FitStop(st, sp, n) != Going
    requires stop == OutOfHeap ==> p + n > MAP_START + size
    requires stop == TableFull ==> Crowded(|st.pages| + 1)
    requires stop == ShortGrowth && FitStop(st, sp, n) == Going ==> Large(st.pages[a].pages, sp.size)
    requires FitStop(st, sp, n) in {Going, ShortGrowth, NoFit}
    ensures MoveEnds(stop, st, sp, p, n, a, i, size)
  {
    hide FitStop, Crowded, Large;
  }

  lemma FitStops(st: State, sp: Space, n: int)
    requires sp.lastPage in sp.extent
    ensures FitStop(st, sp, n) in {Going, ShortGrowth, NoFit}
  {
  }

  lemma WritesOn(stop: Stop, mut: bool, sp: Space, pages: map<int, Page>, a: int)
    requires sp.lastPage in sp.extent && a in pages && Writes(stop, true, mut, sp, pages, a)
    ensures stop == Going
  {
  }

  /** What keeps a later trap from returning would have kept an earlier one. */
  lemma FreeStops(n: int, size: int, size': int, count: nat)
    requires size <= size'
    ensures Large(n, size') ==> Large(n, size)
    ensures Crowded(count) ==> Crowded(count + 1)
  {
  }

  /** The payload was just cut: the process can write it. */
  lemma GivenOpen(h: Heap, st: State, p: int, n: int, a: int, i: int, junk: seq<Byte>, ls: seq<Step>)
    requires h.Valid() && Given(st, p, n, a, i, junk, ls, h.St()) && n > 0
    ensures h.prot.os(p)
  {
    hide Evolved, Allocated, Cuts, Sight, ReadyFor, Lenient, Leaking, Barrier, SomeFit, FirstFit, WellFormed;
    assert a in h.pages && h.pages[a].realAddr == a && !h.pages[a].committed && h.pages[a].c[i] + SEGMENT_HEADER == p;
    SanePages(h.St(), a);
    FaultsIfCommitted(h.prot.Maps(), h.prot.os, h.Sp(), h.pages, h.ro, a, i, p);
  }

  /** The part of snap_realloc that moves a payload: snap_malloc, memcpy and
      snap_free. */
  method MoveBytes(h: Heap, p: int, n: nat, junk: seq<Byte>, a: int, i: int)
    returns (stop: Stop, q: int, b: int, j: int, ghost ls: seq<Step>)
    requires h.Valid() && Mut(h.St()) && |junk| == n > 0 && p != NULL && PointsTo(h.pages, p, a, i)
    modifies h`size, h`lastPage, h`lastGen, h`gens, h`pages, h`tree, h`ro, h.prot`os, h.prot.active`len, h.prot.active.m
    ensures MoveEnds(stop, old(h.St()), old(h.Sp()), p, n, a, i, h.size) && h.size >= old(h.size)
    ensures stop in {Going, NotUsed, TableFull, ShortGrowth, NoFit, OutOfHeap}
    ensures stop == ShortGrowth ==> Large(n / PAGE_SIZE + 1, old(h.size)) || Large(old(h.pages[a].pages), old(h.size))
    ensures stop == Going ==> h.Valid() && Reallocated(old(h.St()), a, i, q, n, b, j, ls, h.St())
    ensures stop == Going ==> h.prot.Leaks() <= old(h.prot.Leaks()) && LeaksIn(ls, old(h.prot.Leaks()))
  {
    hide Heap.Valid, LeaksIn, Sealed, Sane, Rewritten, Given, Reallocated, FitStop, Crowded, Large, Writes, MoveEnds,
      Protection.Leaks;
    h.ValidHolds();
    ghost var st, sp, bytes := h.St(), h.Sp(), h.prot.Leaks();
    DataLength(st, a, i);
    FitStops(st, sp, n);
    ghost var ls1, ls2;
    stop, q, b, j, ls1 := Malloc(h, n, junk);
    ls := ls1;
    if stop != Going {
      MoveStops(stop, st, sp, p, n, a, i, h.size);
      return;
    }
    h.ValidHolds();
    ghost var st1, bytes1 := h.St(), h.prot.Leaks();
    FreeStops(st.pages[a].pages, sp.size, h.size, 0);
    GivenFacts(st, q, n, b, j, junk, ls1, st1, p, a, i);
    if p + n > MAP_START + h.size {
      MoveStops(OutOfHeap, st, sp, p, n, a, i, h.size);
      return OutOfHeap, q, b, j, ls;
    }
    GivenOpen(h, st, q, n, b, j, junk, ls1);
    ghost var data, st2, ls3;
    stop, data, ls2, st2, ls3 := CopyAndFree(h, p, n, junk, a, i, q, b, j);
    CopyStops(stop, st, sp, p, n, a, i, st1, h.size);
    if stop != Going { return; }
    ReallocatedIs(st, a, i, q, n, b, j, junk, ls1, st1, data, ls2, st2, ls3, h.St());
    MovedLeaks(ls1, ls2 + ls3, bytes, bytes1);
    assert ls1 + (ls2 + ls3) == ls1 + ls2 + ls3;
    ls := ls1 + ls2 + ls3;
  }

  /** Segment j of the page at b was filled with data, which starts with what segment i of
      the page at a holds, and that segment was freed. */
  ghost predicate Filled(st: State, a: int, i: int, n: int, b: int, j: int, data: seq<Byte>, ls2: seq<Step>, st2: State, ls3: seq<Step>, st3: State) {
    && |data| == n >= 0 && |ls2| == 1 && At(st.pages, a, i) && At(st2.pages, a, i)
    && (var was := st.pages[a].segs[i].data; data[..Least(|was|, n)] == was[..Least(|was|, n)])
    && Rewritten(st, b, j, Segment(true, n, data), ls2, st2)
    && Rewritten(st2, a, i, st2.pages[a].segs[i].(used := false), ls3, st3)
  }

  /** memcpy into the new payload, and the release of the old one. */
  method CopyAndFree(h: Heap, p: int, n: nat, junk: seq<Byte>, a: int, i: int, q: int, b: int, j: int)
    returns (stop: Stop, ghost data: seq<Byte>, ghost ls2: seq<Step>, ghost st2: State, ghost ls3: seq<Step>)
    requires h.Valid() && Mut(h.St()) && |junk| == n > 0 && p != NULL && PointsTo(h.pages, p, a, i) && (a != b || i != j)
    requires PointsTo(h.pages, q, b, j) && h.pages[b].segs[j] == Segment(true, n, junk) && h.prot.os(q)
    modifies h`size, h`lastPage, h`lastGen, h`gens, h`pages, h`tree, h`ro, h.prot`os, h.prot.active`len, h.prot.active.m
    ensures stop in {Going, NotUsed, TableFull, ShortGrowth} && h.size >= old(h.size)
    ensures stop == NotUsed <==> !old(h.pages[a].segs[i].used)
    ensures stop == TableFull ==> Crowded(|old(h.pages)|)
    ensures stop == ShortGrowth ==> Large(old(h.pages[a].pages), old(h.size))
    ensures stop == Going ==> h.Valid() && Filled(old(h.St()), a, i, n, b, j, data, ls2, st2, ls3, h.St())
    ensures stop == Going ==> h.prot.Leaks() <= old(h.prot.Leaks()) && LeaksIn(ls2 + ls3, old(h.prot.Leaks()))
  {
    hide Heap.Valid, LeaksIn, Sane, Rewritten, Crowded, Large, Writes, WriteSpace, Traps, Extents, CopiedBytes, Protection.Leaks;
    h.ValidHolds();
    ghost var st1, sp1, bytes1 := h.St(), h.Sp(), h.prot.Leaks();
    data := CopiedBytes(h.pages[a].segs[i].data, junk);
    st2, ls3 := st1, [];
    stop, ls2 := Rewrite(h, q, b, j, Segment(true, n, CopiedBytes(h.pages[a].segs[i].data, junk)));
    WritesOn(stop, true, sp1, st1.pages, b);
    h.ValidHolds();
    st2 := h.St();
    ghost var bytes2 := h.prot.Leaks();
    RewrittenFacts(st1, b, j, Segment(true, n, data), ls2, st2, p, a, i);
    NoTrapCount(st1, b, j, Segment(true, n, data), ls2, st2);
    FreeStops(st1.pages[a].pages, sp1.size, h.size, |st1.pages|);
    stop, ls3 := Free(h, p, a, i);
    if stop != Going { return; }
    LeaksJoin(ls2, ls3, bytes1, bytes2);
  }

  lemma CopyStops(stop: Stop, st: State, sp: Space, p: int, n: int, a: int, i: int, st1: State, size: int)
    requires sp.lastPage in sp.extent && At(st.pages, a, i) && At(st1.pages, a, i) && st1.pages[a].segs[i] == st.pages[a].segs[i]
    requires st1.pages[a].pages == st.pages[a].pages && |st1.pages| <= |st.pages| + 1 && FitStop(st, sp, n) == Going
    requires stop in {Going, NotUsed, TableFull, ShortGrowth} && (stop == NotUsed <==> !st.pages[a].segs[i].used)
    requires stop == TableFull ==> Crowded(|st1.pages|)
    requires stop == ShortGrowth ==> exists size1 :: size1 >= sp.size && Large(st.pages[a].pages, size1)
    ensures MoveEnds(stop, st, sp, p, n, a, i, size)
  {
    hide FitStop;
    if size1 :| size1 >= sp.size && Large(st.pages[a].pages, size1) { assert Large(st.pages[a].pages, sp.size); }
  }

  lemma MovedLeaks(a: seq<Step>, b: seq<Step>, bytes: set<int>, bytes1: set<int>)
    requires Sealed(a) && LeaksIn(b, bytes1) && bytes1 <= bytes
    ensures LeaksIn(a + b, bytes)
  {
    SealedLeaks(a, bytes);
    LeaksJoin(a, b, bytes, bytes1);
  }

  lemma GivenFacts(st: State, p: int, n: int, a: int, i: int, junk: seq<Byte>, ls: seq<Step>, st': State, q: int, b: int, j: int)
    requires Given(st, p, n, a, i, junk, ls, st') && PointsTo(st.pages, q, b, j)
    ensures a in st'.pages && st'.pages[a].realAddr == a && 0 <= i < |st'.pages[a].c| && i < |st'.pages[a].segs|
    ensures st'.pages[a].segs[i] == Segment(true, n, junk) && st'.pages[a].c[i] + SEGMENT_HEADER == p && !st'.pages[a].committed
    ensures PointsTo(st'.pages, q, b, j) && st'.pages[b].segs[j] == st.pages[b].segs[j] && (a != b || i != j)
    ensures Mut(st') && Sealed(ls) && |st'.pages| <= |st.pages| + 1 && st'.pages[b].pages == st.pages[b].pages
  {
    hide Evolved, Allocated, SomeFit, Misfit, Sight, Cuts;
    assert IntactAt(st.pages[b], st'.pages[b]);
  }

  lemma RewrittenFacts(st: State, a: int, i: int, s: Segment, ls: seq<Step>, st': State, q: int, b: int, j: int)
    requires Rewritten(st, a, i, s, ls, st') && PointsTo(st.pages, q, b, j)
    ensures PointsTo(st'.pages, q, b, j) && Mut(st') == Mut(st)
    ensures a != b || i != j ==> st'.pages[b].segs[j] == st.pages[b].segs[j]
    ensures a in st'.pages && (st'.pages[a].committed ==> st.pages[a].committed)
    ensures st'.pages[b].pages == st.pages[b].pages
  {
    hide Evolved;
  }

  /** snap_realloc: the first bytes of the payload move to a new one. `junk` is what
      memory holds where nothing was written. */
  method Realloc(h: Heap, p: int, n: nat, junk: seq<Byte>, ghost a: int, ghost i: int)
    returns (stop: Stop, q: int, b: int, j: int, ghost ls: seq<Step>)
    requires h.Valid() && |junk| == n && (p != NULL ==> PointsTo(h.pages, p, a, i))
    modifies h`size, h`lastPage, h`lastGen, h`gens, h`pages, h`tree, h`ro, h.prot`os, h.prot.active`len, h.prot.active.m
    ensures stop in {Going, NotUsed, TableFull, ShortGrowth, NoFit, OutOfHeap, OutsideMutation}
    ensures p == NULL && n == 0 ==> stop == Going && q == NULL && ls == [] && h.Valid() && h.St() == old(h.St())
    ensures stop == OutsideMutation <==> (p != NULL || n > 0) && !old(Mut(h.St()))
    ensures p == NULL && n > 0 && old(Mut(h.St())) ==> stop == FitStop(old(h.St()), old(h.Sp()), n)
    ensures p != NULL && n > 0 && old(Mut(h.St())) ==> MoveEnds(stop, old(h.St()), old(h.Sp()), p, n, a, i, h.size)
    ensures n > 0 && stop == ShortGrowth ==>
              Large(n / PAGE_SIZE + 1, old(h.size)) || (p != NULL && Large(old(h.pages[a].pages), old(h.size)))
    ensures p != NULL && n == 0 && old(Mut(h.St())) ==>
              && (stop == NotUsed <==> !old(h.pages[a].segs[i].used))
              && (stop == TableFull ==> Crowded(|old(h.pages)|))
              && (stop == ShortGrowth ==> Large(old(h.pages[a].pages), old(h.size)))
              && stop in {Going, NotUsed, TableFull, ShortGrowth}
    ensures h.size >= old(h.size)
    ensures stop == Going && p == NULL && n > 0 ==> h.Valid() && Given(old(h.St()), q, n, b, j, junk, ls, h.St())
    ensures stop == Going && p != NULL && n == 0 ==>
              q == NULL && h.Valid() && Rewritten(old(h.St()), a, i, old(h.pages[a].segs[i]).(used := false), ls, h.St())
    ensures stop == Going && p != NULL && n > 0 ==> h.Valid() && Reallocated(old(h.St()), a, i, q, n, b, j, ls, h.St())
    ensures stop == Going ==> h.prot.Leaks() <= old(h.prot.Leaks())
    ensures stop == Going ==> LeaksIn(ls, old(h.prot.Leaks()))
  {
    hide Heap.Valid, LeaksIn, Sealed, Sane, Rewritten, Given, Reallocated, FitStop, Crowded, Large, Traps, MoveEnds, Rep,
      FirstHit, Items,
      ReadyFor, Protection.Leaks;
    h.ValidHolds();
    FitStops(h.St(), h.Sp(), n);
    stop, q, b, j, ls := Going, NULL, 0, 0, [];
    if p == NULL {
      ghost var bytes := h.prot.Leaks();
      stop, q, b, j, ls := Malloc(h, n, junk);
      if stop == Going { SealedLeaks(ls, bytes); }
      return;
    }
    if h.working == h.committed { return OutsideMutation, q, b, j, ls; }
    PointerIs(h, p, a, i);
    var hit := h.Search(h.root, PageAtOf(h.pages, p), h.tree);
    if n == 0 {
      stop, ls := Free(h, p, a, i);
      return;
    }
    stop, q, b, j, ls := MoveBytes(h, p, n, junk, hit.value.0, hit.value.1);
  }
}
