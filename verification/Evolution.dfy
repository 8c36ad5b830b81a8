/** Runs of the heap, seen as runs of the version store; and what allocations
    keep over them. */
module Evolution {
  import opened Layout
  import opened Pages
  import opened VersionStore
  import opened History
  import opened LinearHistory
  import opened Trees
  import opened Forest
  import opened Guards
  import opened HeapStates
  import opened Callbacks

  /** The steps ls led from st to st'. If every mutation among them began at the
      newest generation, they extend a linear history. */
  ghost predicate Travelled(st: State, newest: bool, ls: seq<Step>, st': State) {
    && Run(View(st), ls, View(st'))
    && (newest && Tail(st) ==> Tail(st') && LinearRun(View(st), ls, View(st')))
  }

  lemma TravelledNot(st: State)
    ensures Travelled(st, true, [], st)
  {
  }

  lemma TravelledOne(st: State, l: Step, st': State)
    requires Done(st, l, st')
    ensures Travelled(st, l.Begin? ==> Id(st, st.committed) == st.last, [l], st')
  {
    RunOne(View(st), l, View(st'));
    if Tail(st) && (l.Begin? ==> Id(st, st.committed) == st.last) { LinearOne(View(st), l, View(st')); }
  }

  lemma TravelledThen(st: State, n: bool, a: seq<Step>, m: State, n': bool, b: seq<Step>, st': State)
    requires Travelled(st, n, a, m) && Travelled(m, n', b, st')
    ensures Travelled(st, n && n', a + b, st')
  {
    hide Tail, Run, LinearRun;
    RunJoin(View(st), a, View(m), b, View(st'));
    if n && n' && Tail(st) { LinearJoin(View(st), a, View(m), b, View(st')); }
  }

  /** The heap evolved by the steps ls during a mutation. Their pages go behind those of
      the working generation, one after the other. */
  ghost predicate Evolved(st: State, ls: seq<Step>, st': State) {
    && Sane(st', {}) && st'.tree.at == st.tree.at && Travelled(st, true, ls, st')
    && Stacked(TipEnd(st), ls, TipEnd(st'))
  }

  lemma EvolvedNot(st: State)
    requires Sane(st, {})
    ensures Evolved(st, [], st)
  {
  }

  lemma EvolvedOne(st: State, l: Step, st': State)
    requires Done(st, l, st') && (l.Trap? || l.Write? || l.Leak? || l.NewPage?)
    ensures Evolved(st, [l], st')
  {
    hide Travelled, Tail, Taken, Sane, TipEnd;
    StackedOne(TipEnd(st), l, TipEnd(st'));
    TravelledOne(st, l, st');
    DoneSane(st, l, st');
  }

  lemma EvolvedThen(st: State, a: seq<Step>, m: State, b: seq<Step>, st': State)
    requires Evolved(st, a, m) && Evolved(m, b, st')
    ensures Evolved(st, a + b, st')
  {
    hide Travelled, Sane, TipEnd;
    TravelledThen(st, true, a, m, true, b, st');
    StackedJoin(TipEnd(st), a, TipEnd(m), b, TipEnd(st'));
  }

  /** An evaluation led from st to st'. */
  ghost predicate Evaluated(st: State, ls: seq<Step>, st': State) {
    Evolved(st, ls, st') && Evaluates(ls)
  }

  lemma EvaluatedNot(st: State)
    requires Sane(st, {})
    ensures Evaluated(st, [], st)
  {
    EvolvedNot(st);
  }

  lemma EvaluatedThen(st: State, a: seq<Step>, m: State, b: seq<Step>, st': State)
    requires Evaluated(st, a, m) && Evaluated(m, b, st')
    ensures Evaluated(st, a + b, st')
  {
    hide Evolved;
    EvolvedThen(st, a, m, b, st');
  }

  lemma EvaluatesJoin(a: seq<Step>, b: seq<Step>)
    requires Evaluates(a) && Evaluates(b)
    ensures Evaluates(a + b)
  {
  }

  // ------------------------------------------------------------ where a generation goes

  /** g is the first generation at or below c with a free slot. If there is none, it is c
      itself, whose children have moved to a new child; t1 is the tree then. */
  ghost predicate Hosts(t: Node, c: int, g: int, t1: Node) {
    && c in Gens(t) && g in Gens(t)
    && if NoRoom(Sub(t, c)) then g == c && exists child :: child !in Gens(t) && t1 == Between(t, c, child)
       else FirstRoom(Sub(t, c), g) && t1 == t
  }

  /** The new generation is the last child of the first one below the committed generation
      that has a free slot, or room was made for it; in the version order its pages will go
      behind all pages of that one. */
  ghost predicate Hangs(st: State, st': State) {
    exists g, t1 :: Hosts(st.tree, st.committed, g, t1) && HangsAt(st, g, t1, st')
  }

  ghost predicate HangsAt(st: State, g: int, t1: Node, st': State) {
    && g in Gens(st.tree) && g in Gens(t1)
    && st'.tree == AddKid(t1, g, Gen(st'.working, st.last + 1, []))
    && st.committed in Gens(st'.tree) && st'.working in Nodes(Sub(st'.tree, st.committed))
    && TipEnd(st') == EndOf(st.tree, g)
  }

  /** Versions e to e + n of s' are of generation k; around them those of s stand, in the
      same order. */
  ghost predicate Spliced(s: Store, e: int, n: int, k: int, s': Store) {
    && Located(s.order, s.mem) && Located(s'.order, s'.mem)
    && 0 <= e <= |s.order| && 0 <= n && |s'.order| == |s.order| + n
    && (forall i :: 0 <= i < e ==> s'.order[i].gen == s.order[i].gen && Real(s', i) == Real(s, i))
    && (forall i :: e <= i < e + n ==> s'.order[i].gen == k)
    && (forall i :: e <= i < |s.order| ==> s'.order[i + n].gen == s.order[i].gen && Real(s', i + n) == Real(s, i))
  }

  lemma SplicedSame(s: Store, e: int, k: int, s': Store)
    requires Inv(s) && Matches(s, s') && 0 <= e <= |s.order|
    ensures Spliced(s, e, 0, k, s')
  {
  }

  lemma SplicedAdopt(s: Store, e: nat, loc: int, p: Page)
    requires Located(s.order, s.mem) && e <= |s.order| && forall i :: 0 <= i < |s.order| ==> s.order[i].loc != loc
    ensures Spliced(s, e, 1, s.working, Adopt(s, e, loc, p))
  {
  }

  lemma SplicedThen(s: Store, e: int, n: int, k: int, m: Store, n': int, s': Store)
    requires Spliced(s, e, n, k, m) && Spliced(m, e + n, n', k, s')
    ensures Spliced(s, e, n + n', k, s')
  {
  }

  lemma SplicedNot(s: Store, e: int)
    requires Inv(s) && 0 <= e <= |s.order|
    ensures Spliced(s, e, 0, s.working, s)
  {
  }

  lemma SplicedLength(s: Store, e: int, n: int, k: int, s': Store)
    requires Spliced(s, e, n, k, s')
    ensures 0 <= e + n <= |s'.order|
  {
  }

  /** A step of an evaluation, at place e if it adds a page. */
  lemma StepSplices(s: Store, l: Step, e: int, s': Store)
    requires Inv(s) && Taken(s, l, s') && (l.Trap? || l.Write? || l.Leak? || l.NewPage?) && 0 <= e <= |s.order|
    requires l.Trap? || l.NewPage? ==> l.j == e
    ensures Spliced(s, e, if l.Trap? || l.NewPage? then 1 else 0, s.working, s') && s'.working == s.working
  {
    match l
    case Trap(a, copy, j) =>
      var m := Relocate(s, a, copy);
      RelocateKeeps(s, a, copy);
      SplicedSame(s, e, s.working, m);
      SplicedAdopt(m, j, a, s.mem[a].(committed := false));
      SplicedThen(s, e, 0, s.working, m, 1, s');
    case Write(a, p) => assert Matches(s, s');
    case Leak(a, p) => assert Matches(s, s');
    case NewPage(at, n, j) => SplicedAdopt(s, j, at, FreshPage(at, n));
  }

  /** The versions that an evaluation adds stand together. */
  lemma {:induction false} RunSplices(s: Store, ls: seq<Step>, e: int, e': int, s': Store)
    requires Inv(s) && Run(s, ls, s') && Evaluates(ls) && Stacked(e, ls, e') && 0 <= e <= |s.order|
    ensures Spliced(s, e, e' - e, s.working, s')
    decreases ls
  {
    hide Inv, Taken, Spliced;
    if ls == [] {
      SplicedNot(s, e);
    } else {
      var m :| Taken(s, ls[0], m) && Run(m, ls[1..], s');
      var n := if ls[0].Trap? || ls[0].NewPage? then 1 else 0;
      StepKeeps(s, ls[0], m);
      StepSplices(s, ls[0], e, m);
      SplicedLength(s, e, n, s.working, m);
      RunSplices(m, ls[1..], e + n, e', s');
      SplicedThen(s, e, n, s.working, m, e' - e - n, s');
    }
  }

  /** The versions of a new generation go behind those of the first generation at or below
      the committed one that has a free slot; the others keep their order. */
  ghost predicate Lands(st: State, st': State) {
    exists g, t1, n :: LandsAt(st, g, t1, n, st')
  }

  ghost predicate LandsAt(st: State, g: int, t1: Node, n: int, st': State) {
    && Hosts(st.tree, st.committed, g, t1) && g in Gens(st.tree)
    && Spliced(View(st), EndOf(st.tree, g), n, st.last + 1, View(st'))
  }

  // ------------------------------------------------------------ leaks

  ghost predicate LeakIn(l: Step, bytes: set<int>) {
    l.Leak? ==> exists x :: x in bytes && l.a <= x < l.a + Bytes(l.p.pages)
  }

  /** Writes that were not trapped hit pages with some of the bytes. */
  ghost predicate LeaksIn(ls: seq<Step>, bytes: set<int>) {
    forall i :: 0 <= i < |ls| ==> LeakIn(ls[i], bytes)
  }

  lemma LeaksJoin(a: seq<Step>, b: seq<Step>, bytes: set<int>, bytes': set<int>)
    requires LeaksIn(a, bytes) && LeaksIn(b, bytes') && bytes' <= bytes
    ensures LeaksIn(a + b, bytes)
  {
    forall i | 0 <= i < |a + b| ensures LeakIn((a + b)[i], bytes) {
      if i < |a| { assert LeakIn(a[i], bytes); } else { assert LeakIn(b[i - |a|], bytes'); }
    }
  }

  lemma SealedLeaks(ls: seq<Step>, bytes: set<int>)
    requires Sealed(ls)
    ensures LeaksIn(ls, bytes)
  {
  }

  // ------------------------------------------------------------ allocations

  /** p is the payload of n bytes of a segment of a page at home. */
  ghost predicate Live(pages: map<int, Page>, p: int, n: int) {
    exists a, i :: LiveAt(pages, a, i, p, n)
  }

  ghost predicate LiveAt(pages: map<int, Page>, a: int, i: int, p: int, n: int) {
    && a in pages && pages[a].realAddr == a && 0 <= i < |pages[a].c| && i < |pages[a].segs|
    && pages[a].c[i] + SEGMENT_HEADER == p && pages[a].segs[i].size == n
  }

  ghost predicate Disjoint(p: int, n: int, q: int, m: int) { p + n <= q || q + m <= p }

  /** Allocation safety: the payloads of the pages at home share no byte. */
  lemma LiveApart(pages: map<int, Page>, size: int, a: int, i: int, p: int, n: int, b: int, j: int, q: int, m: int)
    requires AllTiled(pages) && PagesPlaced(pages, size)
    requires LiveAt(pages, a, i, p, n) && LiveAt(pages, b, j, q, m) && (a != b || i != j)
    ensures Disjoint(p, n, q, m)
  {
    assert Tiled(pages[a], a) && Tiled(pages[b], b);
    if a == b {
      if i < j { SegmentsDisjoint(pages[a], a, i, j); } else { SegmentsDisjoint(pages[a], a, j, i); }
    } else {
      SegmentInPage(pages[a], a, i);
      SegmentInPage(pages[b], b, j);
    }
  }

  /** The same for any two distinct payloads, however they are reached. */
  lemma PayloadsApart(pages: map<int, Page>, size: int, p: int, n: int, q: int, m: int)
    requires AllTiled(pages) && PagesPlaced(pages, size) && Live(pages, p, n) && Live(pages, q, m)
    ensures (p == q && n == m) || Disjoint(p, n, q, m)
  {
    var a, i :| LiveAt(pages, a, i, p, n);
    var b, j :| LiveAt(pages, b, j, q, m);
    if a != b || i != j { LiveApart(pages, size, a, i, p, n, b, j, q, m); }
  }

  /** No segment has moved or changed its size. */
  ghost predicate Laid(pages: map<int, Page>, pages': map<int, Page>) {
    forall a :: a in pages ==> a in pages' && LaidAt(pages[a], pages'[a])
  }

  ghost predicate LaidAt(p: Page, q: Page) {
    && q.realAddr == p.realAddr && q.pages == p.pages && |p.c| <= |q.c| && |p.segs| <= |q.segs|
    && forall i :: 0 <= i < |p.c| && i < |p.segs| ==> q.c[i] == p.c[i] && q.segs[i].size == p.segs[i].size
  }

  lemma LaidLive(pages: map<int, Page>, pages': map<int, Page>, p: int, n: int)
    requires Laid(pages, pages') && Live(pages, p, n)
    ensures Live(pages', p, n)
  {
    var a, i :| LiveAt(pages, a, i, p, n);
    assert LiveAt(pages', a, i, p, n);
  }

  /** Commit bits and the segments that were there are as before. */
  ghost predicate Intact(pages: map<int, Page>, pages': map<int, Page>) {
    forall a :: a in pages ==> a in pages' && LaidAt(pages[a], pages'[a]) && IntactAt(pages[a], pages'[a])
  }

  ghost predicate IntactAt(p: Page, q: Page) { q.committed == p.committed && p.segs <= q.segs }

  /** Payloads stay where they are over everything but a checkout. */
  lemma LiveStays(s: Store, l: Step, s': Store, p: int, n: int)
    requires Inv(s) && Taken(s, l, s') && !l.Checkout? && Live(s.mem, p, n)
    ensures Live(s'.mem, p, n)
  {
    TakenLaid(s, l, s');
    LaidLive(s.mem, s'.mem, p, n);
  }

  lemma TakenLaid(s: Store, l: Step, s': Store)
    requires Inv(s) && Taken(s, l, s') && !l.Checkout?
    ensures Laid(s.mem, s'.mem)
  {
    assert forall a :: a in s.mem ==> |s.mem[a].c| == |s.mem[a].segs|;
  }

  /** Over any run of the current line, across commits, what was allocated stays
      allocated: nothing that is allocated later can overlap it. */
  lemma {:induction false} RunKeepsLive(s: Store, ls: seq<Step>, s': Store, p: int, n: int)
    requires Inv(s) && Run(s, ls, s') && Live(s.mem, p, n)
    requires forall i :: 0 <= i < |ls| ==> !ls[i].Checkout?
    ensures Live(s'.mem, p, n)
    decreases ls
  {
    if ls != [] {
      var m :| Taken(s, ls[0], m) && Run(m, ls[1..], s');
      LiveStays(s, ls[0], m, p, n);
      StepKeeps(s, ls[0], m);
      RunKeepsLive(m, ls[1..], s', p, n);
    }
  }

  /** A payload that page_new_segment returns: it shares no byte with any other. */
  ghost predicate Allocated(pages: map<int, Page>, p: int, n: int, pages': map<int, Page>) {
    && Live(pages', p, n)
    && forall q, m :: Live(pages, q, m) ==> Live(pages', q, m) && Disjoint(p, n, q, m)
  }

  lemma SegmentAllocated(pages: map<int, Page>, size: int, a: int, n: int, junk: seq<Byte>, pages': map<int, Page>)
    requires AllTiled(pages') && PagesPlaced(pages', size)
    requires a in pages && pages[a].realAddr == a && |pages[a].c| == |pages[a].segs|
    requires pages' == pages[a := NewSegment(pages[a], a, n, junk)]
    ensures Allocated(pages, DataStart(pages[a], a) + 1 - n, n, pages')
  {
    var p, k := DataStart(pages[a], a) + 1 - n, |pages[a].c|;
    assert LiveAt(pages', a, k, p, n);
    forall q, m | Live(pages, q, m) ensures Live(pages', q, m) && Disjoint(p, n, q, m) {
      var b, j :| LiveAt(pages, b, j, q, m);
      assert LiveAt(pages', b, j, q, m);
      LiveApart(pages', size, a, k, p, n, b, j, q, m);
    }
  }

  /** Allocation safety over runs: two payloads returned at different times of the
      current line, across any commits between, share no byte. */
  lemma AllocationsApart(s: Store, p: int, n: int, s1: Store, ls: seq<Step>, s2: Store, q: int, m: int, s3: Store)
    requires Allocated(s.mem, p, n, s1.mem) && Inv(s1) && Run(s1, ls, s2)
    requires forall i :: 0 <= i < |ls| ==> !ls[i].Checkout?
    requires Allocated(s2.mem, q, m, s3.mem)
    ensures Disjoint(p, n, q, m)
  {
    RunKeepsLive(s1, ls, s2, p, n);
    assert Live(s2.mem, p, n);
  }
}
