/** The evaluator's server loop: one transaction per query. */
module Driver {
  import opened Layout
  import opened Pages
  import opened VersionStore
  import opened History
  import opened LinearHistory
  import opened Walks
  import opened Maps
  import opened Carving
  import opened Protections
  import opened Guards
  import opened HeapStates
  import opened Callbacks
  import opened Evolution
  import opened Sights
  import opened Shields
  import opened Breaches
  import opened Heaps
  import opened Allocator
  import opened Evaluator
  import opened Transactions
  import opened Bootstrap
  import opened Sessions

  // ------------------------------------------------------------ queries

  /** The heap answered a query: if the query was rolled back the same node is
      committed as before, and otherwise that of the new generation. */
  ghost predicate Answered(st: State, rolledBack: bool, st': State) {
    && !Mut(st') && st'.last == st.last + 1
    && Id(st', st'.committed) == (if rolledBack then Id(st, st.committed) else st.last + 1)
    && (rolledBack ==> st'.committed == st.committed)
  }

  /** Commit bits are not seen. */
  lemma CommitSight(st: State, st': State)
    requires Done(st, Commit, st')
    ensures Sight(st'.pages) == Sight(st.pages) && |st'.pages| == |st.pages|
  {
    CommitUnseen(View(st), View(st'));
    assert st'.pages.Keys == st.pages.Keys;
    SameCount(st'.pages, st.pages);
  }

  lemma WorksIs(st: State, st1: State, ops: seq<Op>, evaluation: seq<Step>, st2: State, st3: State)
    requires Sane(st, {}) && !Mut(st) && Done(st, Begin, st1) && Hangs(st, st1) && st1.pages == st.pages
    requires Evaluated(st1, evaluation, st2) && Done(st2, Commit, st3)
    requires ActedAll(st1, ops, evaluation, st2)
    requires Performed(Sight(st1.pages), ops, Sight(st2.pages)) && |st2.pages| <= |st1.pages| + 2 * |ops|
    requires Answered(st, false, st3)
    ensures Works(st, ops, st3)
  {
    hide Done, Hangs, Evaluated, Performed, Sight, Sane, Lands, ActedAll;
    CommitSight(st2, st3);
    WorkLands(st, st1, evaluation, st2, st3);
    assert WorksBy(st, ops, st1, evaluation, st2, st3);
  }

  lemma FailsQuery(stop: Stop, st: State, ro: set<int>, size: int, ops: seq<Op>, pages: map<int, Page>, size': int)
    requires pages == st.pages && size' >= size && Fails(stop, Sight(pages), |pages|, size', ops)
    ensures QueryFails(stop, st, ro, size, ops)
  {
    hide Performed, Sight, Stuck, Completes;
    var k, m1, count1, size1 :| FailsAt(stop, Sight(pages), |pages|, size', ops, k, m1, count1, size1);
    assert FailsAt(stop, Sight(pages), |pages|, size, ops, k, m1, count1, size1);
  }

  /** snap_begin_mut, do_eval and snap_commit. */
  method Transact(h: Heap, ops: seq<Op>) returns (stop: Stop, r: int, ghost evaluation: seq<Step>)
    requires h.Valid() && !Mut(h.St())
    modifies h, h.prot`os, h.prot.active`len, h.prot.active.m
    ensures h.size >= old(h.size) && (stop != Going ==> QueryFails(stop, old(h.St()), old(h.ro), old(h.size), ops))
    ensures stop == Going ==> h.Valid() && Answered(old(h.St()), false, h.St()) && r == old(h.lastGenIndex) + 1
    ensures stop == Going ==> h.tops == old(h.tops)[r := h.committed] && Works(old(h.St()), ops, h.St())
    ensures stop == Going ==> Evaluates(evaluation) && Travelled(old(h.St()), old(Newest(h.St())), Worked(evaluation), h.St())
    ensures stop == Going ==> Watched(old(h.V()), old(h.ro), old(h.prot.Leaks()), Worked(evaluation), h.ro, h.prot.Leaks())
  {
    hide Heap.Valid, Completes, Shielded, Quiet, LeaksIn, Sane, Done, Evaluated, Travelled, Evaluates, View, Worked,
      Watched, Newest,
      Homes, Hangs, Works, ActedAll, QueryFails, Fails, Performed, Sight, Crowded, Protection.Leaks, Protection.Agreed;
    ValidFacts(h);
    ghost var st, ro, size, was := h.St(), h.ro, h.size, h.prot.Leaks();
    evaluation := [];
    stop, r := BeginMut(h);
    if stop != Going {
      BeginFails(stop, st, ro, size, ops);
      return;
    }
    ValidFacts(h);
    ghost var st1, size1, bytes := h.St(), h.size, h.prot.Leaks();
    stop, evaluation := Evaluate(h, ops);
    if stop != Going {
      FailsQuery(stop, st, ro, size, ops, st1.pages, size1);
      return;
    }
    ValidFacts(h);
    ghost var st2, ro2, leaks2 := h.St(), h.ro, h.prot.Leaks();
    r := CommitWork(h);
    ValidFacts(h);
    WorkDone(st, st1, evaluation, st2, h.St());
    WorksIs(st, st1, ops, evaluation, st2, h.St());
    WorkGuards(st, ro, st1, evaluation, st2, ro2, h.St(), was, bytes, h.prot.Leaks());
  }

  lemma BeginFails(stop: Stop, st: State, ro: set<int>, size: int, ops: seq<Op>)
    requires stop in {EmptyLeft, TableFull}
    requires (stop == EmptyLeft ==> !Completes(View(st), ro)) && (stop == TableFull ==> Crowded(|st.pages|))
    ensures QueryFails(stop, st, ro, size, ops)
  {
    hide Completes, Fails;
  }

  lemma CommittedId(st: State)
    requires Sane(st, {})
    ensures st.committed in st.gens && Id(st, st.committed) == st.gens[st.committed].gen == View(st).committed
    ensures 0 <= st.gens[st.committed].gen <= st.last && Id(st, st.committed) in st.tops && st.tops[Id(st, st.committed)] == st.committed
  {
  }

  lemma AnswersIs(st: State, ops: seq<Op>, m: State, k: int, swaps: seq<int>, st': State)
    requires Works(st, ops, m) && k == Id(st, st.committed)
    requires CheckedOut(m, k, swaps, st') && swaps == SwapsTo(View(m), k) && |st'.pages| == |m.pages| && st'.committed == st.committed
    ensures Answers(st, ops, true, st')
  {
    hide Works, Done, SwapsTo, View;
    assert Returns(st, m, st');
  }

  lemma AnswersNow(st: State, ops: seq<Op>, m: State)
    requires Works(st, ops, m)
    ensures Answers(st, ops, false, m)
  {
    hide Works;
  }

  lemma BackFails(st: State, ro: set<int>, size: int, ops: seq<Op>, m: State)
    requires Works(st, ops, m) && Crowded(|m.pages|)
    ensures QueryFails(TableFull, st, ro, size, ops)
  {
    hide Performed, Lands, Fails, Completes, Sight;
  }

  /** One query: after it the parent is committed if it failed or only read, and
      the new generation otherwise. */
  method RunQuery(h: Heap, ops: seq<Op>, fails: bool, readonly: bool) returns (stop: Stop, reply: Reply, ghost ls: seq<Step>)
    requires h.Valid() && !Mut(h.St())
    modifies h, h.prot`os, h.prot.active`len, h.prot.active.m
    ensures h.size >= old(h.size) && (stop != Going ==> QueryFails(stop, old(h.St()), old(h.ro), old(h.size), ops))
    ensures stop == Going ==> h.Valid() && Answered(old(h.St()), fails || readonly, h.St())
    ensures stop == Going ==> Answers(old(h.St()), ops, fails || readonly, h.St())
    ensures stop == Going ==> reply == Reply(fails, old(h.lastGenIndex) + 1, old(Id(h.St(), h.committed)))
    ensures stop == Going ==> Travelled(old(h.St()), old(Newest(h.St())), ls, h.St())
    ensures stop == Going && (fails || readonly) ==> Undone(old(h.V()), ls, h.V())
    ensures stop == Going ==> Watched(old(h.V()), old(h.ro), old(h.prot.Leaks()), ls, h.ro, h.prot.Leaks())
    ensures stop == Going && old(Tail(h.St()) && Newest(h.St()) && Settled(h.V(), h.ro)) ==> Settled(h.V(), h.ro)
  {
    hide Heap.Valid, Sane, Done, Undone, Settled, View, Travelled, Evaluates, RoAfter, SwapsTo, Worked, Works, Answers,
      QueryFails,
      Watched, Tail, Crowded, Protection.Leaks;
    ValidFacts(h);
    ghost var st, ro, size, was := h.St(), h.ro, h.size, h.prot.Leaks();
    CommittedId(st);
    var parent := h.gens[h.committed].gen;
    ghost var evaluation, swaps;
    var r;
    stop, r, evaluation := Transact(h, ops);
    reply := Reply(fails, r, parent);
    ls := Worked(evaluation);
    if stop != Going { return; }
    ValidFacts(h);
    ghost var st3, ro3, leaks3 := h.St(), h.ro, h.prot.Leaks();
    if Tail(st) && Newest(st) && Settled(View(st), ro) { TransactionSettles(st, ro, was, evaluation, st3, ro3, leaks3); }
    if fails || readonly {
      stop, swaps := CheckoutGen(h, parent);
      if stop != Going {
        BackFails(st, ro, size, ops, st3);
        return;
      }
      ValidFacts(h);
      AnswersIs(st, ops, st3, parent, swaps, h.St());
      WorkUndone(st, evaluation, st3, parent, swaps, h.St());
      BackGuards(st, ro, was, ls, st3, ro3, leaks3, parent, h.St(), h.ro, h.prot.Leaks());
      ls := ls + [Checkout(parent, swaps)];
    } else {
      AnswersNow(st, ops, st3);
    }
  }

  /** A mutation begins, and a byte that is left bare then is stored: no trap. */
  method BareStore(h: Heap, a: int, i: int, o: int, v: Byte) returns (stop: Stop, ghost st1: State, ghost ls: seq<Step>)
    requires h.Valid() && !Mut(h.St())
    requires a in h.pages && h.pages[a].realAddr == a && 0 <= i < |h.pages[a].c| && i < |h.pages[a].segs|
    requires 0 <= o < h.pages[a].segs[i].size == |h.pages[a].segs[i].data|
    requires Bared(h.V(), h.ro, h.pages[a].c[i] + SEGMENT_HEADER + o)
    modifies h, h.prot`os, h.prot.active`len, h.prot.active.m
    ensures stop in {Going, EmptyLeft, TableFull}
    ensures (stop == EmptyLeft ==> !Completes(old(h.V()), old(h.ro))) && (stop == TableFull ==> Crowded(|old(h.pages)|))
    ensures stop == Going ==> h.Valid() && Done(old(h.St()), Begin, st1) && Mut(st1) && st1.pages == old(h.pages)
    ensures stop == Going ==> |ls| == 1 && Rewritten(st1, a, i, old(Poke(h.pages[a], i, o, v).segs[i]), ls, h.St())
    ensures stop == Going ==> h.lastGenIndex == old(h.lastGenIndex) + 1 && h.tops == old(h.tops)[h.lastGenIndex := h.working]
  {
    hide Heap.Valid, Sane, Done, View, Shielded, Completes, Bared, Rewritten, Hangs, Writes, WriteSpace, HeadSpace,
      OnlyByte, LeaksIn, Quiet, Crowded, Poke, Extents, Protection.Agreed, Protection.Leaks;
    ValidFacts(h);
    ghost var st, was := h.St(), h.prot.Leaks();
    st1, ls := st, [];
    var r;
    stop, r := BeginMut(h);
    if stop != Going { return; }
    st1 := h.St();
    BegunBare(st, h, old(h.ro), was, a, st.pages[a].c[i] + SEGMENT_HEADER + o);
    ls := StoreBare(h, a, i, o, v);
  }

  /** A store to a byte that the process can write. */
  method StoreBare(h: Heap, a: int, i: int, o: int, v: Byte) returns (ghost ls: seq<Step>)
    requires h.Valid() && a in h.pages && h.pages[a].realAddr == a && 0 <= i < |h.pages[a].c| && i < |h.pages[a].segs|
    requires 0 <= o < h.pages[a].segs[i].size == |h.pages[a].segs[i].data| && h.prot.os(h.pages[a].c[i] + SEGMENT_HEADER + o)
    modifies h`size, h`lastPage, h`lastGen, h`gens, h`pages, h`tree, h`ro, h.prot`os, h.prot.active`len, h.prot.active.m
    ensures h.Valid() && |ls| == 1 && Rewritten(old(h.St()), a, i, old(Poke(h.pages[a], i, o, v).segs[i]), ls, h.St())
    ensures h.prot.Leaks() <= old(h.prot.Leaks())
  {
    hide Heap.Valid, Sane, Rewritten, Writes, WriteSpace, OnlyByte, LeaksIn, Poke, Protection.Leaks;
    PlacedHolds(h);
    ghost var sp, pages, mut := h.Sp(), h.pages, Mut(h.St());
    var stop;
    stop, ls := StoreByte(h, a, i, o, v);
    WritesOn(stop, mut, sp, pages, a);
  }

  /** A query that stores one byte in a page that is left bare when it begins, and fails:
      it is rolled back as any other, but the page is not as it was. */
  method FailedStore(h: Heap, a: int, i: int, o: int, v: Byte) returns (stop: Stop)
    requires h.Valid() && !Mut(h.St()) && StandsHome'(h.V(), Id(h.St(), h.committed)) && HasVersion(Versions(h.V(), Id(h.St(), h.committed)), a)
    requires a in h.pages && h.pages[a].realAddr == a && 0 <= i < |h.pages[a].c| && i < |h.pages[a].segs|
    requires 0 <= o < h.pages[a].segs[i].size == |h.pages[a].segs[i].data| && h.pages[a].segs[i].data[o] != v
    requires Bared(h.V(), h.ro, h.pages[a].c[i] + SEGMENT_HEADER + o)
    modifies h, h.prot`os, h.prot.active`len, h.prot.active.m
    ensures stop in {Going, EmptyLeft, TableFull}
    ensures (stop == EmptyLeft ==> !Completes(old(h.V()), old(h.ro))) && (stop == TableFull ==> Crowded(|old(h.pages)|))
    ensures stop == Going ==> h.Valid() && Answered(old(h.St()), true, h.St())
    ensures stop == Going ==> old(Coherent(h.V(), Id(h.St(), h.committed))) && !Restored(old(h.V()), h.V(), old(Id(h.St(), h.committed)))
    ensures stop == Going ==> a in h.pages && h.pages[a] == old(Poke(h.pages[a], i, o, v))
  {
    hide Heap.Valid, Sane, Done, View, Bared, Rewritten, RoAfter, SwapsTo, Restored, Coherent, StandsHome', HasVersion, Versions,
      Completes, Crowded, Protection.Leaks;
    ValidFacts(h);
    ghost var st := h.St();
    CommittedId(st);
    var parent := h.gens[h.committed].gen;
    ghost var st1, ls;
    stop, st1, ls := BareStore(h, a, i, o, v);
    if stop != Going { return; }
    ghost var st2 := h.St();
    StoreMut(st1, a, i, old(Poke(h.pages[a], i, o, v).segs[i]), ls, st2);
    NoTrapCount(st1, a, i, old(Poke(h.pages[a], i, o, v).segs[i]), ls, st2);
    var r := CommitWork(h);
    ghost var st3 := h.St();
    CommitSight(st2, st3);
    ghost var swaps;
    stop, swaps := CheckoutGen(h, parent);
    if stop != Going { return; }
    StoreBreaches(st, st1, a, i, o, v, ls, st2, st3, swaps, h.St());
  }

  lemma StoreMut(st1: State, a: int, i: int, s: Segment, ls: seq<Step>, st2: State)
    requires Mut(st1) && Rewritten(st1, a, i, s, ls, st2)
    ensures Mut(st2)
  {
  }

  /** After the beginning the byte is one that the process can write. */
  lemma BegunBare(st: State, h: Heap, ro: set<int>, was: set<int>, a: int, addr: int)
    requires h.Valid() && Done(st, Begin, h.St()) && Shielded(View(st), ro, was, h.prot.Leaks()) && Bared(View(st), ro, addr)
    ensures h.prot.os(addr) && h.pages == st.pages
  {
    assert addr in h.prot.Leaks();
    assert View(h.St()).mem == View(st).mem;
  }

  /** The store is one write that was not trapped. */
  lemma StoreLeaks(st1: State, a: int, i: int, s: Segment, ls: seq<Step>, st2: State)
    requires a in st1.pages && 0 <= i < |st1.pages[a].segs| && Mut(st1) && Rewritten(st1, a, i, s, ls, st2) && |ls| == 1
    requires st1.pages[a].committed
    ensures var p := st1.pages[a].(segs := st1.pages[a].segs[i := s]);
            Taken(View(st1), Leak(a, p), View(st2)) && a in st2.pages && Mut(st2)
  {
    hide Sane, Taken, Tail, View;
    var p := st1.pages[a].(segs := st1.pages[a].segs[i := s]);
    assert ls[..0] == [];
    assert st2.pages[a] == p;
    assert ls == [Leak(a, p)];
    RunOne(View(st1), Leak(a, p), View(st2));
  }

  lemma StoreBreaches(st: State, st1: State, a: int, i: int, o: int, v: Byte, ls: seq<Step>, st2: State, st3: State,
                      swaps: seq<int>, st4: State)
    requires Sane(st, {}) && !Mut(st) && a in st.pages && 0 <= i < |st.pages[a].segs| && 0 <= o < |st.pages[a].segs[i].data|
    requires StandsHome'(View(st), View(st).committed) && HasVersion(Versions(View(st), View(st).committed), a)
    requires st.pages[a].segs[i].data[o] != v && |ls| == 1 && st1.pages == st.pages
    requires Done(st, Begin, st1) && Mut(st1) && Rewritten(st1, a, i, Poke(st.pages[a], i, o, v).segs[i], ls, st2)
    requires Done(st2, Commit, st3) && swaps == SwapsTo(View(st3), View(st).committed) && Done(st3, Checkout(View(st).committed, swaps), st4)
    ensures Coherent(View(st), View(st).committed) && !Restored(View(st), View(st4), View(st).committed)
    ensures a in st4.pages && st4.pages[a] == Poke(st.pages[a], i, o, v)
  {
    AllCommitted(st);
    SaneTop(st, {});
    HeadIds(st);
    hide Sane, Taken, Tail, Rewritten, Inv, StandsHome, Coherent, Restored, SwapsTo, Versions;
    var p := Poke(st.pages[a], i, o, v);
    StoreLeaks(st1, a, i, p.segs[i], ls, st2);
    assert p.segs[i].data[o] == v;
    BreachedIs(View(st), a, p, View(st1), View(st2), View(st3), View(st4));
  }

  // ------------------------------------------------------------ the server loop

  lemma GoesIs(st: State, ro: set<int>, k: int, swaps: seq<int>, st': State, ro': set<int>)
    requires CheckedOut(st, k, swaps, st') && swaps == SwapsTo(View(st), k) && |st'.pages| == |st.pages|
    requires ro' == RoAfter(View(st), ro, Checkout(k, swaps))
    ensures Goes(st, Some(k), st') && RoLeft(st, ro, Some(k), ro')
  {
    hide Done, SwapsTo, View, RoAfter;
  }

  lemma GoesNot(st: State, ro: set<int>)
    ensures Goes(st, None, st) && RoLeft(st, ro, None, ro)
  {
  }

  /** The checkout that a line of input asks for. */
  method GoTo(h: Heap, from: Option<int>) returns (stop: Stop, ghost ls: seq<Step>)
    requires h.Valid() && !Mut(h.St())
    modifies h`gens, h`pages, h`tree, h`ro, h`working, h`committed, h.prot`os, h.prot.active`len, h.prot.active.m
    ensures stop in {Going, NoGeneration, TableFull}
    ensures stop == NoGeneration <==> from.Some? && !(0 <= from.value <= h.lastGenIndex)
    ensures stop == TableFull ==> from.Some? && Crowded(|old(h.pages)|)
    ensures stop == Going ==> Goes(old(h.St()), from, h.St()) && RoLeft(old(h.St()), old(h.ro), from, h.ro)
    ensures stop == Going ==> h.Valid() && !Mut(h.St()) && Travelled(old(h.St()), true, ls, h.St())
    ensures stop == Going ==> Id(h.St(), h.committed) == if from.Some? then from.value else old(Id(h.St(), h.committed))
    ensures stop == Going ==> h.ro == RoEnd(old(h.V()), old(h.ro), ls)
    ensures Sealed(ls) && (stop == Going ==> h.prot.Leaks() <= old(h.prot.Leaks()))
    ensures stop == Going && (from.Some? ==> from.value >= h.lastGenIndex - 1) && old(Settled(h.V(), h.ro)) ==> Settled(h.V(), h.ro)
  {
    hide Heap.Valid, Sane, Done, Travelled, Settled, View, RoEnd, RoAfter, SwapsTo, Goes, RoLeft, Crowded, Protection.Leaks;
    ValidFacts(h);
    ghost var st, ro := h.St(), h.ro;
    ghost var swaps;
    TravelledNot(st);
    RoNot(View(st), ro);
    GoesNot(st, ro);
    stop, ls := Going, [];
    if from.None? { return; }
    stop, swaps := CheckoutGen(h, from.value);
    ls := [Checkout(from.value, swaps)];
    if stop != Going { return; }
    ValidFacts(h);
    GoesIs(st, ro, from.value, swaps, h.St(), h.ro);
    TravelledOne(st, Checkout(from.value, swaps), h.St());
    RoOne(View(st), ro, Checkout(from.value, swaps));
    if from.value >= h.lastGenIndex - 1 && Settled(View(st), ro) { StaysSettled(st, ro, from.value, h.St()); }
  }

  lemma BeginsQuiet(h: Heap)
    requires h.Valid()
    ensures h.prot.Valid() && (Settled(h.V(), h.ro) && Newest(h.St()) ==> Quiet(h.V(), h.ro) && Completes(h.V(), h.ro))
  {
    QueryBegins(h.St(), h.prot.Maps(), h.Sp(), h.ro);
  }

  // ------------------------------------------------------------ how lines end

  lemma ServesNot(st: State)
    ensures Serves(st, Bad, st)
  {
  }

  lemma ServesOnly(st: State, x: Input, m: State)
    requires x.Incomplete? && Goes(st, x.from, m)
    ensures Serves(st, x, m)
  {
    hide Goes;
  }

  lemma ServesQuery(st: State, x: Input, m: State, st': State)
    requires x.Query? && Goes(st, x.from, m) && Answers(m, x.ops, x.fails || x.readonly, st')
    ensures Serves(st, x, st')
  {
    hide Goes, Answers;
  }

  lemma GoingFails(stop: Stop, st: State, ro: set<int>, size: int, x: Input)
    requires !x.Bad? && stop in {NoGeneration, TableFull} && x.from.Some?
    requires stop == NoGeneration ==> !(0 <= x.from.value <= st.last)
    requires stop == TableFull ==> Crowded(|st.pages|)
    ensures LineFails(stop, st, ro, size, x)
  {
    hide Goes, RoLeft, QueryFails;
  }

  lemma QueryingFails(stop: Stop, st: State, ro: set<int>, size: int, x: Input, m: State, mro: set<int>)
    requires x.Query? && Goes(st, x.from, m) && RoLeft(st, ro, x.from, mro) && QueryFails(stop, m, mro, size, x.ops)
    ensures LineFails(stop, st, ro, size, x)
  {
    hide Goes, RoLeft, QueryFails;
  }

  /** A merge is aborted only in a heap whose homes do not complete. */
  lemma AbortedOnly(st: State, ro: set<int>, size: int, ops: seq<Op>)
    requires QueryFails(EmptyLeft, st, ro, size, ops)
    ensures !Completes(View(st), ro)
  {
    hide Completes, Performed, Sight;
  }

  /** One line of input, and the reply to it if it is a query. */
  method Serve(h: Heap, x: Input) returns (stop: Stop, replies: seq<Reply>, ghost ls: seq<Step>)
    requires h.Valid() && !Mut(h.St())
    modifies h, h.prot`os, h.prot.active`len, h.prot.active.m
    ensures h.size >= old(h.size) && (stop != Going ==> LineFails(stop, old(h.St()), old(h.ro), old(h.size), x))
    ensures stop == Going ==> h.Valid() && !Mut(h.St()) && Serves(old(h.St()), x, h.St())
    ensures stop == Going ==> replies == Replies(old(Id(h.St(), h.committed)), old(h.lastGenIndex), [x])
    ensures stop == Going && x.Query? ==> h.lastGenIndex == old(h.lastGenIndex) + 1
    ensures stop == Going && x.Query? ==>
              Id(h.St(), h.committed) == HeadAfter(old(Id(h.St(), h.committed)), old(h.lastGenIndex) + 1, x)
    ensures stop == Going && !x.Query? ==> h.lastGenIndex == old(h.lastGenIndex)
    ensures stop == Going ==> Travelled(old(h.St()), Straight(old(Id(h.St(), h.committed)), old(h.lastGenIndex), [x]), ls, h.St())
    ensures stop == Going ==> h.ro == RoEnd(old(h.V()), old(h.ro), ls)
    ensures stop == Going ==> Calm(old(h.V()), old(h.ro), old(h.prot.Leaks()), ls, h.prot.Leaks())
    ensures old(AtRest(h)) && Straight(old(Id(h.St(), h.committed)), old(h.lastGenIndex), [x]) ==>
              stop != EmptyLeft && (stop == Going ==> Sealed(ls) && h.prot.Leaks() == {} && (x.Query? ==> AtRest(h)))
  {
    hide Heap.Valid, Sane, View, Settled, Travelled, Undone, Tail, RoEnd, Calm, Quiet, Completes, Sealed, Watched, Id, Goes,
      RoLeft, Answers,
      Serves, QueryFails, LineFails, Crowded, Protection.Leaks;
    ValidFacts(h);
    ghost var st, ro, was := h.St(), h.ro, h.prot.Leaks();
    stop, replies, ls := Going, [], [];
    assert [x][1..] == [];
    TravelledNot(st);
    RoNot(View(st), ro);
    NoneSealed();
    CalmNot(View(st), ro, was, [], was);
    ServesNot(st);
    if x.Bad? { return; }
    stop, ls := GoTo(h, x.from);
    if stop != Going {
      GoingFails(stop, st, ro, old(h.size), x);
      return;
    }
    ValidFacts(h);
    CalmNot(View(st), ro, was, ls, h.prot.Leaks());
    ghost var st1, ro1, leaks1 := h.St(), h.ro, h.prot.Leaks();
    if x.Incomplete? {
      ServesOnly(st, x, st1);
      return;
    }
    ghost var more;
    var reply;
    TravelledTail(st, true, ls, st1);
    BeginsQuiet(h);
    stop, reply, more := RunQuery(h, x.ops, x.fails, x.readonly);
    if stop != Going {
      QueryingFails(stop, st, ro, old(h.size), x, st1, ro1);
      if stop == EmptyLeft { AbortedOnly(st1, ro1, old(h.size), x.ops); }
      return;
    }
    ValidFacts(h);
    replies := [reply];
    ServesQuery(st, x, st1, h.St());
    TravelledThen(st, true, ls, st1, Newest(st1), more, h.St());
    TravelledTail(st1, Newest(st1), more, h.St());
    QueryCalm(st, ro, was, ls, st1, ro1, leaks1, more, h.St(), h.ro, h.prot.Leaks());
    QuerySealed(View(st1), ro1, ls, leaks1, more, h.ro, h.prot.Leaks());
    ls := ls + more;
  }

  lemma SessionEnds(stop: Stop, st: State, newest: bool, ro: set<int>, size: int, xs: seq<Input>, ls: seq<Step>, k: nat,
                    m: State, mro: set<int>, size': int)
    requires k < |xs| && AllQueries(xs[..k]) && Session(st, xs[..k], m) && Travelled(st, newest, ls, m) && size' >= size
    requires mro == RoEnd(View(st), ro, ls) && LineFails(stop, m, mro, size', xs[k])
    ensures SessionFails(stop, st, ro, size, xs, ls, k)
  {
    hide Session, LineFails, RoEnd, VersionStore.Run, Tail, LinearRun, View;
    assert SessionFailsAt(stop, st, ro, size, xs, ls, k, m, size');
  }

  /** server_loop: the replies of the session, what it did to what the interpreter sees,
      and what it did to the versions. If all its queries work from the newest generation,
      and nothing leaked before it, then no mutation is aborted by a merge and every write
      into a committed page is trapped. */
  method ServerLoop(h: Heap, xs: seq<Input>) returns (stop: Stop, replies: seq<Reply>, ghost ls: seq<Step>)
    requires h.Valid() && !Mut(h.St())
    modifies h, h.prot`os, h.prot.active`len, h.prot.active.m
    ensures stop != Going ==> SessionFails(stop, old(h.St()), old(h.ro), old(h.size), xs, ls, |replies|)
    ensures replies <= Replies(old(Id(h.St(), h.committed)), old(h.lastGenIndex), xs)
    ensures stop == Going ==> h.Valid() && !Mut(h.St()) && Session(old(h.St()), xs, h.St())
    ensures stop == Going ==> replies == Replies(old(Id(h.St(), h.committed)), old(h.lastGenIndex), xs)
    ensures stop == Going ==> h.lastGenIndex == old(h.lastGenIndex) + |replies|
    ensures stop == Going ==> Ran(old(h.St()), Straight(old(Id(h.St(), h.committed)), old(h.lastGenIndex), xs), ls, h.St())
    ensures stop == Going ==> h.ro == RoEnd(old(h.V()), old(h.ro), ls)
    ensures stop == Going ==> Calm(old(h.V()), old(h.ro), old(h.prot.Leaks()), ls, h.prot.Leaks())
    ensures old(AtRest(h)) && Straight(old(Id(h.St(), h.committed)), old(h.lastGenIndex), xs) ==>
              stop != EmptyLeft && (stop == Going ==> Sealed(ls) && h.prot.Leaks() == {} && (|replies| == |xs| ==> AtRest(h)))
  {
    hide Heap.Valid, AtRest, Sane, View, Replies, Straight, Travelled, Ran, RoEnd, Calm, Sealed, Session, Serves, LineFails,
      SessionFails,
      Protection.Leaks;
    ValidFacts(h);
    ghost var st, ro, size, was := h.St(), h.ro, h.size, h.prot.Leaks();
    ghost var head, last := Id(st, st.committed), st.last;
    ghost var calm := AtRest(h) && Straight(head, last, xs);
    stop, replies, ls := Going, [], [];
    TravelledNot(st);
    RoNot(View(st), ro);
    NoneSealed();
    CalmNot(View(st), ro, was, [], was);
    SessionNone(st, xs);
    RestLeaks(h);
    ghost var newest := true;
    var i := 0;
    while i < |xs|
      invariant 0 <= i <= |xs| && stop == Going && h.Valid() && !Mut(h.St()) && h.prot.Valid() && |replies| == i && h.size >= size
      invariant AllQueries(xs[..i]) && Session(st, xs[..i], h.St())
      invariant Replies(head, last, xs) == replies + Replies(Id(h.St(), h.committed), h.lastGenIndex, xs[i..])
      invariant Straight(head, last, xs) ==> newest && Straight(Id(h.St(), h.committed), h.lastGenIndex, xs[i..])
      invariant h.lastGenIndex == last + |replies|
      invariant Travelled(st, newest, ls, h.St()) && h.ro == RoEnd(View(st), ro, ls) && Calm(View(st), ro, was, ls, h.prot.Leaks())
      invariant calm ==> AtRest(h) && Sealed(ls) && h.prot.Leaks() == {}
    {
      var reply;
      ghost var m, more, mid, mro, size' := h.St(), [], h.prot.Leaks(), h.ro, h.size;
      ghost var straight := Straight(Id(m, m.committed), m.last, [xs[i]]);
      SessionNext(Id(m, m.committed), m.last, xs[i], xs[i + 1..]);
      assert [xs[i]] + xs[i + 1..] == xs[i..];
      stop, reply, more := Serve(h, xs[i]);
      if stop != Going {
        SessionEnds(stop, st, newest, ro, size, xs, ls, i, m, mro, size');
        return;
      }
      ValidFacts(h);
      SessionServed(st, xs, i, m, h.St());
      TravelledThen(st, newest, ls, m, straight, more, h.St());
      CalmJoin(st, ro, was, newest, ls, m, mid, straight, more, h.St(), h.prot.Leaks());
      SealedJoin(ls, more);
      ls, newest := ls + more, newest && straight;
      replies := replies + reply;
      if !xs[i].Query? {
        assert replies == Replies(head, last, xs);
        break;
      }
      RestLeaks(h);
      i := i + 1;
    }
    assert xs[|xs|..] == [] && xs[..|xs|] == xs;
    SessionNext(Id(h.St(), h.committed), h.lastGenIndex, Bad, []);
    SessionRan(st, newest, ls, h.St(), Straight(head, last, xs));
  }

  lemma SessionNone(st: State, xs: seq<Input>)
    ensures AllQueries(xs[..0]) && Session(st, xs[..0], st)
  {
  }

  /** One more line has been served: the session is over if it was no query. */
  lemma SessionServed(st: State, xs: seq<Input>, i: nat, m: State, st': State)
    requires i < |xs| && AllQueries(xs[..i]) && Session(st, xs[..i], m) && Serves(m, xs[i], st')
    ensures xs[i].Query? ==> AllQueries(xs[..i + 1]) && Session(st, xs[..i + 1], st')
    ensures !xs[i].Query? ==> Session(st, xs, st')
  {
    hide Session, Serves;
    var rest := if xs[i].Query? then [] else xs[i + 1..];
    SessionOne(st, xs[..i], m, xs[i], rest, st');
    assert xs[..i] + [xs[i]] == xs[..i + 1];
    assert xs[..i + 1] + [] == xs[..i + 1];
    assert xs[..i + 1] + xs[i + 1..] == xs;
  }

  lemma RestLeaks(h: Heap)
    requires h.Valid()
    ensures h.prot.Valid() && (AtRest(h) ==> h.prot.Leaks() == {})
  {
  }
}
