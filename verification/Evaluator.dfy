/** What the interpreter does to the heap: its operations, one by one and in a row. */
module Evaluator {
  import opened Layout
  import opened Maps
  import opened Carving
  import opened Protections
  import opened Pages
  import opened VersionStore
  import opened History
  import opened Walks
  import opened Placement
  import opened Guards
  import opened HeapStates
  import opened Callbacks
  import opened Evolution
  import opened Sights
  import opened Heaps
  import opened Allocator

  lemma ValidFacts(h: Heap)
    requires h.Valid()
    ensures h.prot.Valid() && Sane(h.St(), {}) && (Mut(h.St()) ==> h.ro == Homes(h.pages))
  {
    if Mut(h.St()) { BarrierHomes(h.prot.Maps(), h.Sp(), h.pages, h.ro); }
  }

  /** The pointer that stands for segment i of the page at a, if there is one. */
  method PointerOf(h: Heap, a: int, i: int) returns (p: Option<int>)
    requires h.Valid()
    ensures p.Some? ==> PointsTo(h.pages, p.value, a, i) && p.value != NULL && |h.pages[a].segs[i].data| == h.pages[a].segs[i].size
    ensures p.Some? <==> At(Sight(h.pages), a, i)
  {
    SightAt(h.pages, a, i);
    if a in h.pages && h.pages[a].realAddr == a && 0 <= i < |h.pages[a].c| && i < |h.pages[a].segs| {
      p := Some(h.pages[a].c[i] + SEGMENT_HEADER);
      PointerFound(h.St(), h.prot.Maps(), h.Sp(), h.ro, p.value, a, i);
    } else {
      p := None;
    }
  }

  // ------------------------------------------------------------ one operation

  /** What one operation of the interpreter did, and that it was a call of the allocator or
      a store. */
  ghost predicate Acted(st: State, op: Op, ls: seq<Step>, st': State) {
    && Evaluated(st, ls, st') && Mut(st') && ActedBy(st, op, ls, st')
    && Performs(Sight(st.pages), op, Sight(st'.pages)) && |st'.pages| <= |st.pages| + 2
  }

  ghost predicate ActedBy(st: State, op: Op, ls: seq<Step>, st': State) {
    match op
    case Alloc(junk) => if |junk| == 0 then ls == [] && st' == st else exists p, a, i :: Given(st, p, |junk|, a, i, junk, ls, st')
    case Resize(a, i, junk) =>
      && At(st.pages, a, i)
      && if |junk| == 0 then Rewritten(st, a, i, st.pages[a].segs[i].(used := false), ls, st')
         else exists p, b, j :: Reallocated(st, a, i, p, |junk|, b, j, ls, st')
    case Release(a, i) => At(st.pages, a, i) && Rewritten(st, a, i, st.pages[a].segs[i].(used := false), ls, st')
    case Put(a, i, o, v) =>
      && At(st.pages, a, i) && 0 <= o < |st.pages[a].segs[i].data|
      && Rewritten(st, a, i, Poke(st.pages[a], i, o, v).segs[i], ls, st')
  }

  lemma NothingActs(st: State, op: Op)
    requires Sane(st, {}) && Mut(st) && op.Alloc? && |op.junk| == 0
    ensures Acted(st, op, [], st)
  {
    EvaluatedNot(st);
  }

  lemma GivenActs(st: State, p: int, a: int, i: int, junk: seq<Byte>, ls: seq<Step>, st': State)
    requires Given(st, p, |junk|, a, i, junk, ls, st') && |junk| > 0
    ensures Acted(st, Alloc(junk), ls, st')
  {
    hide Evolved, Sight, Cuts, Allocated, SomeFit, FirstFit;
  }

  lemma ReleasedActs(st: State, op: Op, a: int, i: int, ls: seq<Step>, st': State)
    requires At(Sight(st.pages), a, i) && a in st.pages && i < |st.pages[a].segs| && Mut(st) && st.pages[a].segs[i].used
    requires op == Release(a, i) || op == Resize(a, i, [])
    requires Rewritten(st, a, i, st.pages[a].segs[i].(used := false), ls, st')
    ensures Acted(st, op, ls, st')
  {
    SightAt(st.pages, a, i);
    hide Evolved, Sight, Reads, Touched;
  }

  lemma ResizedActs(st: State, a: int, i: int, junk: seq<Byte>, p: int, b: int, j: int, ls: seq<Step>, st': State)
    requires At(Sight(st.pages), a, i) && a in st.pages && i < |st.pages[a].segs| && Mut(st) && st.pages[a].segs[i].used
    requires |junk| > 0 && Reallocated(st, a, i, p, |junk|, b, j, ls, st')
    ensures Acted(st, Resize(a, i, junk), ls, st')
  {
    SightAt(st.pages, a, i);
    hide Evolved, Sight, Moves, Allocated, SomeFit, FirstFit, OthersStay, LiveAt;
  }

  lemma StoredActs(st: State, a: int, i: int, o: int, v: Byte, ls: seq<Step>, st': State)
    requires At(Sight(st.pages), a, i) && a in st.pages && i < |st.pages[a].segs| && 0 <= o < |st.pages[a].segs[i].data| && Mut(st)
    requires Rewritten(st, a, i, Poke(st.pages[a], i, o, v).segs[i], ls, st')
    ensures Acted(st, Put(a, i, o, v), ls, st')
  {
    SightAt(st.pages, a, i);
    hide Evolved, Sight, Reads, Touched;
  }

  // ------------------------------------------------------------ what does not return

  ghost predicate ActFails(stop: Stop, st: State, size: int, op: Op) {
    Stuck(stop, Sight(st.pages), |st.pages|, size, op)
  }

  lemma WildFails(st: State, size: int, op: Op)
    requires Wild(Sight(st.pages), op)
    ensures ActFails(WildPointer, st, size, op)
  {
  }

  lemma AllocFails(stop: Stop, st: State, sp: Space, junk: seq<Byte>)
    requires sp.lastPage in sp.extent && |junk| > 0 && stop == FitStop(st, sp, |junk|) != Going
    requires stop == ShortGrowth ==> Large(|junk| / PAGE_SIZE + 1, sp.size)
    ensures ActFails(stop, st, sp.size, Alloc(junk))
  {
    hide SomeFit, RoomStop, Sight;
  }

  lemma ReleaseFails(stop: Stop, st: State, size: int, op: Op, a: int, i: int)
    requires At(Sight(st.pages), a, i) && (op == Release(a, i) || op == Resize(a, i, []))
    requires stop in {NotUsed, TableFull, ShortGrowth} && (stop == NotUsed ==> !st.pages[a].segs[i].used)
    requires stop == TableFull ==> Crowded(|st.pages|)
    requires stop == ShortGrowth ==> Large(st.pages[a].pages, size)
    ensures ActFails(stop, st, size, op)
  {
    SightAt(st.pages, a, i);
    hide Sight;
  }

  lemma ResizeFails(stop: Stop, st: State, sp: Space, p: int, a: int, i: int, junk: seq<Byte>, size: int)
    requires At(Sight(st.pages), a, i) && sp.lastPage in sp.extent && PointsTo(st.pages, p, a, i) && |junk| > 0 && stop != Going
    requires MoveEnds(stop, st, sp, p, |junk|, a, i, size) && size >= sp.size
    requires stop == ShortGrowth ==> Large(|junk| / PAGE_SIZE + 1, sp.size) || Large(st.pages[a].pages, sp.size)
    ensures ActFails(stop, st, sp.size, Resize(a, i, junk))
  {
    SightAt(st.pages, a, i);
    FitStops(st, sp, |junk|);
    hide SomeFit, RoomStop, Sight;
  }

  lemma MovedUsed(st: State, sp: Space, p: int, a: int, i: int, n: int, size: int)
    requires sp.lastPage in sp.extent && At(st.pages, a, i) && MoveEnds(Going, st, sp, p, n, a, i, size)
    ensures st.pages[a].segs[i].used
  {
  }

  lemma PutFails(stop: Stop, st: State, sp: Space, writable: bool, a: int, i: int, o: int, v: Byte)
    requires Sane(st, {}) && Placed(sp) && At(Sight(st.pages), a, i) && stop != Going
    requires a in st.pages && sp.lastPage in sp.extent && Writes(stop, writable, true, sp, st.pages, a)
    ensures ActFails(stop, st, sp.size, Put(a, i, o, v))
  {
    SightAt(st.pages, a, i);
    SanePages(st, a);
    TrapsStuck(stop, sp, st.pages, a);
    hide Sight, Traps;
  }

  lemma PlacedHolds(h: Heap)
    requires h.Valid()
    ensures Placed(h.Sp()) && h.Sp().lastPage in h.Sp().extent
  {
    h.ReadyHolds();
  }

  /** One operation of the interpreter. */
  method Act(h: Heap, op: Op) returns (stop: Stop, ghost ls: seq<Step>)
    requires h.Valid() && Mut(h.St())
    modifies h`size, h`lastPage, h`lastGen, h`gens, h`pages, h`tree, h`ro, h.prot`os, h.prot.active`len, h.prot.active.m
    ensures stop == Going ==> h.Valid() && Acted(old(h.St()), op, ls, h.St())
    ensures stop == Going ==> h.prot.Leaks() <= old(h.prot.Leaks()) && LeaksIn(ls, old(h.prot.Leaks()))
    ensures h.size >= old(h.size) && (stop != Going ==> ActFails(stop, old(h.St()), old(h.size), op))
  {
    hide Heap.Valid, Protection.Leaks, LeaksIn, Sealed, Sane, Acted, ActFails, Given, Rewritten, Reallocated, FitStop,
      MoveEnds, Crowded, Large, Sight;
    ValidFacts(h);
    match op
    case Alloc(junk) => stop, ls := ActAlloc(h, junk);
    case Resize(a, i, junk) => stop, ls := ActResize(h, a, i, junk);
    case Release(a, i) => stop, ls := ActRelease(h, a, i);
    case Put(a, i, o, v) => stop, ls := ActPut(h, a, i, o, v);
  }

  method ActAlloc(h: Heap, junk: seq<Byte>) returns (stop: Stop, ghost ls: seq<Step>)
    requires h.Valid() && Mut(h.St())
    modifies h`size, h`lastPage, h`lastGen, h`gens, h`pages, h`tree, h`ro, h.prot`os, h.prot.active`len, h.prot.active.m
    ensures stop == Going ==> h.Valid() && Acted(old(h.St()), Alloc(junk), ls, h.St())
    ensures stop == Going ==> h.prot.Leaks() <= old(h.prot.Leaks()) && LeaksIn(ls, old(h.prot.Leaks()))
    ensures h.size >= old(h.size) && (stop != Going ==> ActFails(stop, old(h.St()), old(h.size), Alloc(junk)))
  {
    hide Heap.Valid, Protection.Leaks, LeaksIn, Sealed, Sane, Acted, ActFails, Given, FitStop, Crowded, Large, Sight;
    h.ValidHolds();
    ghost var st, sp, bytes := h.St(), h.Sp(), h.prot.Leaks();
    var q, b, j;
    stop, q, b, j, ls := Malloc(h, |junk|, junk);
    if stop != Going {
      AllocFails(stop, st, sp, junk);
      return;
    }
    SealedLeaks(ls, bytes);
    if |junk| > 0 { GivenActs(st, q, b, j, junk, ls, h.St()); } else { NothingActs(st, Alloc(junk)); }
  }

  method ActRelease(h: Heap, a: int, i: int) returns (stop: Stop, ghost ls: seq<Step>)
    requires h.Valid() && Mut(h.St())
    modifies h`size, h`lastPage, h`lastGen, h`gens, h`pages, h`tree, h`ro, h.prot`os, h.prot.active`len, h.prot.active.m
    ensures stop == Going ==> h.Valid() && Acted(old(h.St()), Release(a, i), ls, h.St())
    ensures stop == Going ==> h.prot.Leaks() <= old(h.prot.Leaks()) && LeaksIn(ls, old(h.prot.Leaks()))
    ensures h.size >= old(h.size) && (stop != Going ==> ActFails(stop, old(h.St()), old(h.size), Release(a, i)))
  {
    hide Heap.Valid, Protection.Leaks, LeaksIn, Sane, Acted, ActFails, Rewritten, Traps, Crowded, Large, Sight;
    h.ValidHolds();
    ghost var st, size := h.St(), h.size;
    var p := PointerOf(h, a, i);
    if p.None? {
      WildFails(st, size, Release(a, i));
      return WildPointer, [];
    }
    stop, ls := Free(h, p.value, a, i);
    if stop != Going {
      ReleaseFails(stop, st, size, Release(a, i), a, i);
      return;
    }
    ReleasedActs(st, Release(a, i), a, i, ls, h.St());
  }

  method ActResize(h: Heap, a: int, i: int, junk: seq<Byte>) returns (stop: Stop, ghost ls: seq<Step>)
    requires h.Valid() && Mut(h.St())
    modifies h`size, h`lastPage, h`lastGen, h`gens, h`pages, h`tree, h`ro, h.prot`os, h.prot.active`len, h.prot.active.m
    ensures stop == Going ==> h.Valid() && Acted(old(h.St()), Resize(a, i, junk), ls, h.St())
    ensures stop == Going ==> h.prot.Leaks() <= old(h.prot.Leaks()) && LeaksIn(ls, old(h.prot.Leaks()))
    ensures h.size >= old(h.size) && (stop != Going ==> ActFails(stop, old(h.St()), old(h.size), Resize(a, i, junk)))
  {
    hide Heap.Valid, Protection.Leaks, LeaksIn, Sane, Acted, ActFails, Given, Rewritten, Reallocated, FitStop, MoveEnds,
      Crowded, Large, Sight;
    h.ValidHolds();
    ghost var st, sp := h.St(), h.Sp();
    var p := PointerOf(h, a, i);
    if p.None? {
      WildFails(st, sp.size, Resize(a, i, junk));
      return WildPointer, [];
    }
    var q, b, j;
    stop, q, b, j, ls := Realloc(h, p.value, |junk|, junk, a, i);
    if |junk| == 0 {
      assert junk == [];
      if stop == Going { ReleasedActs(st, Resize(a, i, junk), a, i, ls, h.St()); }
      else { ReleaseFails(stop, st, sp.size, Resize(a, i, junk), a, i); }
    } else if stop == Going {
      MovedUsed(st, sp, p.value, a, i, |junk|, h.size);
      ResizedActs(st, a, i, junk, q, b, j, ls, h.St());
    } else {
      ResizeFails(stop, st, sp, p.value, a, i, junk, h.size);
    }
  }

  method ActPut(h: Heap, a: int, i: int, o: int, v: Byte) returns (stop: Stop, ghost ls: seq<Step>)
    requires h.Valid() && Mut(h.St())
    modifies h`size, h`lastPage, h`lastGen, h`gens, h`pages, h`tree, h`ro, h.prot`os, h.prot.active`len, h.prot.active.m
    ensures stop == Going ==> h.Valid() && Acted(old(h.St()), Put(a, i, o, v), ls, h.St())
    ensures stop == Going ==> h.prot.Leaks() <= old(h.prot.Leaks()) && LeaksIn(ls, old(h.prot.Leaks()))
    ensures h.size >= old(h.size) && (stop != Going ==> ActFails(stop, old(h.St()), old(h.size), Put(a, i, o, v)))
  {
    hide Heap.Valid, Protection.Leaks, LeaksIn, Sane, Acted, ActFails, Rewritten, Writes, OnlyByte, Crowded, Large, Sight;
    h.ValidHolds();
    ghost var st, size := h.St(), h.size;
    SightAt(h.pages, a, i);
    var p := PointerOf(h, a, i);
    if p.None? || o < 0 || o >= h.pages[a].segs[i].size {
      WildFails(st, size, Put(a, i, o, v));
      return WildPointer, [];
    }
    ghost var sp, writable := h.Sp(), h.prot.os(h.pages[a].c[i] + SEGMENT_HEADER + o);
    PlacedHolds(h);
    stop, ls := StoreByte(h, a, i, o, v);
    if stop != Going {
      PutFails(stop, st, sp, writable, a, i, o, v);
      return;
    }
    StoredActs(st, a, i, o, v, ls, h.St());
  }

  // ------------------------------------------------------------ evaluations

  /** One operation after the other led from st to st', by the steps ls. */
  ghost predicate ActedAll(st: State, ops: seq<Op>, ls: seq<Step>, st': State)
    decreases ops
  {
    if ops == [] then ls == [] && st' == st
    else exists front, m, more :: ActedOne(st, ops, front, m, more, ls, st')
  }

  ghost predicate ActedOne(st: State, ops: seq<Op>, front: seq<Step>, m: State, more: seq<Step>, ls: seq<Step>, st': State)
    requires ops != []
    decreases ops, 0
  {
    ls == front + more && ActedAll(st, ops[..|ops| - 1], front, m) && Acted(m, ops[|ops| - 1], more, st')
  }

  /** The operations have taken effect. */
  ghost predicate Effected(st: State, ops: seq<Op>, ls: seq<Step>, st': State) {
    && Evaluated(st, ls, st') && Mut(st') && ActedAll(st, ops, ls, st')
    && Performed(Sight(st.pages), ops, Sight(st'.pages)) && |st'.pages| <= |st.pages| + 2 * |ops|
  }

  lemma NoneDone(st: State)
    requires Sane(st, {}) && Mut(st)
    ensures Effected(st, [], [], st)
  {
    EvaluatedNot(st);
  }

  lemma OneMore(st: State, ops: seq<Op>, k: nat, ls: seq<Step>, m: State, more: seq<Step>, st': State)
    requires k < |ops| && Effected(st, ops[..k], ls, m) && Acted(m, ops[k], more, st')
    ensures Effected(st, ops[..k + 1], ls + more, st')
  {
    hide Evaluated, Performs, Performed, Sight, ActedAll, ActedBy;
    EvaluatedThen(st, ls, m, more, st');
    ActedNext(st, ops[..k], ls, m, ops[k], more, st');
    PerformedOne(Sight(m.pages), ops[k], Sight(st'.pages));
    PerformedJoin(Sight(st.pages), ops[..k], Sight(m.pages), [ops[k]], Sight(st'.pages));
    assert ops[..k] + [ops[k]] == ops[..k + 1];
  }

  lemma ActedNext(st: State, ops: seq<Op>, ls: seq<Step>, m: State, op: Op, more: seq<Step>, st': State)
    requires ActedAll(st, ops, ls, m) && Acted(m, op, more, st')
    ensures ActedAll(st, ops + [op], ls + more, st')
  {
    hide Acted;
    assert (ops + [op])[..|ops + [op]| - 1] == ops;
    assert ActedOne(st, ops + [op], ls, m, more, ls + more, st');
  }

  lemma OneFails(stop: Stop, st: State, size: int, ops: seq<Op>, k: nat, ls: seq<Step>, m: State, size': int)
    requires k < |ops| && Effected(st, ops[..k], ls, m) && ActFails(stop, m, size', ops[k]) && size' >= size
    ensures Fails(stop, Sight(st.pages), |st.pages|, size, ops)
  {
    hide Evaluated, Performed, Sight, Stuck, ActedAll;
    assert FailsAt(stop, Sight(st.pages), |st.pages|, size, ops, k, Sight(m.pages), |m.pages|, size');
  }

  /** do_eval: an arbitrary sequence of operations. */
  method Evaluate(h: Heap, ops: seq<Op>) returns (stop: Stop, ghost ls: seq<Step>)
    requires h.Valid() && Mut(h.St())
    modifies h`size, h`lastPage, h`lastGen, h`gens, h`pages, h`tree, h`ro, h.prot`os, h.prot.active`len, h.prot.active.m
    ensures stop == Going ==> h.Valid() && Mut(h.St()) && Evaluated(old(h.St()), ls, h.St())
    ensures stop == Going ==> h.prot.Leaks() <= old(h.prot.Leaks()) && LeaksIn(ls, old(h.prot.Leaks()))
    ensures stop == Going ==> Performed(Sight(old(h.pages)), ops, Sight(h.pages)) && |h.pages| <= |old(h.pages)| + 2 * |ops|
    ensures stop == Going ==> ActedAll(old(h.St()), ops, ls, h.St())
    ensures h.size >= old(h.size) && (stop != Going ==> Fails(stop, Sight(old(h.pages)), |old(h.pages)|, old(h.size), ops))
  {
    hide Heap.Valid, Protection.Leaks, LeaksIn, Sane, Evaluated, Effected, ActedAll, Acted, ActFails, Fails;
    ValidFacts(h);
    ghost var st, size, bytes := h.St(), h.size, h.prot.Leaks();
    NoneDone(st);
    assert ops[..0] == [];
    stop, ls := Going, [];
    SealedLeaks(ls, bytes);
    for i := 0 to |ops|
      invariant stop == Going && h.Valid() && h.prot.Valid() && Mut(h.St()) && Effected(st, ops[..i], ls, h.St()) && h.size >= size
      invariant h.prot.Leaks() <= bytes && LeaksIn(ls, bytes)
    {
      ghost var m, size', bytes', more := h.St(), h.size, h.prot.Leaks(), [];
      stop, more := Act(h, ops[i]);
      if stop != Going {
        OneFails(stop, st, size, ops, i, ls, m, size');
        return;
      }
      ValidFacts(h);
      OneMore(st, ops, i, ls, m, more, h.St());
      DoneMut(m, ops[i], more, h.St());
      LeaksJoin(ls, more, bytes, bytes');
      ls := ls + more;
    }
    assert ops[..|ops|] == ops;
    AllDone(st, ops, ls, h.St());
  }

  lemma DoneMut(st: State, op: Op, ls: seq<Step>, st': State)
    requires Acted(st, op, ls, st')
    ensures Mut(st')
  {
  }

  lemma AllDone(st: State, ops: seq<Op>, ls: seq<Step>, st': State)
    requires Effected(st, ops, ls, st')
    ensures Evaluated(st, ls, st') && Performed(Sight(st.pages), ops, Sight(st'.pages)) && |st'.pages| <= |st.pages| + 2 * |ops|
    ensures ActedAll(st, ops, ls, st')
  {
  }
}
