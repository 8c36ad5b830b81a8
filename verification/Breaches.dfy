/** What happens when a mutation does not begin quietly: bytes of committed pages stay
    writable, and a write to them is not undone by a rollback. Heaps, reached by two or
    three queries, on which a mutation begins so, or is aborted. */
module Breaches {
  import opened Layout
  import opened Maps
  import opened Carving
  import opened Layers
  import opened Pages
  import opened VersionStore
  import opened History
  import opened LinearHistory
  import opened Selection
  import opened Swaps
  import opened Walks
  import opened Guards
  import opened Callbacks
  import opened Shields

  // ------------------------------------------------------------ bared pages

  /** Every map of a list lies in one of the coalesced ones. */
  lemma {:induction false} CoalescedHolds(ms: seq<Map>, n: nat) returns (i: nat)
    requires Positive(ms) && n < |ms|
    ensures i < |Coalesced(ms)| && Coalesced(ms)[i].start <= ms[n].start && ms[n].End() <= Coalesced(ms)[i].End()
  {
    var front := ms[..|ms| - 1];
    var c, d := Coalesced(front), Coalesced(ms);
    if front != [] { CoalescedShape(front); }
    if n < |front| {
      i := CoalescedHolds(front, n);
    } else {
      i := |d| - 1;
    }
  }

  /** A byte left bare lies in a committed page at home that was open, and the whole
      page is left bare. */
  lemma BaredPage(s: Store, ro: set<int>, size: int, x: int) returns (a: int)
    requires Inv(s) && PagesPlaced(s.mem, size) && Bared(s, ro, x)
    ensures a in Homes(s.mem) && a !in ro && Covers(s.mem, a, x)
    ensures forall y :: Covers(s.mem, a, y) ==> Bared(s, ro, y)
  {
    var ms, p := HomeMaps(s.order, s.mem), Unshut(s.mem, ro);
    HomesSeparate(s.order, s.mem, size);
    HomesAreHomely(s.order, s.mem);
    CoalescedBytes(ms);
    var k: nat :| k < |Coalesced(ms)| && Coalesced(ms)[k].Has(x) && SilentAt(p, Coalesced(ms), k);
    assert Listed(Coalesced(ms), x);
    var n :| 0 <= n < |ms| && ms[n].Has(x);
    assert Homely(s.order, s.mem, ms[n]);
    a := ms[n].start;
    var i := CoalescedHolds(ms, n);
    assert i == k by { assert Coalesced(ms)[i].Has(x) && Separate(Coalesced(ms)); }
    PageBytes(s.mem, ro, size, a);
    forall y | Covers(s.mem, a, y) ensures Bared(s, ro, y) {
      assert ms[n].Has(y) && p(y) == p(x);
      assert Coalesced(ms)[k].Has(y);
    }
  }

  // ------------------------------------------------------------ a write that survives

  lemma {:induction false} AwayNone(mem: map<int, Page>, sel: seq<int>)
    requires forall x :: x in sel ==> RealOf(mem)(x) == x
    ensures Away(mem, sel) == []
  {
    if sel != [] { AwayNone(mem, sel[..|sel| - 1]); }
  }

  /** Where everything selected stands home, checkout has nothing to swap. */
  lemma NothingAway(s: Store, k: int)
    requires Inv(s) && StandsHome(s, k)
    ensures SwapsTo(s, k) == []
  {
    var home, sel := RealOf(s.mem), Fold(s.order, k, Picker(RealOf(s.mem)), []);
    assert s.order[..|s.order|] == s.order;
    SelectionExact(s.order, home, |s.order|, k);
    forall x | x in sel ensures home(x) == x {
      var n :| 0 <= n < |sel| && sel[n] == x;
      assert Stands(s.order, home, |s.order|, k, sel[n]);
      var e :| LastAmong(s.order, home, |s.order|, k, e) && s.order[e].loc == x;
      forall j | e < j < |s.order| && s.order[j].gen <= k ensures Real(s, j) != Real(s, e) { assert home(s.order[j].loc) == Real(s, j); }
      assert Selected(s, k, e);
    }
    AwayNone(s.mem, sel);
  }

  /** A query that writes p over the page at a and is rolled back to k, when the write
      is not trapped. */
  function BreachedSteps(a: int, p: Page, k: int): seq<Step> { [Begin] + [Leak(a, p)] + [Commit] + [Checkout(k, [])] }

  /** The heap after it. */
  function Breached(s: Store, a: int, p: Page): Store {
    s.(mem := map b | b in s.mem :: (if b == a then p else s.mem[b]).(committed := true), last := s.last + 1)
  }

  /** The heap before it is checked out. */
  function Unwound(s: Store, a: int, p: Page): Store {
    Breached(s, a, p).(working := s.last + 1, committed := s.last + 1)
  }

  lemma InvHeads(s: Store)
    requires Inv(s)
    ensures s.committed <= s.last
  {
  }

  lemma BreachedWrite(s: Store, a: int, p: Page)
    requires Inv(s) && !Mutating(s)
    requires a in s.mem && s.mem[a].committed && s.mem[a].realAddr == a && Grows(s.mem[a], p) && Tiled(p, a)
    ensures var s1 := s.(working := s.last + 1, last := s.last + 1);
            Taken(s, Begin, s1) && Taken(s1, Leak(a, p), s1.(mem := s.mem[a := p])) && Inv(s1.(mem := s.mem[a := p]))
  {
    var s1 := s.(working := s.last + 1, last := s.last + 1);
    InvHeads(s);
    hide Inv, Grows, Tiled;
    StepKeeps(s, Begin, s1);
    StepKeeps(s1, Leak(a, p), s1.(mem := s.mem[a := p]));
  }

  lemma BreachedCommit(s: Store, a: int, p: Page)
    requires a in s.mem && !Mutating(s) && s.last >= s.committed
    ensures Taken(s.(working := s.last + 1, last := s.last + 1, mem := s.mem[a := p]), Commit, Unwound(s, a, p))
  {
    var s2 := s.(working := s.last + 1, last := s.last + 1, mem := s.mem[a := p]);
    assert Unwound(s, a, p).mem == map b | b in s2.mem :: s2.mem[b].(committed := true);
  }

  lemma BreachedStands(s: Store, a: int, p: Page)
    requires a in s.mem && p.realAddr == s.mem[a].realAddr && StandsHome'(s, s.committed)
    ensures StandsHome'(Unwound(s, a, p), s.committed) && StandsHome'(Breached(s, a, p), s.committed)
  {
    hide StandsHome;
    SameTip(s, Unwound(s, a, p), s.committed, s.committed);
    SameTip(s, Breached(s, a, p), s.committed, s.committed);
  }

  lemma BreachedBack(s: Store, a: int, p: Page)
    requires Inv(Unwound(s, a, p)) && !Mutating(s) && s.committed <= s.last && StandsHome'(Breached(s, a, p), s.committed)
    ensures Taken(Unwound(s, a, p), Checkout(s.committed, []), Breached(s, a, p))
  {
    hide Inv, StandsHome;
    assert SwapsHome(Unwound(s, a, p), []) == Unwound(s, a, p);
  }

  /** A write that is not trapped survives the rollback of its query: the heap was
      coherent, nothing is away when the parent is checked out, and the page still holds
      what was written. */
  lemma LeakSurvives(s: Store, a: int, p: Page)
    requires Inv(s) && !Mutating(s) && StandsHome'(s, s.committed)
    requires a in s.mem && s.mem[a].committed && s.mem[a].realAddr == a && Grows(s.mem[a], p) && Tiled(p, a)
    requires HasVersion(Versions(s, s.committed), a) && p != s.mem[a]
    ensures Coherent(s, s.committed)
    ensures VersionStore.Run(s, BreachedSteps(a, p, s.committed), Breached(s, a, p))
    ensures SwapsTo(Unwound(s, a, p), s.committed) == []
    ensures Breached(s, a, p).mem[a] == p && !Restored(s, Breached(s, a, p), s.committed)
  {
    var k := s.committed;
    var s1 := s.(working := s.last + 1, last := s.last + 1);
    var s2, s3, s4 := s1.(mem := s.mem[a := p]), Unwound(s, a, p), Breached(s, a, p);
    StandingIsCoherent(s, k);
    assert p.(committed := true) == p;
    hide Taken, Inv, StandsHome, Coherent, Tiled;
    InvHeads(s);
    BreachedWrite(s, a, p);
    BreachedCommit(s, a, p);
    BreachedStands(s, a, p);
    StepKeeps(s2, Commit, s3);
    BreachedBack(s, a, p);
    NothingAway(s3, k);
    RunOne(s, Begin, s1);
    RunOne(s1, Leak(a, p), s2);
    RunOne(s2, Commit, s3);
    RunOne(s3, Checkout(k, []), s4);
    RunJoin(s, [Begin], s1, [Leak(a, p)], s2);
    RunJoin(s, [Begin] + [Leak(a, p)], s2, [Commit], s3);
    RunJoin(s, [Begin] + [Leak(a, p)] + [Commit], s3, [Checkout(k, [])], s4);
  }

  /** The same for a query whose steps are only known one by one. */
  lemma BreachedIs(s: Store, a: int, p: Page, s1: Store, s2: Store, s3: Store, s4: Store)
    requires Inv(s) && !Mutating(s) && StandsHome'(s, s.committed) && a in s.mem && s.mem[a].committed
    requires Taken(s, Begin, s1) && Taken(s1, Leak(a, p), s2) && Taken(s2, Commit, s3)
    requires Taken(s3, Checkout(s.committed, SwapsTo(s3, s.committed)), s4)
    requires HasVersion(Versions(s, s.committed), a) && p != s.mem[a]
    ensures Coherent(s, s.committed) && s4 == Breached(s, a, p) && !Restored(s, s4, s.committed)
  {
    hide Inv, StandsHome, Coherent, Restored, SwapsTo, Tiled, Grows, Taken, Breached, Unwound, Versions, BreachedSteps;
    BreachedSame(s, a, p, s1, s2, s3);
    LeakSurvives(s, a, p);
    BreachedEnd(s, a, p, s4);
  }

  lemma BreachedEnd(s: Store, a: int, p: Page, s4: Store)
    requires Inv(s) && !Mutating(s) && Taken(Unwound(s, a, p), Checkout(s.committed, []), s4)
    ensures s4 == Breached(s, a, p)
  {
    InvHeads(s);
    hide Inv, StandsHome;
    assert SwapsHome(Unwound(s, a, p), []) == Unwound(s, a, p);
  }

  lemma BreachedSame(s: Store, a: int, p: Page, s1: Store, s2: Store, s3: Store)
    requires Inv(s) && !Mutating(s) && a in s.mem
    requires Taken(s, Begin, s1) && Taken(s1, Leak(a, p), s2) && Taken(s2, Commit, s3)
    ensures s3 == Unwound(s, a, p) && s.mem[a].realAddr == a && Grows(s.mem[a], p) && Tiled(p, a)
  {
    InvHeads(s);
    hide Inv, Grows, Tiled;
    BreachedCommit(s, a, p);
    assert s2 == s.(working := s.last + 1, last := s.last + 1, mem := s.mem[a := p]);
  }

  // ------------------------------------------------------------ queries on a small heap

  const P0: int := MAP_START + 2 * PAGE_SIZE
  const P1: int := MAP_START + 3 * PAGE_SIZE
  const P2: int := MAP_START + 4 * PAGE_SIZE
  const P3: int := MAP_START + 5 * PAGE_SIZE
  const F: int := MAP_START + 6 * PAGE_SIZE
  const G: int := MAP_START + 7 * PAGE_SIZE

  /** The size of the payloads: a page has room for one of them only. */
  const PAYLOAD: int := 2500

  function Filled(v: Byte): seq<Byte> { seq(PAYLOAD, _ => v) }

  /** One physical page with one segment, full of the byte v. */
  function Block(home: int, v: Byte, at: int, committed: bool): Page {
    Page(committed, home, 1, [at + PAGE_SIZE - SEGMENT_HEADER - PAYLOAD], [Segment(true, PAYLOAD, Filled(v))])
  }

  lemma BlockTiled(home: int, v: Byte, at: int, to: int, committed: bool)
    ensures Tiled(Block(home, v, at, committed), at) && Moved(Block(home, v, at, committed), to - at) == Block(home, v, to, committed)
  {
    var p := Block(home, v, at, committed);
    assert TiledAt(p, at, 0);
    assert Moved(p, to - at).c == Block(home, v, to, committed).c;
  }

  /** The steps of an allocation that needs a fresh page. */
  function Allocs(s: Store, at: int): seq<Step> { [NewPage(at, 1, |s.order|)] + [Write(at, Block(at, 0, at, false))] }

  function WithBlock(s: Store, at: int): Store {
    s.(order := s.order + [Entry(s.working, at)], mem := s.mem[at := Block(at, 0, at, false)])
  }

  lemma AllocRun(s: Store, at: int)
    requires Mutating(s) && at !in s.mem
    ensures LinearRun(s, Allocs(s, at), WithBlock(s, at))
    ensures Evaluates(Allocs(s, at)) && Sealed(Allocs(s, at))
  {
    BlockTiled(at, 0, at, at, false);
    var m := s.(order := s.order + [Entry(s.working, at)], mem := s.mem[at := FreshPage(at, 1)]);
    assert Insert(s.order, |s.order|, Entry(s.working, at)) == m.order;
    assert Tiled(FreshPage(at, 1), at);
    assert WithBlock(s, at).mem == m.mem[at := Block(at, 0, at, false)];
    LinearOne(s, NewPage(at, 1, |s.order|), m);
    LinearOne(m, Write(at, Block(at, 0, at, false)), WithBlock(s, at));
    LinearJoin(s, [NewPage(at, 1, |s.order|)], m, [Write(at, Block(at, 0, at, false))], WithBlock(s, at));
  }

  /** A query that writes v into the page at a, whose old contents go to copy. */
  function Puts(s: Store, a: int, v: Byte, copy: int): seq<Step> { [Trap(a, copy, |s.order|)] + [Write(a, Block(a, v, a, false))] }

  /** The heap after the query and its commit. */
  function Updated(s: Store, a: int, v: Byte, copy: int): Store {
    Store(Exchange(s.order, a, copy) + [Entry(s.last + 1, a)],
          s.mem[copy := Block(a, 0, copy, true)][a := Block(a, v, a, true)], s.last + 1, s.last + 1, s.last + 1)
  }

  predicate AllSet(mem: map<int, Page>) { forall a :: a in mem ==> mem[a].committed }

  lemma PutCommit(s: Store, a: int, v: Byte, copy: int)
    requires s.working == s.committed == s.last && a in s.mem && AllSet(s.mem)
    ensures var s3 := Store(Exchange(s.order, a, copy) + [Entry(s.last + 1, a)],
                            s.mem[copy := Block(a, 0, copy, true)][a := Block(a, 0, a, false)][a := Block(a, v, a, false)],
                            s.last + 1, s.last, s.last + 1);
            Taken(s3, Commit, Updated(s, a, v, copy))
  {
    var mem := s.mem[copy := Block(a, 0, copy, true)][a := Block(a, 0, a, false)][a := Block(a, v, a, false)];
    forall b | b in mem ensures mem[b].(committed := true) == Updated(s, a, v, copy).mem[b] {
      if b != a && b != copy { assert s.mem[b].(committed := true) == s.mem[b]; }
    }
  }

  lemma PutRun(s: Store, a: int, v: Byte, copy: int)
    requires s.working == s.committed == s.last && a in s.mem && s.mem[a] == Block(a, 0, a, true) && AllSet(s.mem)
    requires copy !in s.mem && a < copy
    ensures LinearRun(s, Worked(Puts(s, a, v, copy)), Updated(s, a, v, copy))
    ensures Evaluates(Puts(s, a, v, copy)) && Sealed(Puts(s, a, v, copy))
  {
    var s1 := s.(working := s.last + 1, last := s.last + 1);
    var trap, write := Trap(a, copy, |s.order|), Write(a, Block(a, v, a, false));
    var order := Exchange(s.order, a, copy) + [Entry(s.last + 1, a)];
    var s2 := s1.(order := order, mem := s.mem[copy := Block(a, 0, copy, true)][a := Block(a, 0, a, false)]);
    var s3 := s2.(mem := s2.mem[a := Block(a, v, a, false)]);
    var s4 := Updated(s, a, v, copy);
    BlockTiled(a, 0, a, copy, true);
    BlockTiled(a, v, a, a, false);
    assert Insert(Exchange(s.order, a, copy), |s.order|, Entry(s.last + 1, a)) == order;
    assert Taken(s, Begin, s1) && Taken(s1, trap, s2) && Taken(s2, write, s3);
    PutCommit(s, a, v, copy);
    hide Taken, Block;
    LinearOne(s, Begin, s1);
    LinearOne(s1, trap, s2);
    LinearOne(s2, write, s3);
    LinearOne(s3, Commit, s4);
    LinearJoin(s1, [trap], s2, [write], s3);
    LinearJoin(s, [Begin], s1, Puts(s, a, v, copy), s3);
    LinearJoin(s, [Begin] + Puts(s, a, v, copy), s3, [Commit], s4);
  }

  /** The heap after the first commit. */
  function Started(): Store { Store([Entry(0, P0)], map[P0 := Block(P0, 0, P0, true)], 0, 0, 0) }

  const SIZE: int := INITIAL_PAGES * PAGE_SIZE

  lemma FirstSettled()
    ensures Settled(Started(), {}) && PagesPlaced(Started().mem, SIZE)
  {
    BlockTiled(P0, 0, P0, P0, true);
    assert Real(Started(), 0) == P0;
  }

  /** After a first query that allocated three pages, next to each other. */
  function Populated(): Store {
    Store([Entry(0, P0), Entry(1, P1), Entry(1, P2), Entry(1, P3)],
          map[P0 := Block(P0, 0, P0, true), P1 := Block(P1, 0, P1, true), P2 := Block(P2, 0, P2, true), P3 := Block(P3, 0, P3, true)],
          1, 1, 1)
  }

  /** The heap during the first query, after its first n allocations. */
  function Filling(n: nat): Store
    requires n <= 3
  {
    if n == 0 then Started().(working := 1, last := 1) else WithBlock(Filling(n - 1), P0 + n * PAGE_SIZE)
  }

  function Fills(n: nat): seq<Step>
    requires n <= 3
  {
    if n == 0 then [] else Fills(n - 1) + Allocs(Filling(n - 1), P0 + n * PAGE_SIZE)
  }

  lemma {:induction false} FillingRun(n: nat)
    requires n <= 3
    ensures LinearRun(Filling(0), Fills(n), Filling(n)) && Evaluates(Fills(n)) && Sealed(Fills(n)) && Mutating(Filling(n))
    ensures forall a :: a in Filling(n).mem ==> a <= P0 + n * PAGE_SIZE
  {
    if n > 0 {
      FillingRun(n - 1);
      AllocRun(Filling(n - 1), P0 + n * PAGE_SIZE);
      LinearJoin(Filling(0), Fills(n - 1), Filling(n - 1), Allocs(Filling(n - 1), P0 + n * PAGE_SIZE), Filling(n));
    }
  }

  lemma FilledIs()
    ensures Filling(3).order == Populated().order && (Filling(3).working, Filling(3).committed, Filling(3).last) == (1, 0, 1)
    ensures Populated().mem == map a | a in Filling(3).mem :: Filling(3).mem[a].(committed := true)
  {
    assert Filling(1) == WithBlock(Filling(0), P1);
    assert Filling(2) == WithBlock(Filling(1), P2);
    assert Filling(3) == WithBlock(Filling(2), P3);
    assert Block(P0, 0, P0, true).(committed := true) == Block(P0, 0, P0, true);
    assert Filling(3).mem == map[P0 := Block(P0, 0, P0, true), P1 := Block(P1, 0, P1, false), P2 := Block(P2, 0, P2, false), P3 := Block(P3, 0, P3, false)];
  }

  lemma FirstQuery()
    ensures LinearRun(Started(), Worked(Fills(3)), Populated()) && Evaluates(Fills(3)) && Sealed(Worked(Fills(3)))
  {
    FilledIs();
    FillingRun(3);
    assert Taken(Started(), Begin, Filling(0));
    assert Taken(Filling(3), Commit, Populated());
    hide First, Filling, Fills, Populated, Taken;
    LinearOne(Started(), Begin, Filling(0));
    LinearOne(Filling(3), Commit, Populated());
    LinearJoin(Started(), [Begin], Filling(0), Fills(3), Filling(3));
    LinearJoin(Started(), [Begin] + Fills(3), Filling(3), [Commit], Populated());
  }

  /** A run from the first state, along which every mutation began quietly and nothing
      leaked, to a settled heap. */
  ghost predicate Reached(ls: seq<Step>, s: Store, ro: set<int>) {
    && LinearRun(Started(), ls, s) && Sealed(ls) && Quietly(Started(), {}, ls) && ro == RoEnd(Started(), {}, ls)
    && Settled(s, ro)
  }

  lemma ReachedFirst()
    ensures Reached([], Started(), {})
  {
    FirstSettled();
  }

  lemma ReachedNext(ls: seq<Step>, s: Store, ro: set<int>, evaluation: seq<Step>, s': Store)
    requires Reached(ls, s, ro) && s.committed == s.last && PagesPlaced(s.mem, SIZE) && Entered(s')
    requires LinearRun(s, Worked(evaluation), s') && Evaluates(evaluation) && Sealed(Worked(evaluation))
    ensures Reached(ls + Worked(evaluation), s', RoEnd(s, ro, Worked(evaluation))) && s'.committed == s'.last
  {
    hide Settled, Worked, PagesPlaced, Entered, Quietly, RoEnd, Taken;
    LinearIsRun(Started(), ls, s);
    WorkSettles(s, ro, evaluation, s');
    WorkQuietly(s, ro, evaluation, s', SIZE);
    LinearJoin(Started(), ls, s, Worked(evaluation), s');
    RoJoin(Started(), {}, ls, s, Worked(evaluation));
  }

  /** Going back to the generation before. */
  lemma ReachedBack(ls: seq<Step>, s: Store, ro: set<int>) returns (s': Store, l: Step)
    requires Reached(ls, s, ro) && s.committed == s.last
    ensures l == Checkout(s.last - 1, SwapsTo(s, s.last - 1)) && Taken(s, l, s') && Reached(ls + [l], s', ro)
    ensures s'.committed == s.last - 1 && s'.last == s.last && Matches(s, s'.(working := s.working, committed := s.committed))
    ensures s'.mem.Keys == s.mem.Keys && forall b :: b in s.mem ==> s'.mem[b].realAddr == s.mem[b].realAddr && s'.mem[b].pages == s.mem[b].pages
  {
    var k := s.last - 1;
    l, s' := Checkout(k, SwapsTo(s, k)), SwapsHome(s, SwapsTo(s, k)).(working := k, committed := k);
    CheckoutTaken(s, k);
    SwapsHomeKeep(s, SwapsTo(s, k));
    hide Settled, Taken, Inv, RoEnd, RoAfter, SwapsTo;
    LinearIsRun(Started(), ls, s);
    SettledCheckout(s, ro, k, s');
    LinearOne(s, l, s');
    LinearJoin(Started(), ls, s, [l], s');
    RoJoin(Started(), {}, ls, s, [l]);
    RoOne(s, ro, l);
  }

  lemma PopulatedIs()
    ensures Entered(Populated()) && PagesPlaced(Populated().mem, SIZE) && Populated().working == Populated().committed == Populated().last == 1
    ensures Started().committed == Started().last
  {
    var s := Populated();
    assert s.order[0].loc == P0 && s.order[1].loc == P1 && s.order[2].loc == P2 && s.order[3].loc == P3;
  }

  lemma PopulatedReached() returns (ls: seq<Step>, ro: set<int>)
    ensures Reached(ls, Populated(), ro)
  {
    hide Reached, Settled, Worked, First, Populated, PagesPlaced, Entered, LinearRun;
    PopulatedIs();
    ReachedFirst();
    FirstSettled();
    FirstQuery();
    ls, ro := [] + Worked(Fills(3)), RoEnd(Started(), {}, Worked(Fills(3)));
    ReachedNext([], Started(), {}, Fills(3), Populated());
  }

  // ------------------------------------------------------------ a silent begin

  /** A second query has written the page in the middle. */
  function MiddleWritten(): Store { Updated(Populated(), P2, 1, F) }

  lemma MiddleIs()
    ensures MiddleWritten().order == [Entry(0, P0), Entry(1, P1), Entry(1, F), Entry(1, P3), Entry(2, P2)]
    ensures MiddleWritten().mem == map[P0 := Block(P0, 0, P0, true), P1 := Block(P1, 0, P1, true), P2 := Block(P2, 1, P2, true),
                                       P3 := Block(P3, 0, P3, true), F := Block(P2, 0, F, true)]
    ensures Entered(MiddleWritten())
  {
    var s := MiddleWritten();
    assert s.order[0].loc == P0 && s.order[1].loc == P1 && s.order[2].loc == F && s.order[3].loc == P3 && s.order[4].loc == P2;
  }

  /** Where the pages stand when it has been rolled back. */
  ghost predicate FourHome(s: Store) {
    && s.order == [Entry(0, P0), Entry(1, P1), Entry(1, P2), Entry(1, P3), Entry(2, F)]
    && s.mem.Keys == {P0, P1, P2, P3, F}
    && (forall a :: a in s.mem ==> s.mem[a].pages == 1 && s.mem[a].committed && s.mem[a].realAddr == if a == F then P2 else a)
  }

  /** Pages, generations and real addresses of the entries, wherever they stand. */
  ghost predicate Lined(s: Store, gens: seq<int>, reals: seq<int>)
    requires Located(s.order, s.mem)
  {
    && |s.order| == |gens| == |reals|
    && forall i :: 0 <= i < |gens| ==> s.order[i].gen == gens[i] && Real(s, i) == reals[i]
  }

  lemma LinedSame(u: Store, s: Store, gens: seq<int>, reals: seq<int>)
    requires Located(u.order, u.mem) && Lined(u, gens, reals) && Matches(u, s.(working := u.working, committed := u.committed))
    ensures Located(s.order, s.mem) && Lined(s, gens, reals)
  {
    var t := s.(working := u.working, committed := u.committed);
    forall i | 0 <= i < |gens| ensures s.order[i].gen == gens[i] && Real(s, i) == reals[i] { assert Real(t, i) == Real(u, i); }
  }

  lemma MiddleLined()
    ensures Located(MiddleWritten().order, MiddleWritten().mem) && Lined(MiddleWritten(), [0, 1, 1, 1, 2], [P0, P1, P2, P3, P2])
    ensures MiddleWritten().mem.Keys == {P0, P1, P2, P3, F}
    ensures forall a :: a in MiddleWritten().mem ==> MiddleWritten().mem[a].pages == 1 && MiddleWritten().mem[a].realAddr == if a == F then P2 else a
  {
    hide MiddleWritten, Filled;
    MiddleIs();
  }

  /** The selected version of a page stands home. */
  lemma StandsAt(s: Store, k: int, i: int)
    requires Located(s.order, s.mem) && StandsHome(s, k) && Selected(s, k, i)
    ensures s.order[i].loc == Real(s, i)
  {
  }

  lemma FourStand(s: Store)
    requires Located(s.order, s.mem) && Lined(s, [0, 1, 1, 1, 2], [P0, P1, P2, P3, P2])
    requires s.mem.Keys == {P0, P1, P2, P3, F} && Distinct(s.order) && StandsHome(s, 1)
    ensures s.order == [Entry(0, P0), Entry(1, P1), Entry(1, P2), Entry(1, P3), Entry(2, F)]
  {
    hide StandsHome;
    assert Real(s, 0) == P0 && Real(s, 1) == P1 && Real(s, 2) == P2 && Real(s, 3) == P3;
    StandsAt(s, 1, 0);
    StandsAt(s, 1, 1);
    StandsAt(s, 1, 2);
    StandsAt(s, 1, 3);
    assert s.order[4].loc == F by { assert s.order[4].loc in s.mem; }
  }

  /** Between mutations every page in the order is committed. */
  lemma AllCommittedAt(s: Store, a: int)
    requires Inv(s) && !Mutating(s) && exists i :: 0 <= i < |s.order| && s.order[i].loc == a
    ensures a in s.mem && s.mem[a].committed
  {
  }

  lemma FourAre(s: Store)
    requires Inv(s) && !Mutating(s) && StandsHome'(s, 1) && Lined(s, [0, 1, 1, 1, 2], [P0, P1, P2, P3, P2])
    requires s.mem.Keys == {P0, P1, P2, P3, F}
    requires forall a :: a in s.mem ==> s.mem[a].pages == 1 && s.mem[a].realAddr == if a == F then P2 else a
    ensures FourHome(s)
  {
    FourStand(s);
    hide Inv, StandsHome;
    assert s.order[0].loc == P0 && s.order[1].loc == P1 && s.order[2].loc == P2 && s.order[3].loc == P3 && s.order[4].loc == F;
    forall a | a in s.mem ensures s.mem[a].committed { AllCommittedAt(s, a); }
  }

  /** What a rolled-back query leaves read-only. */
  lemma FourShut(s: Store, ro: set<int>)
    requires FourHome(s) && Located(s.order, s.mem) && ShutRest(s, ro) && s.last == 2
    ensures ro == {P0, P1, P3}
  {
    assert Real(s, 0) == P0 && Real(s, 1) == P1 && Real(s, 2) == P2 && Real(s, 3) == P3 && Real(s, 4) == P2;
    assert Owns(s, P2) && !Owns(s, P0) && !Owns(s, P1) && !Owns(s, P3);
    forall a ensures a in ro <==> a in {P0, P1, P3} {
      if a in ro { assert a in s.mem; }
    }
  }

  lemma NoHomes(mem: map<int, Page>)
    ensures HomeMaps([], mem) == []
  {
  }

  /** How one entry adds to the list of the pages at home. */
  lemma HomeStep(e: Entry, rest: seq<Entry>, mem: map<int, Page>)
    requires e.loc in mem && mem[e.loc].pages == 1 && mem[e.loc].committed
    ensures HomeMaps([e] + rest, mem)
         == (if mem[e.loc].realAddr == e.loc then [Map(false, e.loc, PAGE_SIZE)] else []) + HomeMaps(rest, mem)
  {
    assert ([e] + rest)[0] == e && ([e] + rest)[1..] == rest;
  }

  /** In which order the pages at home are listed. */
  lemma FourListed(s: Store)
    requires FourHome(s)
    ensures HomeMaps(s.order, s.mem) == [Map(false, P0, PAGE_SIZE), Map(false, P1, PAGE_SIZE), Map(false, P2, PAGE_SIZE), Map(false, P3, PAGE_SIZE)]
  {
    hide HomeMaps;
    var o4 := [Entry(2, F)] + [];
    var o3 := [Entry(1, P3)] + o4;
    var o2 := [Entry(1, P2)] + o3;
    NoHomes(s.mem);
    HomeStep(Entry(2, F), [], s.mem);
    HomeStep(Entry(1, P3), o4, s.mem);
    HomeStep(Entry(1, P2), o3, s.mem);
    HomeStep(Entry(1, P1), o2, s.mem);
    HomeStep(Entry(0, P0), [Entry(1, P1)] + o2, s.mem);
    assert s.order == [Entry(0, P0)] + ([Entry(1, P1)] + o2);
  }

  lemma CoalesceFour()
    ensures Coalesced([Map(false, P0, PAGE_SIZE), Map(false, P1, PAGE_SIZE), Map(false, P2, PAGE_SIZE), Map(false, P3, PAGE_SIZE)])
         == [Map(false, P0, 4 * PAGE_SIZE)]
  {
    var (a, b, c, d) := (Map(false, P0, PAGE_SIZE), Map(false, P1, PAGE_SIZE), Map(false, P2, PAGE_SIZE), Map(false, P3, PAGE_SIZE));
    CoalesceThree(a, b, c);
    assert [a, b, c, d][..3] == [a, b, c];
  }

  /** The page in the middle is left bare when the next mutation begins. */
  lemma MiddleBared(s: Store, ro: set<int>, x: int)
    requires FourHome(s) && ro == {P0, P1, P3} && P2 <= x < P2 + PAGE_SIZE
    requires HomeMaps(s.order, s.mem) == [Map(false, P0, PAGE_SIZE), Map(false, P1, PAGE_SIZE), Map(false, P2, PAGE_SIZE), Map(false, P3, PAGE_SIZE)]
    ensures Bared(s, ro, x)
  {
    CoalesceFour();
    var ms, p := HomeMaps(s.order, s.mem), Unshut(s.mem, ro);
    var cs := Coalesced(ms);
    assert Covers(s.mem, P0, P0) && Covers(s.mem, P3, P3 + PAGE_SIZE - 1);
    assert p(x);
    assert cs[..0] == [];
    assert Seen(p, cs, 0, x) && !Seen(p, cs, 0, cs[0].start) && !Seen(p, cs, 0, cs[0].End() - 1);
    assert SilentAt(p, cs, 0);
  }

  /** The run of the two queries that leads to such a heap. */
  lemma MiddleReached() returns (ls: seq<Step>, s: Store, ro: set<int>)
    ensures Reached(ls, s, ro) && FourHome(s) && s.committed == 1 && s.last == 2
    ensures Restored(Populated(), s, 1)
  {
    hide Reached, Settled, Worked, Populated, MiddleWritten, Entered, PagesPlaced, FourHome, LinearRun, Taken, Matches,
      Lined, Block, Restored;
    var ls1, ro1 := PopulatedReached();
    PopulatedIs();
    MiddleRun();
    MiddleIs();
    MiddleLined();
    ReachedNext(ls1, Populated(), ro1, Puts(Populated(), P2, 1, F), MiddleWritten());
    var l;
    s, l := ReachedBack(ls1 + Worked(Puts(Populated(), P2, 1, F)), MiddleWritten(), RoEnd(Populated(), ro1, Worked(Puts(Populated(), P2, 1, F))));
    ls, ro := ls1 + Worked(Puts(Populated(), P2, 1, F)) + [l], RoEnd(Populated(), ro1, Worked(Puts(Populated(), P2, 1, F)));
    ReachedFacts(ls, s, ro);
    LinedSame(MiddleWritten(), s, [0, 1, 1, 1, 2], [P0, P1, P2, P3, P2]);
    FourAre(s);
    ReachedFacts(ls1, Populated(), ro1);
    MiddleBack(l, s);
  }

  lemma ReachedFacts(ls: seq<Step>, s: Store, ro: set<int>)
    requires Reached(ls, s, ro)
    ensures Inv(s) && !Mutating(s) && StandsHome'(s, s.committed) && ShutRest(s, ro) && TipHome(s)
  {
  }

  lemma MiddleRun()
    ensures LinearRun(Populated(), Worked(Puts(Populated(), P2, 1, F)), MiddleWritten())
    ensures Evaluates(Puts(Populated(), P2, 1, F)) && Sealed(Worked(Puts(Populated(), P2, 1, F)))
    ensures MiddleWritten().committed == MiddleWritten().last == 2 && Populated().committed == 1
  {
    hide LinearRun;
    PutRun(Populated(), P2, 1, F);
  }

  /** The rollback brings back what the second query had found. */
  lemma MiddleBack(l: Step, s: Store)
    requires Taken(MiddleWritten(), l, s) && l.Checkout? && s.committed == 1 && !Mutating(s)
    requires Inv(Populated()) && TipHome(Populated()) && !Mutating(Populated())
    ensures Restored(Populated(), s, 1)
  {
    MiddleRun();
    var work := Worked(Puts(Populated(), P2, 1, F));
    assert Sealed(work + [l]);
    hide Populated, MiddleWritten, Taken, Worked, Puts, LinearRun;
    LinearOne(MiddleWritten(), l, s);
    LinearJoin(Populated(), work, MiddleWritten(), [l], s);
    LinearTimeTravel(Populated(), work + [l], s);
  }

  lemma PopulatedHas(s: Store)
    requires Inv(Populated()) && Restored(Populated(), s, 1) && FourHome(s) && Inv(s)
    ensures P2 in s.mem && s.mem[P2] == Block(P2, 0, P2, true)
    ensures HasVersion(Versions(s, 1), P2)
  {
    EntryVersion(Populated(), 2, 1);
    EntryVersion(s, 2, 1);
  }

  /** An entry of a generation up to k is a version. */
  lemma EntryVersion(s: Store, i: nat, k: int)
    requires Located(s.order, s.mem) && i < |s.order| && s.order[i].gen <= k
    ensures HasVersion(Versions(s, k), Real(s, i))
  {
    EntryListed(s, |s.order|, i, k);
    assert s.order[..|s.order|] == s.order;
  }

  lemma {:induction false} EntryListed(s: Store, n: nat, i: nat, k: int)
    requires Located(s.order, s.mem) && i < n <= |s.order| && s.order[i].gen <= k
    ensures Located(s.order[..n], s.mem) && HasVersion(Hist(s.order[..n], s.mem, k), Real(s, i))
  {
    var o := s.order[..n];
    assert o[..n - 1] == s.order[..n - 1];
    var h := Hist(o, s.mem, k);
    if i < n - 1 {
      EntryListed(s, n - 1, i, k);
      var q :| 0 <= q < |Hist(o[..n - 1], s.mem, k)| && Hist(o[..n - 1], s.mem, k)[q].realAddr == Real(s, i);
      assert h[q].realAddr == Real(s, i);
    } else {
      assert h[|h| - 1].realAddr == Real(s, i);
    }
  }

  /** Isolation and rollback fail after a silent begin. From the first commit, one query
      allocates three pages next to each other, and a second one writes the page in the
      middle and is rolled back; no write so far was untrapped. The heap is coherent for
      its committed generation. But when the next mutation begins, every byte of the page
      in the middle stays writable for the process; and a query that writes there and is
      rolled back leaves what it wrote. */
  lemma RollbackFails() returns (ls: seq<Step>, s: Store, ro: set<int>, p: Page, s': Store)
    ensures Reached(ls, s, ro) && Coherent(s, s.committed)
    ensures P2 in Homes(s.mem) && forall x :: Covers(s.mem, P2, x) ==> Bared(s, ro, x)
    ensures VersionStore.Run(s, BreachedSteps(P2, p, s.committed), s') && s'.committed == s.committed
    ensures SwapsTo(Unwound(s, P2, p), s.committed) == []
    ensures P2 in s'.mem && s'.mem[P2] == p && !Restored(s, s', s.committed)
  {
    hide Reached, Restored, Coherent, Populated, HomeMaps, Filled;
    ls, s, ro := MiddleReached();
    ReachedFacts(ls, s, ro);
    PopulatedSound();
    PopulatedHas(s);
    FourShut(s, ro);
    FourListed(s);
    forall x | Covers(s.mem, P2, x) ensures Bared(s, ro, x) { MiddleBared(s, ro, x); }
    hide Bared, FourHome, Inv, ShutRest, StandsHome, TipHome;
    p, s' := Block(P2, 2, P2, true), Breached(s, P2, Block(P2, 2, P2, true));
    BlockTiled(P2, 2, P2, P2, true);
    FilledApart();
    LeakSurvives(s, P2, p);
  }

  lemma FilledApart()
    ensures Filled(0) != Filled(2)
  {
    assert Filled(0)[0] != Filled(2)[0];
  }

  lemma PopulatedSound()
    ensures Inv(Populated())
  {
    hide Reached, Populated, Inv;
    var ls, ro := PopulatedReached();
    ReachedFacts(ls, Populated(), ro);
  }

  // ------------------------------------------------------------ an aborted begin

  /** After the first query, one has written the first of the three pages, and another
      one the page in the middle. */
  function FirstWritten(): Store { Updated(Populated(), P1, 1, F) }

  function BothWritten(): Store { Updated(FirstWritten(), P2, 1, G) }

  lemma BothAre()
    ensures FirstWritten().order == [Entry(0, P0), Entry(1, F), Entry(1, P2), Entry(1, P3), Entry(2, P1)]
    ensures FirstWritten().mem == map[P0 := Block(P0, 0, P0, true), P1 := Block(P1, 1, P1, true), P2 := Block(P2, 0, P2, true),
                                      P3 := Block(P3, 0, P3, true), F := Block(P1, 0, F, true)]
    ensures BothWritten().order == [Entry(0, P0), Entry(1, F), Entry(1, G), Entry(1, P3), Entry(2, P1), Entry(3, P2)]
    ensures BothWritten().mem == FirstWritten().mem[G := Block(P2, 0, G, true)][P2 := Block(P2, 1, P2, true)]
    ensures (FirstWritten().working, FirstWritten().committed, FirstWritten().last) == (2, 2, 2)
    ensures (BothWritten().working, BothWritten().committed, BothWritten().last) == (3, 3, 3)
  {
  }

  lemma BothRun()
    ensures LinearRun(Populated(), Worked(Puts(Populated(), P1, 1, F)), FirstWritten())
    ensures LinearRun(FirstWritten(), Worked(Puts(FirstWritten(), P2, 1, G)), BothWritten())
    ensures Evaluates(Puts(Populated(), P1, 1, F)) && Sealed(Worked(Puts(Populated(), P1, 1, F)))
    ensures Evaluates(Puts(FirstWritten(), P2, 1, G)) && Sealed(Worked(Puts(FirstWritten(), P2, 1, G)))
  {
    BothAre();
    assert FirstWritten() == Updated(Populated(), P1, 1, F) && BothWritten() == Updated(FirstWritten(), P2, 1, G);
    hide LinearRun, FirstWritten, BothWritten, Updated;
    PutRun(Populated(), P1, 1, F);
    PutRun(FirstWritten(), P2, 1, G);
  }

  lemma BothPlaced()
    ensures PagesPlaced(FirstWritten().mem, SIZE)
  {
    hide FirstWritten, BothWritten, Filled;
    BothAre();
  }

  lemma BothEntered()
    ensures Entered(FirstWritten()) && Entered(BothWritten())
  {
    BothAre();
    hide FirstWritten, BothWritten, Filled, Block;
    var (s, t) := (FirstWritten(), BothWritten());
    assert s.order[0].loc == P0 && s.order[1].loc == F && s.order[2].loc == P2 && s.order[3].loc == P3 && s.order[4].loc == P1;
    assert t.order[0].loc == P0 && t.order[1].loc == F && t.order[2].loc == G && t.order[3].loc == P3 && t.order[4].loc == P1 && t.order[5].loc == P2;
  }

  lemma BothLined()
    ensures Located(BothWritten().order, BothWritten().mem) && Lined(BothWritten(), [0, 1, 1, 1, 2, 3], [P0, P1, P2, P3, P1, P2])
    ensures BothWritten().mem.Keys == {P0, P1, P2, P3, F, G}
    ensures forall a :: a in BothWritten().mem ==>
              BothWritten().mem[a].pages == 1 && BothWritten().mem[a].realAddr == if a == F then P1 else if a == G then P2 else a
  {
    hide FirstWritten, BothWritten, Filled;
    BothAre();
  }

  /** Where the pages stand when the last of these queries has been rolled back. */
  ghost predicate SixHome(s: Store) {
    && |s.order| == 6 && s.order[0] == Entry(0, P0) && s.order[1].loc in {F, G} && s.order[2] == Entry(1, P2)
    && s.order[3] == Entry(1, P3) && s.order[4] == Entry(2, P1) && s.order[5].loc in {F, G}
    && s.mem.Keys == {P0, P1, P2, P3, F, G}
    && (forall a :: a in s.mem ==> s.mem[a].pages == 1 && s.mem[a].committed && s.mem[a].realAddr == if a == F then P1 else if a == G then P2 else a)
  }

  lemma SixStand(s: Store)
    requires Located(s.order, s.mem) && Lined(s, [0, 1, 1, 1, 2, 3], [P0, P1, P2, P3, P1, P2])
    requires s.mem.Keys == {P0, P1, P2, P3, F, G} && Distinct(s.order) && StandsHome(s, 2)
    ensures |s.order| == 6 && s.order[0] == Entry(0, P0) && s.order[1].loc in {F, G} && s.order[2] == Entry(1, P2)
    ensures s.order[3] == Entry(1, P3) && s.order[4] == Entry(2, P1) && s.order[5].loc in {F, G}
  {
    hide StandsHome;
    assert Real(s, 0) == P0 && Real(s, 2) == P2 && Real(s, 3) == P3 && Real(s, 4) == P1;
    StandsAt(s, 2, 0);
    StandsAt(s, 2, 2);
    StandsAt(s, 2, 3);
    StandsAt(s, 2, 4);
    assert s.order[1].loc in s.mem && s.order[5].loc in s.mem;
  }

  lemma SixAre(s: Store)
    requires Inv(s) && !Mutating(s) && StandsHome'(s, 2) && Lined(s, [0, 1, 1, 1, 2, 3], [P0, P1, P2, P3, P1, P2])
    requires s.mem.Keys == {P0, P1, P2, P3, F, G}
    requires forall a :: a in s.mem ==> s.mem[a].pages == 1 && s.mem[a].realAddr == if a == F then P1 else if a == G then P2 else a
    ensures SixHome(s)
  {
    SixStand(s);
    assert s.order[1].loc != s.order[5].loc;
    hide Inv, StandsHome;
    forall a | a in s.mem ensures s.mem[a].committed {
      var i := if a == P0 then 0 else if a == P1 then 4 else if a == P2 then 2 else if a == P3 then 3 else if s.order[1].loc == a then 1 else 5;
      assert s.order[i].loc == a;
      AllCommittedAt(s, a);
    }
  }

  lemma SixShut(s: Store, ro: set<int>)
    requires SixHome(s) && Located(s.order, s.mem) && ShutRest(s, ro) && s.last == 3 && Lined(s, [0, 1, 1, 1, 2, 3], [P0, P1, P2, P3, P1, P2])
    ensures ro == {P0, P1, P3}
  {
    assert Real(s, 0) == P0 && Real(s, 1) == P1 && Real(s, 2) == P2 && Real(s, 3) == P3 && Real(s, 4) == P1 && Real(s, 5) == P2;
    assert Owns(s, P2) && !Owns(s, P0) && !Owns(s, P1) && !Owns(s, P3);
    forall a ensures a in ro <==> a in {P0, P1, P3} {
      if a in ro { assert a in s.mem; }
    }
  }

  lemma SixListed(s: Store)
    requires SixHome(s)
    ensures HomeMaps(s.order, s.mem) == [Map(false, P0, PAGE_SIZE), Map(false, P2, PAGE_SIZE), Map(false, P3, PAGE_SIZE), Map(false, P1, PAGE_SIZE)]
  {
    hide HomeMaps;
    var (x, y) := (s.order[1], s.order[5]);
    var o5 := [y] + [];
    var o4 := [Entry(2, P1)] + o5;
    var o3 := [Entry(1, P3)] + o4;
    var o2 := [Entry(1, P2)] + o3;
    NoHomes(s.mem);
    HomeStep(y, [], s.mem);
    HomeStep(Entry(2, P1), o5, s.mem);
    HomeStep(Entry(1, P3), o4, s.mem);
    HomeStep(Entry(1, P2), o3, s.mem);
    HomeStep(x, o2, s.mem);
    HomeStep(Entry(0, P0), [x] + o2, s.mem);
    assert s.order == [Entry(0, P0)] + ([x] + o2);
  }

  lemma CoalesceGap()
    ensures Coalesced([Map(false, P0, PAGE_SIZE), Map(false, P2, PAGE_SIZE), Map(false, P3, PAGE_SIZE), Map(false, P1, PAGE_SIZE)])
         == [Map(false, P0, PAGE_SIZE), Map(false, P2, 2 * PAGE_SIZE), Map(false, P1, PAGE_SIZE)]
  {
    var (a, b, c, d) := (Map(false, P0, PAGE_SIZE), Map(false, P2, PAGE_SIZE), Map(false, P3, PAGE_SIZE), Map(false, P1, PAGE_SIZE));
    assert [a, b, c, d][..3] == [a, b, c] && [a, b, c][..2] == [a, b] && [a, b][..1] == [a] && [a][..0] == [];
    assert Coalesced([a]) == [a];
    assert Coalesced([a, b]) == [a, b];
    assert Coalesced([a, b, c]) == [a, Map(false, P2, 2 * PAGE_SIZE)];
  }

  /** The merge of the two pages behind the first one aborts: before them and at their
      end bytes are read-only already, and their first byte is not. */
  lemma SixAborts(s: Store, ro: set<int>)
    requires SixHome(s) && ro == {P0, P1, P3}
    ensures !Completes(s, ro)
  {
    SixListed(s);
    CoalesceGap();
    var ms, p := HomeMaps(s.order, s.mem), Unshut(s.mem, ro);
    var cs := Coalesced(ms);
    assert Covers(s.mem, P1, P2 - 1) && Covers(s.mem, P3, P3 + PAGE_SIZE - 1);
    assert p(P2) && !p(P2 - 1) && !p(P3 + PAGE_SIZE - 1);
    assert cs[..1] == [Map(false, P0, PAGE_SIZE)] && cs[..1][..0] == [];
    ShutPaints(cs[..1], P2 - 1, p(P2 - 1));
    ShutPaints(cs[..1], P2, p(P2));
    ShutPaints(cs[..1], P3 + PAGE_SIZE - 1, p(P3 + PAGE_SIZE - 1));
    assert AbortsAt(p, cs, 1);
    NotFinished(p, ms, 1);
  }

  /** The allocator can abort. From the first commit, one query allocates three pages
      next to each other, a second one writes the first of them, and a third one writes
      the page in the middle and is rolled back; no mutation so far was aborted, and no
      write untrapped. The next mutation is aborted by a failing assertion. */
  lemma BeginAborts() returns (ls: seq<Step>, s: Store, ro: set<int>)
    ensures Reached(ls, s, ro) && Coherent(s, s.committed) && !Completes(s, ro)
  {
    hide Reached, Settled, Worked, Populated, FirstWritten, BothWritten, Entered, PagesPlaced, SixHome, LinearRun, Taken,
      Matches, Lined,
      Coherent, Completes;
    var ls1, ro1 := PopulatedReached();
    PopulatedIs();
    BothRun();
    BothAre();
    BothEntered();
    BothPlaced();
    BothLined();
    ReachedNext(ls1, Populated(), ro1, Puts(Populated(), P1, 1, F), FirstWritten());
    var ls2, ro2 := ls1 + Worked(Puts(Populated(), P1, 1, F)), RoEnd(Populated(), ro1, Worked(Puts(Populated(), P1, 1, F)));
    ReachedNext(ls2, FirstWritten(), ro2, Puts(FirstWritten(), P2, 1, G), BothWritten());
    var ls3 := ls2 + Worked(Puts(FirstWritten(), P2, 1, G));
    ro := RoEnd(FirstWritten(), ro2, Worked(Puts(FirstWritten(), P2, 1, G)));
    var l;
    s, l := ReachedBack(ls3, BothWritten(), ro);
    ls := ls3 + [l];
    ReachedFacts(ls, s, ro);
    StandingIsCoherent(s, s.committed);
    LinedSame(BothWritten(), s, [0, 1, 1, 1, 2, 3], [P0, P1, P2, P3, P1, P2]);
    SixAre(s);
    SixShut(s, ro);
    SixAborts(s, ro);
  }
}
