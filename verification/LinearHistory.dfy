/** Histories in which every mutation starts from the newest generation, and a
    history in which one does not. */
module LinearHistory {
  import opened Layout
  import opened Pages
  import opened VersionStore
  import opened History

  ghost predicate LinearRun(s: Store, ls: seq<Step>, s': Store)
    decreases ls
  {
    if ls == [] then s' == s
    else exists m :: Taken(s, ls[0], m) && Extends(s, ls[0]) && LinearRun(m, ls[1..], s')
  }

  lemma {:induction false} LinearIsRun(s: Store, ls: seq<Step>, s': Store)
    requires LinearRun(s, ls, s')
    ensures Run(s, ls, s')
    decreases ls
  {
    if ls != [] {
      var m :| Taken(s, ls[0], m) && Extends(s, ls[0]) && LinearRun(m, ls[1..], s');
      LinearIsRun(m, ls[1..], s');
    }
  }

  lemma {:induction false} LinearJoin(s: Store, a: seq<Step>, m: Store, b: seq<Step>, s': Store)
    requires LinearRun(s, a, m) && LinearRun(m, b, s')
    ensures LinearRun(s, a + b, s')
    decreases a
  {
    if a == [] {
      assert a + b == b;
    } else {
      assert (a + b)[0] == a[0] && (a + b)[1..] == a[1..] + b;
      var n :| Taken(s, a[0], n) && Extends(s, a[0]) && LinearRun(n, a[1..], m);
      LinearJoin(n, a[1..], m, b, s');
    }
  }

  lemma LinearOne(s: Store, l: Step, s': Store)
    requires Taken(s, l, s') && Extends(s, l)
    ensures LinearRun(s, [l], s')
  {
    assert [l][1..] == [] && LinearRun(s', [l][1..], s');
  }

  /** The interpreter sees the generation it works on: during a mutation the
      working generation, otherwise the committed one. */
  ghost predicate TipHome(s: Store) {
    StandsHome'(s, s.working)
  }

  lemma TrapTip(s: Store, a: int, copy: int, s': Store)
    requires Inv(s) && TipHome(s) && Taken(s, Trap(a, copy, |s.order|), s')
    ensures TipHome(s')
  {
    RelocateKeeps(s, a, copy);
    AdoptSame(s, a, copy, s');
    forall i | Selected(s', s'.working, i) ensures s'.order[i].loc == Real(s', i) {
      if i < |s.order| {
        assert Real(s', |s.order|) == a && s'.order[|s.order|].gen <= s'.working;
        forall j | i < j < |s.order| && s.order[j].gen <= s.working ensures Real(s, j) != Real(s, i) {
          assert Real(s', j) == Real(s, j);
        }
        assert Selected(s, s.working, i);
      }
    }
  }

  lemma AdoptSame(s: Store, a: int, copy: int, s': Store)
    requires Inv(s) && Taken(s, Trap(a, copy, |s.order|), s')
    ensures Located(s'.order, s'.mem) && |s'.order| == |s.order| + 1
    ensures forall i :: 0 <= i < |s.order| ==>
              && s'.order[i] == Entry(s.order[i].gen, Other(s.order[i].loc, a, copy))
              && Real(s', i) == Real(s, i)
    ensures s'.order[|s.order|] == Entry(s.working, a) && Real(s', |s.order|) == a
  {
  }

  lemma NewPageTip(s: Store, at: int, n: int, s': Store)
    requires Inv(s) && TipHome(s) && Taken(s, NewPage(at, n, |s.order|), s')
    ensures TipHome(s')
  {
    forall i | 0 <= i < |s.order| ensures s'.order[i] == s.order[i] && Real(s', i) == Real(s, i) {}
    forall i | Selected(s', s'.working, i) ensures s'.order[i].loc == Real(s', i) {
      if i < |s.order| {
        forall j | i < j < |s.order| && s.order[j].gen <= s.working ensures Real(s, j) != Real(s, i) {
          assert Real(s', j) == Real(s, j);
        }
        assert Selected(s, s.working, i);
      }
    }
  }

  lemma SameTip(s: Store, s': Store, k: int, k': int)
    requires StandsHome'(s, k) && s'.order == s.order && s'.mem.Keys == s.mem.Keys
    requires forall a :: a in s.mem ==> s'.mem[a].realAddr == s.mem[a].realAddr
    requires forall i :: 0 <= i < |s.order| ==> (s.order[i].gen <= k' ==> s.order[i].gen <= k)
    requires k <= k'
    ensures StandsHome'(s', k')
  {
    forall i | Selected(s', k', i) ensures s'.order[i].loc == Real(s', i) {
      forall j | i < j < |s.order| && s.order[j].gen <= k ensures Real(s, j) != Real(s, i) {
        assert Real(s', j) != Real(s', i);
      }
      assert Selected(s, k, i);
    }
  }

  lemma PokeTip(s: Store, a: int, p: Page)
    requires TipHome(s) && a in s.mem && p.realAddr == s.mem[a].realAddr
    ensures TipHome(s.(mem := s.mem[a := p]))
  {
    SameTip(s, s.(mem := s.mem[a := p]), s.working, s.working);
  }

  lemma CommitTip(s: Store, s': Store)
    requires TipHome(s) && Taken(s, Commit, s')
    ensures TipHome(s')
  {
    SameTip(s, s', s.working, s'.working);
  }

  lemma BeginTip(s: Store)
    requires Inv(s) && TipHome(s) && s.working == s.last
    ensures TipHome(s.(working := s.last + 1, last := s.last + 1))
  {
    SameTip(s, s.(working := s.last + 1, last := s.last + 1), s.last, s.last + 1);
  }

  lemma LinearKeeps(s: Store, l: Step, s': Store)
    requires Inv(s) && TipHome(s) && Taken(s, l, s') && Extends(s, l)
    ensures Inv(s') && TipHome(s')
  {
    hide Inv, TipHome, Tiled, SwapsHome;
    StepKeeps(s, l, s');
    match l
    case Begin => BeginTip(s);
    case Trap(a, copy, j) => TrapTip(s, a, copy, s');
    case NewPage(at, n, j) => NewPageTip(s, at, n, s');
    case Write(a, p) => PokeTip(s, a, p);
    case Leak(a, p) => PokeTip(s, a, p);
    case Commit => CommitTip(s, s');
    case Checkout(k, swaps) => CheckoutTip(s, k, swaps, s');
  }

  lemma CheckoutTip(s: Store, k: int, swaps: seq<int>, s': Store)
    requires Inv(s) && TipHome(s) && Taken(s, Checkout(k, swaps), s')
    ensures TipHome(s')
  {
  }

  lemma {:induction false} LinearRunKeeps(s: Store, ls: seq<Step>, s': Store)
    requires Inv(s) && TipHome(s) && LinearRun(s, ls, s')
    ensures Inv(s') && TipHome(s')
    decreases ls
  {
    if ls != [] {
      var m :| Taken(s, ls[0], m) && Extends(s, ls[0]) && LinearRun(m, ls[1..], s');
      LinearKeeps(s, ls[0], m);
      LinearRunKeeps(m, ls[1..], s');
    }
  }

  /** Time travel on linear histories: whenever, after any commits and any
      back-and-forth of checkouts, k is the committed generation again, every page
      that existed when k was committed is byte for byte as it was then. */
  lemma LinearTimeTravel(s: Store, ls: seq<Step>, s': Store)
    requires Inv(s) && TipHome(s) && !Mutating(s)
    requires LinearRun(s, ls, s') && !Mutating(s') && s'.committed == s.committed && Sealed(ls)
    ensures Inv(s') && Restored(s, s', s.committed) && Coherent(s', s.committed)
  {
    var k := s.committed;
    LinearRunKeeps(s, ls, s');
    LinearIsRun(s, ls, s');
    StandingIsCoherent(s, k);
    StandingIsCoherent(s', k);
    TimeTravel(s, ls, s', k);
  }

  // ----------------------------------------------------- a branching history

  const A: int := MAP_START + 2 * PAGE_SIZE
  const F: int := MAP_START + 3 * PAGE_SIZE

  /** Page A with one segment of one byte. */
  function PageA(v: Byte, at: int, committed: bool): Page {
    Page(committed, A, 1, [at + PAGE_SIZE - SEGMENT_HEADER - 1], [Segment(true, 1, [v])])
  }

  /** Generation 0 holds page A, and the byte is 0. */
  function Start(): Store {
    Store([Entry(0, A)], map[A := PageA(0, A, true)], 0, 0, 0)
  }

  /** A first query has set the byte to 1, failed and was rolled back; a second
      query that wrote nothing was committed as generation 2. */
  function AfterFailure(working: int, committed: int, last: int): Store {
    Store([Entry(0, A), Entry(1, F)], map[A := PageA(0, A, true), F := PageA(1, F, true)], working, committed, last)
  }

  lemma PageATiled(v: Byte, at: int, committed: bool)
    ensures Tiled(PageA(v, at, committed), at)
    ensures Moved(PageA(v, at, committed), F - at) == PageA(v, F, committed)
    ensures Moved(PageA(v, at, committed), A - at) == PageA(v, A, committed)
  {
    var p := PageA(v, at, committed);
    assert TiledAt(p, at, 0);
    assert Moved(p, F - at).c == PageA(v, F, committed).c;
    assert Moved(p, A - at).c == PageA(v, A, committed).c;
  }

  /** The states of the first query: its trap, its write and its commit. */
  function Trapped(): Store {
    Store([Entry(0, F), Entry(1, A)], map[A := PageA(0, A, false), F := PageA(0, F, true)], 1, 0, 1)
  }

  function Written(): Store {
    Trapped().(mem := map[A := PageA(1, A, false), F := PageA(0, F, true)])
  }

  function Failed(): Store {
    Trapped().(mem := map[A := PageA(1, A, true), F := PageA(0, F, true)], committed := 1)
  }

  lemma FirstTrap()
    ensures Taken(Start().(working := 1, last := 1), Trap(A, F, 1), Trapped())
  {
    var s := Start().(working := 1, last := 1);
    PageATiled(0, A, true);
    assert Trapped().order == Insert(Exchange(s.order, A, F), 1, Entry(1, A));
    assert Trapped().mem == s.mem[F := Moved(s.mem[A], F - A)][A := s.mem[A].(committed := false)];
  }

  lemma FirstWrite()
    ensures Taken(Trapped(), Write(A, PageA(1, A, false)), Written())
  {
    PageATiled(1, A, false);
    assert Written().mem == Trapped().mem[A := PageA(1, A, false)];
  }

  lemma FirstCommit()
    ensures Taken(Written(), Commit, Failed())
  {
    var s := Written();
    assert Failed().mem == map a | a in s.mem :: s.mem[a].(committed := true);
  }

  lemma FirstRollback()
    ensures Taken(Failed(), Checkout(0, [F]), AfterFailure(0, 0, 1))
  {
    var s, s' := Failed(), AfterFailure(0, 0, 1);
    PageATiled(1, A, true);
    PageATiled(0, F, true);
    assert [F][..0] == [];
    assert SwapsHome(s, [F]) == SwapHome(s, F);
    assert SwapHome(s, F).order == s'.order;
    assert SwapHome(s, F).mem == s'.mem;
  }

  lemma FirstQueryFails() returns (ls: seq<Step>)
    ensures Evaluates(ls) && Sealed(ls)
    ensures Run(Start(), [Begin] + ls + [Commit] + [Checkout(0, [F])], AfterFailure(0, 0, 1))
  {
    var trap, write := Trap(A, F, 1), Write(A, PageA(1, A, false));
    ls := [trap] + [write];
    FirstTrap();
    FirstWrite();
    FirstCommit();
    FirstRollback();
    var s0 := Start();
    var s1 := s0.(working := 1, last := 1);
    assert Taken(s0, Begin, s1);
    hide *;
    RunOne(s0, Begin, s1);
    RunOne(s1, trap, Trapped());
    RunOne(Trapped(), write, Written());
    RunJoin(s1, [trap], Trapped(), [write], Written());
    RunJoin(s0, [Begin], s1, ls, Written());
    RunOne(Written(), Commit, Failed());
    RunJoin(s0, [Begin] + ls, Written(), [Commit], Failed());
    RunOne(Failed(), Checkout(0, [F]), AfterFailure(0, 0, 1));
    RunJoin(s0, [Begin] + ls + [Commit], Failed(), [Checkout(0, [F])], AfterFailure(0, 0, 1));
  }

  lemma AfterFailureIncoherent()
    ensures var s := AfterFailure(2, 2, 2);
            Located(s.order, s.mem) && !Coherent(s, 2)
  {
    var s := AfterFailure(2, 2, 2);
    var vs := Versions(s, 2);
    var one := s.order[..1];
    assert one == [Entry(0, A)] && one[..0] == [] && Hist([], s.mem, 2) == [];
    assert Hist(one, s.mem, 2) == [Held(one, s.mem, 0)];
    assert vs == [Held(one, s.mem, 0), Held(s.order, s.mem, 1)];
    assert vs[1].realAddr == A;
    assert Select(vs, A) == vs[1];
    assert vs[1].segs[0].data == [1];
    assert Logical(s.mem[A], A).segs[0].data == [0];
  }

  /** The second query: nothing is written, generation 2 is committed. */
  lemma SecondQuery()
    ensures Taken(AfterFailure(0, 0, 1), Begin, AfterFailure(2, 0, 2))
    ensures Taken(AfterFailure(2, 0, 2), Commit, AfterFailure(2, 2, 2))
  {
    var s, s' := AfterFailure(2, 0, 2), AfterFailure(2, 2, 2);
    assert s'.mem == map a | a in s.mem :: s.mem[a].(committed := true);
  }

  /** After the rollback of the third query: the byte is 1. */
  function RolledBackWrong(): Store {
    Store([Entry(0, F), Entry(1, A)], map[A := PageA(1, A, true), F := PageA(0, F, true)], 2, 2, 3)
  }

  /** The third query writes nothing, fails and is rolled back to generation 2. */
  lemma ThirdCommit()
    ensures Taken(AfterFailure(2, 2, 2), Begin, AfterFailure(3, 2, 3))
    ensures Taken(AfterFailure(3, 2, 3), Commit, AfterFailure(3, 3, 3))
  {
    var s, s' := AfterFailure(3, 2, 3), AfterFailure(3, 3, 3);
    assert s'.mem == map a | a in s.mem :: s.mem[a].(committed := true);
  }

  lemma ThirdSwap()
    ensures SwapsHome(AfterFailure(3, 3, 3), [F]) == RolledBackWrong().(working := 3, committed := 3)
  {
    var s, s' := AfterFailure(3, 3, 3), RolledBackWrong();
    PageATiled(0, A, true);
    PageATiled(1, F, true);
    assert [F][..0] == [];
    assert SwapsHome(s, [F]) == SwapHome(s, F);
    assert SwapHome(s, F).order == s'.order;
    assert SwapHome(s, F).mem == s'.mem;
  }

  lemma ThirdRollback()
    ensures Taken(AfterFailure(3, 3, 3), Checkout(2, [F]), RolledBackWrong())
  {
    ThirdSwap();
    var s := RolledBackWrong();
    assert Real(s, 1) == Real(s, 0) == A;
    assert StandsHome(s, 2);
    hide SwapsHome, StandsHome;
  }

  lemma StartIsSound()
    ensures Inv(Start()) && TipHome(Start()) && !Mutating(Start())
  {
    PageATiled(0, A, true);
  }

  /** On a branching history rollback fails. A fresh heap; a query that writes a
      byte, fails and is rolled back; a query that writes nothing and is committed
      as generation 2; a query that writes nothing, fails and is rolled back to
      generation 2: the byte now has the value that the first, failed query gave
      it, because selection goes by generation id and not by ancestry. */
  lemma FailedQueryIsSelected() returns (ls: seq<Step>)
    ensures Inv(Start()) && TipHome(Start()) && !Mutating(Start()) && Evaluates(ls) && Sealed(ls)
    ensures Run(Start(), [Begin] + ls + [Commit] + [Checkout(0, [F])], AfterFailure(0, 0, 1))
    ensures Run(AfterFailure(0, 0, 1), [Begin] + [Commit], AfterFailure(2, 2, 2))
    ensures Run(AfterFailure(2, 2, 2), [Begin] + [] + [Commit] + [Checkout(2, [F])], RolledBackWrong())
    ensures Inv(AfterFailure(2, 2, 2)) && !Restored(AfterFailure(2, 2, 2), RolledBackWrong(), 2)
  {
    hide *;
    StartIsSound();
    ls := FirstQueryFails();
    ThenCommitted();
    ThenWrong(ls);
  }

  /** The runs of the second and the third query. */
  lemma ThenCommitted()
    ensures Run(AfterFailure(0, 0, 1), [Begin] + [Commit], AfterFailure(2, 2, 2))
    ensures Run(AfterFailure(2, 2, 2), [Begin] + [] + [Commit] + [Checkout(2, [F])], RolledBackWrong())
  {
    hide *;
    SecondQuery();
    ThirdCommit();
    ThirdRollback();
    RunOne(AfterFailure(0, 0, 1), Begin, AfterFailure(2, 0, 2));
    RunOne(AfterFailure(2, 0, 2), Commit, AfterFailure(2, 2, 2));
    RunJoin(AfterFailure(0, 0, 1), [Begin], AfterFailure(2, 0, 2), [Commit], AfterFailure(2, 2, 2));
    RunOne(AfterFailure(2, 2, 2), Begin, AfterFailure(3, 2, 3));
    RunOne(AfterFailure(3, 2, 3), Commit, AfterFailure(3, 3, 3));
    RunOne(AfterFailure(3, 3, 3), Checkout(2, [F]), RolledBackWrong());
    assert [Begin] + [] == [Begin];
    RunJoin(AfterFailure(2, 2, 2), [Begin], AfterFailure(3, 2, 3), [Commit], AfterFailure(3, 3, 3));
    RunJoin(AfterFailure(2, 2, 2), [Begin] + [Commit], AfterFailure(3, 3, 3), [Checkout(2, [F])], RolledBackWrong());
  }

  lemma Heads()
    ensures !Mutating(Start()) && Frozen(Start()) == 0 && AfterFailure(0, 0, 1).committed == 0
    ensures !Mutating(AfterFailure(2, 2, 2)) && AfterFailure(2, 2, 2).committed == 2
  {
  }

  lemma ThenWrong(ls: seq<Step>)
    requires Inv(Start()) && Evaluates(ls) && Sealed(ls)
    requires Run(Start(), [Begin] + ls + [Commit] + [Checkout(0, [F])], AfterFailure(0, 0, 1))
    requires Run(AfterFailure(0, 0, 1), [Begin] + [Commit], AfterFailure(2, 2, 2))
    requires Run(AfterFailure(2, 2, 2), [Begin] + [] + [Commit] + [Checkout(2, [F])], RolledBackWrong())
    ensures Inv(AfterFailure(2, 2, 2)) && !Restored(AfterFailure(2, 2, 2), RolledBackWrong(), 2)
  {
    AfterFailureIncoherent();
    Heads();
    NothingEvaluates();
    assert Sealed([Begin] + [Commit]);
    hide Run, Inv, Coherent, Restored, Evaluates, Start, AfterFailure, RolledBackWrong, Mutating, Frozen;
    Rollback(Start(), ls, 0, [F], AfterFailure(0, 0, 1));
    RunConfined(AfterFailure(0, 0, 1), [Begin] + [Commit], AfterFailure(2, 2, 2), -1);
    Rollback(AfterFailure(2, 2, 2), [], 2, [F], RolledBackWrong());
  }

  lemma NothingEvaluates()
    ensures Evaluates([]) && Sealed([])
  {
  }
}
