/** What a run does to the versions of committed generations, and what a checkout
    brings back. */
module History {
  import opened Layout
  import opened Pages
  import opened VersionStore

  /** What entry i of the order holds, wherever it stands. */
  function Held(order: seq<Entry>, mem: map<int, Page>, i: int): Page
    requires 0 <= i < |order| && order[i].loc in mem
  {
    Logical(mem[order[i].loc], order[i].loc)
  }

  /** The versions of the generations up to k, in tree order: what checkout walks
      over when it selects. */
  ghost function Hist(order: seq<Entry>, mem: map<int, Page>, k: int): seq<Page>
    requires Located(order, mem)
  {
    if order == [] then []
    else
      var front := order[..|order| - 1];
      Hist(front, mem, k)
      + if order[|order| - 1].gen <= k then [Held(order, mem, |order| - 1)] else []
  }

  ghost function Versions(s: Store, k: int): seq<Page>
    requires Located(s.order, s.mem)
  {
    Hist(s.order, s.mem, k)
  }

  /** The generations whose versions no later step of any run changes. */
  function Frozen(s: Store): int {
    if Mutating(s) then s.working - 1 else s.last
  }

  lemma {:induction false} HistSame(o: seq<Entry>, m: map<int, Page>, o': seq<Entry>, m': map<int, Page>, k: int)
    requires Located(o, m) && Located(o', m') && |o'| == |o|
    requires forall i :: 0 <= i < |o| ==>
               o'[i].gen == o[i].gen && (o[i].gen <= k ==> Held(o', m', i) == Held(o, m, i))
    ensures Hist(o', m', k) == Hist(o, m, k)
  {
    if o != [] {
      var f, f' := o[..|o| - 1], o'[..|o| - 1];
      assert forall i :: 0 <= i < |f| ==> Held(f, m, i) == Held(o, m, i) && Held(f', m', i) == Held(o', m', i);
      HistSame(f, m, f', m', k);
    }
  }

  lemma {:induction false} HistConcat(a: seq<Entry>, b: seq<Entry>, m: map<int, Page>, k: int)
    requires Located(a, m) && Located(b, m)
    ensures Located(a + b, m) && Hist(a + b, m, k) == Hist(a, m, k) + Hist(b, m, k)
  {
    if b == [] {
      assert a + b == a;
    } else {
      var f := b[..|b| - 1];
      assert Located(f, m);
      HistConcat(a, f, m, k);
      assert (a + b)[..|a + b| - 1] == a + f;
      assert (a + b)[|a + b| - 1] == b[|b| - 1];
    }
  }

  /** An entry of a later generation leaves no trace among the versions up to k. */
  lemma HistInsert(o: seq<Entry>, m: map<int, Page>, j: nat, e: Entry, k: int)
    requires Located(o, m) && j <= |o| && e.loc in m && e.gen > k
    ensures Located(Insert(o, j, e), m) && Hist(Insert(o, j, e), m, k) == Hist(o, m, k)
  {
    var a, b := o[..j], o[j..];
    assert Located(a, m) && Located(b, m) && Located([e], m);
    HistConcat(a, b, m, k);
    assert a + b == o;
    HistConcat(a, [e], m, k);
    assert [e][..0] == [];
    HistConcat(a + [e], b, m, k);
  }

  // --------------------------------------------------- committed versions stay

  lemma RelocateFrozen(s: Store, a: int, copy: int, k: int)
    requires Inv(s) && a in s.mem && s.mem[a].realAddr == a && s.mem[a].committed
    requires copy !in s.mem && a < copy
    ensures Located(Relocate(s, a, copy).order, Relocate(s, a, copy).mem)
    ensures Versions(Relocate(s, a, copy), k) == Versions(s, k)
  {
    var s' := Relocate(s, a, copy);
    MovedLogical(s.mem[a], a, copy);
    forall i | 0 <= i < |s.order| ensures Held(s'.order, s'.mem, i) == Held(s.order, s.mem, i) {}
    HistSame(s.order, s.mem, s'.order, s'.mem, k);
  }

  lemma AdoptFrozen(s: Store, j: nat, loc: int, p: Page, k: int)
    requires Located(s.order, s.mem) && j <= |s.order| && k < s.working
    requires forall i :: 0 <= i < |s.order| ==> s.order[i].loc != loc
    ensures var s' := Adopt(s, j, loc, p);
            Located(s'.order, s'.mem) && Versions(s', k) == Versions(s, k)
  {
    var s' := Adopt(s, j, loc, p);
    assert Located(s.order, s'.mem);
    assert forall i :: 0 <= i < |s.order| ==> Held(s.order, s'.mem, i) == Held(s.order, s.mem, i);
    HistSame(s.order, s.mem, s.order, s'.mem, k);
    HistInsert(s.order, s'.mem, j, Entry(s.working, loc), k);
  }

  lemma SwapHomeFrozen(s: Store, a: int, k: int)
    requires Inv(s) && !Mutating(s)
    ensures Located(SwapHome(s, a).order, SwapHome(s, a).mem) && Versions(SwapHome(s, a), k) == Versions(s, k)
  {
    SwapHomeKeeps(s, a);
    if a in s.mem && s.mem[a].realAddr in s.mem {
      forall i | 0 <= i < |s.order| { SwapHomeHeld(s, a, i); }
      HistSame(s.order, s.mem, SwapHome(s, a).order, SwapHome(s, a).mem, k);
    }
  }

  /** A swap moves versions but changes none. */
  lemma SwapHomeHeld(s: Store, a: int, i: int)
    requires a in s.mem && s.mem[a].realAddr in s.mem
    requires 0 <= i < |s.order| && s.order[i].loc in s.mem
    ensures var s' := SwapHome(s, a);
            s'.order[i].loc in s'.mem && Held(s'.order, s'.mem, i) == Held(s.order, s.mem, i)
  {
    var r := s.mem[a].realAddr;
    MovedLogical(s.mem[a], a, r);
    MovedLogical(s.mem[r], r, a);
  }

  lemma {:induction false} SwapsHomeFrozen(s: Store, swaps: seq<int>, k: int)
    requires Inv(s) && !Mutating(s)
    ensures var s' := SwapsHome(s, swaps);
            Located(s'.order, s'.mem) && Versions(s', k) == Versions(s, k)
  {
    if swaps != [] {
      var front := swaps[..|swaps| - 1];
      SwapsHomeFrozen(s, front, k);
      SwapsHomeKeep(s, front);
      SwapHomeFrozen(SwapsHome(s, front), swaps[|swaps| - 1], k);
    }
  }

  /** Every write into a committed page was trapped. */
  predicate Sealed(ls: seq<Step>) {
    forall i :: 0 <= i < |ls| ==> !ls[i].Leak?
  }

  /** Write barrier, seen from the versions: no step of the allocator or of the
      interpreter changes a version of a committed generation, nor their order, as
      long as writes into committed pages are trapped. */
  lemma StepFrozen(s: Store, l: Step, s': Store, k: int)
    requires Inv(s) && Taken(s, l, s') && k <= Frozen(s) && !l.Leak?
    ensures Inv(s') && Versions(s', k) == Versions(s, k) && Frozen(s) <= Frozen(s')
  {
    StepKeeps(s, l, s');
    match l
    case Begin =>
    case Trap(a, copy, j) =>
      RelocateKeeps(s, a, copy);
      RelocateFrozen(s, a, copy, k);
      AdoptFrozen(Relocate(s, a, copy), j, a, s.mem[a].(committed := false), k);
    case Write(a, p) =>
      forall i | 0 <= i < |s.order| && s.order[i].gen <= k ensures Held(s'.order, s'.mem, i) == Held(s.order, s.mem, i) {}
      HistSame(s.order, s.mem, s'.order, s'.mem, k);
    case NewPage(at, n, j) =>
      AdoptFrozen(s, j, at, FreshPage(at, n), k);
    case Commit =>
      forall i | 0 <= i < |s.order| && s.order[i].gen <= k ensures Held(s'.order, s'.mem, i) == Held(s.order, s.mem, i) {
        var p := s.mem[s.order[i].loc];
        assert p.(committed := true) == p;
      }
      HistSame(s.order, s.mem, s'.order, s'.mem, k);
    case Checkout(_, swaps) =>
      SwapsHomeFrozen(s, swaps, k);
      SwapsHomeKeep(s, swaps);
  }

  /** The same over whole runs. */
  lemma {:induction false} RunFrozen(s: Store, ls: seq<Step>, s': Store, k: int)
    requires Inv(s) && Run(s, ls, s') && k <= Frozen(s) && Sealed(ls)
    ensures Inv(s') && Versions(s', k) == Versions(s, k) && Frozen(s) <= Frozen(s')
    decreases ls
  {
    if ls != [] {
      var m :| Taken(s, ls[0], m) && Run(m, ls[1..], s');
      StepFrozen(s, ls[0], m, k);
      RunFrozen(m, ls[1..], s', k);
    }
  }

  // ------------------------------------------------------- writes not trapped

  lemma {:induction false} HistPoint(o: seq<Entry>, m: map<int, Page>, a: int, p: Page, k: int)
    requires Located(o, m) && a in m && p.realAddr == m[a].realAddr == a
    ensures Located(o, m[a := p]) && |Hist(o, m[a := p], k)| == |Hist(o, m, k)|
    ensures forall n :: 0 <= n < |Hist(o, m, k)| ==>
              && Hist(o, m[a := p], k)[n].realAddr == Hist(o, m, k)[n].realAddr
              && (Hist(o, m[a := p], k)[n] != Hist(o, m, k)[n] ==> Hist(o, m, k)[n].realAddr == a)
  {
    if o != [] { HistPoint(o[..|o| - 1], m, a, p, k); }
  }

  /** The version n of the generations up to k is another one in s', but still of the
      page at x. */
  ghost predicate Altered(s: Store, s': Store, k: int, n: int, x: int)
    requires Located(s.order, s.mem) && Located(s'.order, s'.mem)
  {
    0 <= n < |Versions(s, k)| && |Versions(s', k)| == |Versions(s, k)|
    && Versions(s, k)[n].realAddr == x && Versions(s', k)[n] != Versions(s, k)[n]
  }

  /** The versions stay in their order and with their pages. */
  ghost predicate SameVersions(s: Store, s': Store, k: int)
    requires Located(s.order, s.mem) && Located(s'.order, s'.mem)
  {
    && |Versions(s', k)| == |Versions(s, k)|
    && forall n :: 0 <= n < |Versions(s, k)| ==> Versions(s', k)[n].realAddr == Versions(s, k)[n].realAddr
  }

  ghost predicate LeaksTo(ls: seq<Step>, x: int) {
    exists i :: 0 <= i < |ls| && ls[i].Leak? && ls[i].a == x
  }

  /** What an untrapped write can damage: over any run a committed version changes only
      if some write into its page, standing at home, was not trapped. */
  lemma {:induction false} RunConfined(s: Store, ls: seq<Step>, s': Store, k: int)
    requires Inv(s) && Run(s, ls, s') && k <= Frozen(s)
    ensures Inv(s') && SameVersions(s, s', k) && Frozen(s) <= Frozen(s')
    ensures forall n, x :: Altered(s, s', k, n, x) ==> LeaksTo(ls, x)
    decreases ls
  {
    if ls != [] {
      var m :| Taken(s, ls[0], m) && Run(m, ls[1..], s');
      StepKeeps(s, ls[0], m);
      if ls[0].Leak? { HistPoint(s.order, s.mem, ls[0].a, ls[0].p, k); } else { StepFrozen(s, ls[0], m, k); }
      RunConfined(m, ls[1..], s', k);
      forall n, x | Altered(s, s', k, n, x) ensures LeaksTo(ls, x) {
        if Altered(m, s', k, n, x) {
          var i :| 0 <= i < |ls[1..]| && ls[1..][i].Leak? && ls[1..][i].a == x;
          assert ls[i + 1].Leak? && ls[i + 1].a == x;
        } else {
          assert ls[0].Leak? && ls[0].a == x;
        }
      }
    }
  }

  // ---------------------------------------------------------- what stands home

  ghost predicate HasVersion(vs: seq<Page>, x: int) {
    exists i :: 0 <= i < |vs| && vs[i].realAddr == x
  }

  /** The last version of page x. */
  ghost function Select(vs: seq<Page>, x: int): Page
    requires HasVersion(vs, x)
  {
    if vs[|vs| - 1].realAddr == x then vs[|vs| - 1]
    else
      assert HasVersion(vs[..|vs| - 1], x) by {
        var i :| 0 <= i < |vs| && vs[i].realAddr == x;
        assert vs[..|vs| - 1][i] == vs[i];
      }
      Select(vs[..|vs| - 1], x)
  }

  /** coherent(k): for every page with a version in the generations up to k, its
      home holds the version that a checkout of k selects. */
  ghost predicate Coherent(s: Store, k: int)
    requires Located(s.order, s.mem)
  {
    forall x :: HasVersion(Versions(s, k), x) ==>
      x in s.mem && Logical(s.mem[x], x) == Select(Versions(s, k), x)
  }

  /** Every page with a version in the generations up to k is byte for byte as it
      was in s: header, segment pointers and segments. */
  ghost predicate Restored(s: Store, s': Store, k: int)
    requires Located(s.order, s.mem)
  {
    forall x :: HasVersion(Versions(s, k), x) ==> x in s.mem && x in s'.mem && s'.mem[x] == s.mem[x]
  }

  /** The entry whose version is selected for page x. */
  lemma {:induction false} SelectedEntry(s: Store, n: nat, k: int, x: int) returns (i: int)
    requires Located(s.order, s.mem) && n <= |s.order|
    requires Located(s.order[..n], s.mem) && HasVersion(Hist(s.order[..n], s.mem, k), x)
    ensures 0 <= i < n && s.order[i].gen <= k && Real(s, i) == x
    ensures forall j :: i < j < n && s.order[j].gen <= k ==> Real(s, j) != x
    ensures Held(s.order, s.mem, i) == Select(Hist(s.order[..n], s.mem, k), x)
  {
    var o := s.order[..n];
    assert o[..n - 1] == s.order[..n - 1];
    var h := Hist(o, s.mem, k);
    var h0 := Hist(o[..n - 1], s.mem, k);
    if o[n - 1].gen <= k {
      assert h == h0 + [Held(o, s.mem, n - 1)];
      if Real(s, n - 1) == x {
        i := n - 1;
      } else {
        assert h[..|h| - 1] == h0;
        var q :| 0 <= q < |h| && h[q].realAddr == x;
        assert h0[q].realAddr == x;
        i := SelectedEntry(s, n - 1, k, x);
      }
    } else {
      assert h == h0;
      i := SelectedEntry(s, n - 1, k, x);
    }
  }

  /** When every selected version stands at its real address, the homes hold what
      is selected. */
  lemma StandingIsCoherent(s: Store, k: int)
    requires Located(s.order, s.mem) && StandsHome(s, k)
    ensures Coherent(s, k)
  {
    assert s.order[..|s.order|] == s.order;
    forall x | HasVersion(Versions(s, k), x)
      ensures x in s.mem && Logical(s.mem[x], x) == Select(Versions(s, k), x)
    {
      var i := SelectedEntry(s, |s.order|, k, x);
      assert Selected(s, k, i);
    }
  }

  /** Time travel over arbitrary, also branching, histories. However a run goes on
      from a state s between mutations: when it arrives at a state in which the
      versions selected for k stand home, every page that had a version up to k
      in s is as it was in s exactly if s was coherent for k. */
  lemma TimeTravel(s: Store, ls: seq<Step>, s': Store, k: int)
    requires Inv(s) && Run(s, ls, s') && k <= Frozen(s) && StandsHome'(s', k) && Sealed(ls)
    ensures Restored(s, s', k) <==> Coherent(s, k)
  {
    RunFrozen(s, ls, s', k);
    StandingIsCoherent(s', k);
    var vs := Versions(s, k);
    assert Versions(s', k) == vs;
    forall x | HasVersion(vs, x) && x in s.mem
      ensures s'.mem[x] == s.mem[x] <==> Logical(s.mem[x], x) == Select(vs, x)
    {
      if Logical(s.mem[x], x) == Logical(s'.mem[x], x) { LogicalEqual(s.mem[x], s'.mem[x], x); }
    }
    if Restored(s, s', k) {
      forall x | HasVersion(vs, x) ensures x in s.mem && Logical(s.mem[x], x) == Select(vs, x) {}
    }
    if Coherent(s, k) {
      forall x | HasVersion(vs, x) ensures x in s.mem && x in s'.mem && s'.mem[x] == s.mem[x] {}
    }
  }

  ghost predicate StandsHome'(s: Store, k: int) {
    Located(s.order, s.mem) && StandsHome(s, k)
  }

  // ------------------------------------------------------------------ rollback

  /** The steps that an evaluation can cause. */
  predicate Evaluates(ls: seq<Step>) {
    forall i :: 0 <= i < |ls| ==> ls[i].Trap? || ls[i].Write? || ls[i].Leak? || ls[i].NewPage?
  }

  lemma {:induction false} RunSplit(s: Store, a: seq<Step>, b: seq<Step>, s': Store) returns (m: Store)
    requires Run(s, a + b, s')
    ensures Run(s, a, m) && Run(m, b, s')
    decreases a
  {
    if a == [] {
      assert a + b == b;
      m := s;
    } else {
      assert (a + b)[0] == a[0] && (a + b)[1..] == a[1..] + b;
      var n :| Taken(s, a[0], n) && Run(n, a[1..] + b, s');
      m := RunSplit(n, a[1..], b, s');
    }
  }

  lemma {:induction false} RunJoin(s: Store, a: seq<Step>, m: Store, b: seq<Step>, s': Store)
    requires Run(s, a, m) && Run(m, b, s')
    ensures Run(s, a + b, s')
    decreases a
  {
    if a == [] {
      assert a + b == b;
    } else {
      assert (a + b)[0] == a[0] && (a + b)[1..] == a[1..] + b;
      var n :| Taken(s, a[0], n) && Run(n, a[1..], m);
      RunJoin(n, a[1..], m, b, s');
    }
  }

  lemma RunOne(s: Store, l: Step, s': Store)
    ensures Run(s, [l], s') <==> Taken(s, l, s')
  {
    assert [l][1..] == [];
    if Taken(s, l, s') { assert Run(s', [l][1..], s'); }
  }

  lemma {:induction false} EvaluationHeads(s: Store, ls: seq<Step>, s': Store)
    requires Run(s, ls, s') && Evaluates(ls)
    ensures s'.working == s.working && s'.committed == s.committed && s'.last == s.last
    decreases ls
  {
    if ls != [] {
      var m :| Taken(s, ls[0], m) && Run(m, ls[1..], s');
      EvaluationHeads(m, ls[1..], s');
    }
  }

  /** Exact rollback: a mutation from p, with any evaluation, its commit and the
      checkout of p leave p committed, with what is selected for p at home. If writes
      into committed pages were trapped, every page of the generations up to p is back
      byte for byte exactly if the state was coherent for p. */
  lemma Rollback(s: Store, evaluation: seq<Step>, p: int, swaps: seq<int>, s': Store)
    requires Inv(s) && !Mutating(s) && p == s.committed && Evaluates(evaluation)
    requires Run(s, [Begin] + evaluation + [Commit] + [Checkout(p, swaps)], s')
    ensures Inv(s') && !Mutating(s') && s'.committed == p && StandsHome'(s', p) && Coherent(s', p)
    ensures Sealed(evaluation) ==> (Restored(s, s', p) <==> Coherent(s, p))
  {
    var ls := [Begin] + evaluation + [Commit] + [Checkout(p, swaps)];
    var c := RunSplit(s, [Begin] + evaluation + [Commit], [Checkout(p, swaps)], s');
    var e := RunSplit(s, [Begin] + evaluation, [Commit], c);
    var b := RunSplit(s, [Begin], evaluation, e);
    RunOne(s, Begin, b);
    EvaluationHeads(b, evaluation, e);
    RunOne(e, Commit, c);
    RunOne(c, Checkout(p, swaps), s');
    assert c.committed != p;
    assert Sealed(evaluation) ==> Sealed(ls);
    hide Inv, Taken, Run, Evaluates, Sealed, Coherent, Restored, StandsHome;
    RollbackHeads(s, ls, s', p);
    if Sealed(ls) { TimeTravel(s, ls, s', p); }
    StandingIsCoherent(s', p);
  }

  lemma RollbackHeads(s: Store, ls: seq<Step>, s': Store, p: int)
    requires Inv(s) && !Mutating(s) && p == s.committed && Run(s, ls, s')
    ensures Inv(s') && p <= Frozen(s)
  {
    RunConfined(s, ls, s', p);
  }
}
