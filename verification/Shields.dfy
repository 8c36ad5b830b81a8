/** The read-only set along the runs of the version store, and when the next mutation
    will trap every write into a committed page. */
module Shields {
  import opened Layout
  import opened Maps
  import opened Carving
  import opened Layers
  import opened Pages
  import opened VersionStore
  import opened History
  import opened LinearHistory
  import opened Selection
  import opened Swaps
  import opened Walks
  import opened Guards
  import opened Callbacks

  // ------------------------------------------------------------ beginning a mutation

  /** Byte x will be left writable for the process although snap_begin_mut makes its
      page read-only in the table, when the pages ro are read-only before. */
  ghost predicate Bared(s: Store, ro: set<int>, x: int) {
    Bare(Unshut(s.mem, ro), HomeMaps(s.order, s.mem), x)
  }

  ghost predicate Quiet(s: Store, ro: set<int>) {
    forall x :: !Bared(s, ro, x)
  }

  /** No merge of snap_begin_mut will abort. */
  ghost predicate Completes(s: Store, ro: set<int>) {
    AllFinish(Unshut(s.mem, ro), HomeMaps(s.order, s.mem))
  }

  /** The pages at home have become read-only: no merge aborted, what was left bare
      leaks now, and nothing else does that did not before. */
  ghost predicate Shielded(s: Store, ro: set<int>, was: set<int>, now: set<int>) {
    && Completes(s, ro)
    && (forall x :: Bared(s, ro, x) ==> x in now)
    && (forall x :: x in now ==> x in was || Bared(s, ro, x))
  }

  // ------------------------------------------------------------ along a run

  /** The pages at the locations swaps and their homes. */
  ghost function Opened(mem: map<int, Page>, swaps: seq<int>): set<int> {
    (set x | x in swaps) + (set x | x in swaps :: RealOf(mem)(x))
  }

  /** The read-only pages after a step. */
  ghost function RoAfter(s: Store, ro: set<int>, l: Step): set<int> {
    match l
    case Begin => Homes(s.mem)
    case Trap(a, _, _) => ro - {a}
    case Checkout(_, swaps) => ro - Opened(s.mem, swaps)
    case _ => ro
  }

  /** The store after a step. */
  ghost function Next(s: Store, l: Step): Store {
    match l
    case Begin => s.(working := s.last + 1, last := s.last + 1)
    case Trap(a, copy, j) =>
      if a in s.mem && j <= |s.order| then Adopt(Relocate(s, a, copy), j, a, s.mem[a].(committed := false)) else s
    case Write(a, p) => s.(mem := s.mem[a := p])
    case Leak(a, p) => s.(mem := s.mem[a := p])
    case NewPage(at, n, j) => if j <= |s.order| then Adopt(s, j, at, FreshPage(at, n)) else s
    case Commit => s.(mem := map a | a in s.mem :: s.mem[a].(committed := true), committed := s.working)
    case Checkout(k, swaps) => if k == s.committed then s else SwapsHome(s, swaps).(working := k, committed := k)
  }

  lemma TakenNext(s: Store, l: Step, s': Store)
    requires Taken(s, l, s')
    ensures s' == Next(s, l)
  {
  }

  ghost function RoEnd(s: Store, ro: set<int>, ls: seq<Step>): set<int>
    decreases ls
  {
    if ls == [] then ro else RoEnd(Next(s, ls[0]), RoAfter(s, ro, ls[0]), ls[1..])
  }

  /** Every mutation of the run begins quietly. */
  ghost predicate Quietly(s: Store, ro: set<int>, ls: seq<Step>)
    decreases ls
  {
    ls == [] || ((ls[0].Begin? ==> Quiet(s, ro)) && Quietly(Next(s, ls[0]), RoAfter(s, ro, ls[0]), ls[1..]))
  }

  lemma {:induction false} RoJoin(s: Store, ro: set<int>, a: seq<Step>, m: Store, b: seq<Step>)
    requires VersionStore.Run(s, a, m)
    ensures RoEnd(s, ro, a + b) == RoEnd(m, RoEnd(s, ro, a), b)
    ensures Quietly(s, ro, a + b) <==> Quietly(s, ro, a) && Quietly(m, RoEnd(s, ro, a), b)
    decreases a
  {
    if a == [] {
      assert a + b == b;
    } else {
      assert (a + b)[0] == a[0] && (a + b)[1..] == a[1..] + b;
      var n :| Taken(s, a[0], n) && VersionStore.Run(n, a[1..], m);
      TakenNext(s, a[0], n);
      RoJoin(n, RoAfter(s, ro, a[0]), a[1..], m, b);
    }
  }

  lemma RoOne(s: Store, ro: set<int>, l: Step)
    ensures RoEnd(s, ro, [l]) == RoAfter(s, ro, l)
    ensures Quietly(s, ro, [l]) <==> (l.Begin? ==> Quiet(s, ro))
  {
    assert [l][1..] == [];
  }

  lemma RoNot(s: Store, ro: set<int>)
    ensures RoEnd(s, ro, []) == ro && Quietly(s, ro, [])
  {
  }

  /** During an evaluation the read-only pages stay the committed ones at home. */
  lemma {:induction false} EvaluationRo(s: Store, ls: seq<Step>, s': Store)
    requires Inv(s) && VersionStore.Run(s, ls, s') && Evaluates(ls)
    ensures RoEnd(s, Homes(s.mem), ls) == Homes(s'.mem) && Quietly(s, Homes(s.mem), ls)
    decreases ls
  {
    if ls != [] {
      var m :| Taken(s, ls[0], m) && VersionStore.Run(m, ls[1..], s');
      TakenNext(s, ls[0], m);
      StepKeeps(s, ls[0], m);
      StepRo(s, ls[0], m);
      EvaluationRo(m, ls[1..], s');
    }
  }

  lemma StepRo(s: Store, l: Step, m: Store)
    requires Inv(s) && Taken(s, l, m) && (l.Trap? || l.Write? || l.Leak? || l.NewPage?)
    ensures RoAfter(s, Homes(s.mem), l) == Homes(m.mem)
  {
  }

  // ------------------------------------------------------------ settled heaps

  /** The newest generation has a version of page x. */
  ghost predicate Owns(s: Store, x: int)
    requires Located(s.order, s.mem)
  {
    exists i :: 0 <= i < |s.order| && s.order[i].gen == s.last && Real(s, i) == x
  }

  /** The pages of the newest generation are the last of the tree. */
  predicate Tailed(s: Store) {
    forall i, j :: 0 <= i < j < |s.order| && s.order[i].gen == s.last ==> s.order[j].gen == s.last
  }

  /** The read-only pages are those at home of which the newest generation has no
      version. */
  ghost predicate ShutRest(s: Store, ro: set<int>)
    requires Located(s.order, s.mem)
  {
    && (forall a :: a in ro ==> a in s.mem && s.mem[a].realAddr == a)
    && (forall a :: a in s.mem && s.mem[a].realAddr == a ==> (a in ro <==> !Owns(s, a)))
  }

  /** Between mutations of a linear history: the newest generation or the one before
      it is committed and stands home. */
  ghost predicate Settled(s: Store, ro: set<int>) {
    && Inv(s) && !Mutating(s) && Tailed(s) && TipHome(s) && s.committed >= s.last - 1 && ShutRest(s, ro)
  }

  // ------------------------------------------------------------ a shut prefix and an open suffix

  ghost predicate AllBytes(p: int -> bool, m: Map, w: bool) {
    forall x :: m.Has(x) ==> p(x) == w
  }

  /** The first n maps of the list are read-only in p, the others writable. */
  ghost predicate Split(p: int -> bool, ms: seq<Map>, n: nat) {
    forall i :: 0 <= i < |ms| ==> AllBytes(p, ms[i], i >= n)
  }

  ghost predicate Tidy(p: int -> bool, c: Map) {
    AllBytes(p, c, false) || p(c.End() - 1)
  }

  /** Every coalesced map is read-only or ends writable. */
  lemma {:induction false} SplitTidy(p: int -> bool, ms: seq<Map>, n: nat)
    requires Positive(ms) && Split(p, ms, n)
    ensures forall k :: 0 <= k < |Coalesced(ms)| ==> Tidy(p, Coalesced(ms)[k])
  {
    if ms != [] {
      var front, last := ms[..|ms| - 1], ms[|ms| - 1];
      forall i | 0 <= i < |front| ensures AllBytes(p, front[i], i >= n) { assert front[i] == ms[i]; }
      SplitTidy(p, front, n);
      if front != [] { CoalescedShape(front); }
      var c, d := Coalesced(front), Coalesced(ms);
      assert AllBytes(p, last, |ms| - 1 >= n);
      if |ms| - 1 >= n {
        assert d[|d| - 1].End() == last.End() && last.Has(last.End() - 1);
      } else {
        CoalescedBytes(ms);
        forall k | 0 <= k < |d| ensures AllBytes(p, d[k], false) {
          forall x | d[k].Has(x) ensures !p(x) {
            assert Listed(d, x);
            var i :| 0 <= i < |ms| && ms[i].Has(x);
            assert AllBytes(p, ms[i], i >= n);
          }
        }
      }
    }
  }

  /** No merge of such a list is silent, and none aborts. */
  lemma SplitFinishes(p: int -> bool, ms: seq<Map>, n: nat)
    requires Positive(ms) && Separate(ms) && AllShut(ms) && Split(p, ms, n)
    ensures AllHeard(p, ms) && AllFinish(p, ms)
  {
    var cs := Coalesced(ms);
    SplitTidy(p, ms, n);
    CoalescedBytes(ms);
    CoalescedKind(ms, false);
    if ms != [] { CoalescedShape(ms); }
    forall k: nat | k < |cs| ensures !SilentAt(p, cs, k) && !AbortsAt(p, cs, k) {
      assert Tidy(p, cs[k]) && cs[k].len > 0;
      if AllBytes(p, cs[k], false) {
        forall x | cs[k].Has(x) ensures !Seen(p, cs, k, x) { ShutPaints(cs[..k], x, p(x)); }
        assert cs[k].Has(cs[k].start);
      } else {
        SeenFresh(p, cs, k, cs[k].End() - 1);
      }
    }
  }

  // ------------------------------------------------------------ the homes as a list

  lemma {:induction false} HomesConcat(a: seq<Entry>, b: seq<Entry>, mem: map<int, Page>)
    ensures HomeMaps(a + b, mem) == HomeMaps(a, mem) + HomeMaps(b, mem)
    decreases a
  {
    if a == [] {
      assert a + b == b && [] + HomeMaps(b, mem) == HomeMaps(b, mem);
    } else {
      assert (a + b)[0] == a[0] && (a + b)[1..] == a[1..] + b;
      HomesConcat(a[1..], b, mem);
      var x := HomeMapsOf(mem)(a[0].loc);
      assert x + (HomeMaps(a[1..], mem) + HomeMaps(b, mem)) == x + HomeMaps(a[1..], mem) + HomeMaps(b, mem);
    }
  }

  /** The map nm is that of a committed page at home with an entry in the order. */
  ghost predicate Homely(order: seq<Entry>, mem: map<int, Page>, nm: Map) {
    && nm.start in Homes(mem) && nm == PageMap(mem, nm.start, false)
    && exists i :: 0 <= i < |order| && order[i].loc == nm.start
  }

  lemma {:induction false} HomesAreHomely(order: seq<Entry>, mem: map<int, Page>)
    ensures forall n :: 0 <= n < |HomeMaps(order, mem)| ==> Homely(order, mem, HomeMaps(order, mem)[n])
    decreases order
  {
    if order != [] {
      HomesAreHomely(order[1..], mem);
      var x, rest, ms := HomeMapsOf(mem)(order[0].loc), HomeMaps(order[1..], mem), HomeMaps(order, mem);
      forall n | 0 <= n < |ms| ensures Homely(order, mem, ms[n]) {
        if n >= |x| {
          assert ms[n] == rest[n - |x|];
          var i :| 0 <= i < |order[1..]| && order[1..][i].loc == rest[n - |x|].start;
          assert order[i + 1].loc == ms[n].start;
        } else {
          assert order[0].loc == ms[n].start;
        }
      }
    }
  }

  /** The pages at home are listed once each: their maps share no byte. */
  lemma {:induction false} HomesSeparate(order: seq<Entry>, mem: map<int, Page>, size: int)
    requires Distinct(order) && PagesPlaced(mem, size)
    ensures Separate(HomeMaps(order, mem)) && Positive(HomeMaps(order, mem)) && AllShut(HomeMaps(order, mem))
    decreases order
  {
    HomesAreHomely(order, mem);
    if order != [] {
      HomesSeparate(order[1..], mem, size);
      HomesAreHomely(order[1..], mem);
      var x, rest, ms := HomeMapsOf(mem)(order[0].loc), HomeMaps(order[1..], mem), HomeMaps(order, mem);
      forall i, j, y | 0 <= i < j < |ms| && ms[i].Has(y) ensures !ms[j].Has(y) {
        assert ms[j] == rest[j - |x|] && Homely(order[1..], mem, rest[j - |x|]);
        if i < |x| {
          assert ms[i].start == order[0].loc && ms[j].start != order[0].loc;
          assert Covers(mem, ms[i].start, y);
          if ms[j].Has(y) { OneCover(mem, size, ms[i].start, ms[j].start, y); }
        } else {
          assert ms[i] == rest[i - |x|] && rest[i - |x|].Has(y);
        }
      }
    }
  }

  /** A page that is read-only, or not, is so in all its bytes. */
  lemma PageBytes(mem: map<int, Page>, ro: set<int>, size: int, a: int)
    requires PagesPlaced(mem, size) && a in mem
    ensures AllBytes(Unshut(mem, ro), PageMap(mem, a, false), a !in ro)
  {
    forall x | PageMap(mem, a, false).Has(x) ensures Unshut(mem, ro)(x) == (a !in ro) {
      assert Covers(mem, a, x);
      if b :| b in ro && Covers(mem, b, x) { OneCover(mem, size, a, b, x); }
    }
  }

  /** What stands at the home of a page is the newest generation's version, if it has
      one. */
  lemma OwnedHome(s: Store, i: int, x: int)
    requires Inv(s) && Tailed(s) && TipHome(s) && s.working == s.last
    requires 0 <= i < |s.order| && s.order[i].loc == x && x in s.mem && s.mem[x].realAddr == x
    ensures Owns(s, x) <==> s.order[i].gen == s.last
  {
    if Owns(s, x) {
      var e :| 0 <= e < |s.order| && s.order[e].gen == s.last && Real(s, e) == x;
      forall j | e < j < |s.order| && s.order[j].gen <= s.last ensures Real(s, j) != Real(s, e) {
        assert s.order[j].gen == s.last;
      }
      assert Selected(s, s.last, e);
      assert s.order[e].loc == x && e == i;
    } else {
      assert Real(s, i) == x;
    }
  }

  /** The entries of the newest generation are the last of the order. */
  lemma TailedCut(s: Store) returns (c: nat)
    requires Tailed(s)
    ensures c <= |s.order| && forall i :: 0 <= i < |s.order| ==> (s.order[i].gen == s.last <==> i >= c)
  {
    if i :| 0 <= i < |s.order| && s.order[i].gen == s.last {
      c := i;
      while c > 0 && s.order[c - 1].gen == s.last
        invariant 0 <= c <= i && s.order[c].gen == s.last
      {
        c := c - 1;
      }
    } else {
      c := |s.order|;
    }
  }

  /** A page at home is open exactly if the newest generation has a version of it. */
  lemma SettledAt(s: Store, ro: set<int>, size: int, i: int)
    requires Settled(s, ro) && s.committed == s.last && PagesPlaced(s.mem, size)
    requires 0 <= i < |s.order| && s.order[i].loc in Homes(s.mem)
    ensures AllBytes(Unshut(s.mem, ro), PageMap(s.mem, s.order[i].loc, false), s.order[i].gen == s.last)
  {
    OwnedHome(s, i, s.order[i].loc);
    PageBytes(s.mem, ro, size, s.order[i].loc);
  }

  lemma SettledSplits(s: Store, ro: set<int>, size: int) returns (n: nat)
    requires Settled(s, ro) && s.committed == s.last && PagesPlaced(s.mem, size)
    ensures Split(Unshut(s.mem, ro), HomeMaps(s.order, s.mem), n)
  {
    hide Settled, PagesPlaced, AllBytes, Unshut, Homes, HomeMaps;
    var c := SettledCut(s, ro);
    var front, back := s.order[..c], s.order[c..];
    var ms, p := HomeMaps(s.order, s.mem), Unshut(s.mem, ro);
    assert s.order == front + back;
    HomesConcat(front, back, s.mem);
    HomesAreHomely(front, s.mem);
    HomesAreHomely(back, s.mem);
    n := |HomeMaps(front, s.mem)|;
    forall i | 0 <= i < |ms| ensures AllBytes(p, ms[i], i >= n) {
      var part, k := if i < n then front else back, if i < n then i else i - n;
      assert ms[i] == HomeMaps(part, s.mem)[k] && Homely(part, s.mem, ms[i]);
      var e :| 0 <= e < |part| && part[e].loc == ms[i].start;
      SettledAt(s, ro, size, if i < n then e else c + e);
    }
  }

  lemma SettledCut(s: Store, ro: set<int>) returns (c: nat)
    requires Settled(s, ro)
    ensures c <= |s.order| && forall i :: 0 <= i < |s.order| ==> (s.order[i].gen == s.last <==> i >= c)
  {
    c := TailedCut(s);
  }

  /** In a settled heap the next mutation begins without a silent merge, and no merge
      aborts. */
  lemma SettledQuiet(s: Store, ro: set<int>, size: int)
    requires Settled(s, ro) && s.committed == s.last && PagesPlaced(s.mem, size)
    ensures Quiet(s, ro) && Completes(s, ro)
  {
    var n := SettledSplits(s, ro, size);
    HomesSeparate(s.order, s.mem, size);
    SplitFinishes(Unshut(s.mem, ro), HomeMaps(s.order, s.mem), n);
    HeardBare(Unshut(s.mem, ro), HomeMaps(s.order, s.mem));
  }

  // ------------------------------------------------------------ staying settled

  /** The locations that snap_checkout swaps home for k. */
  ghost function SwapsTo(s: Store, k: int): seq<int> {
    if k == s.committed then [] else Away(s.mem, Fold(s.order, k, Picker(RealOf(s.mem)), []))
  }

  lemma {:induction false} AwayIn(mem: map<int, Page>, sel: seq<int>, x: int)
    ensures x in Away(mem, sel) <==> x in sel && RealOf(mem)(x) != x
  {
    if sel != [] {
      AwayIn(mem, sel[..|sel| - 1], x);
      assert sel == sel[..|sel| - 1] + [sel[|sel| - 1]];
    }
  }

  /** Going to the newest generation, or to the one before it, only pages move of which
      the newest has a version. */
  lemma SettledAway(s: Store, ro: set<int>, k: int, x: int)
    requires Settled(s, ro) && s.last - 1 <= k <= s.last && x in SwapsTo(s, k)
    ensures x !in ro && RealOf(s.mem)(x) !in ro
  {
    var home, sel := RealOf(s.mem), Fold(s.order, k, Picker(RealOf(s.mem)), []);
    assert s.order[..|s.order|] == s.order;
    SelectionExact(s.order, home, |s.order|, k);
    AwayIn(s.mem, sel, x);
    var n :| 0 <= n < |sel| && sel[n] == x;
    assert Stands(s.order, home, |s.order|, k, sel[n]);
    var e :| LastAmong(s.order, home, |s.order|, k, e) && s.order[e].loc == x;
    assert HomedAt(s.mem, x);
    var r := Real(s, e);
    assert r == home(x);
    if !Owns(s, r) {
      forall j | e < j < |s.order| && s.order[j].gen <= s.committed ensures Real(s, j) != r {
        assert s.order[j].gen <= s.last;
        if s.order[j].gen <= k { assert home(s.order[j].loc) == Real(s, j); }
      }
      assert Selected(s, s.committed, e);
    }
  }

  lemma SettledCheckout(s: Store, ro: set<int>, k: int, s': Store)
    requires Settled(s, ro) && s.last - 1 <= k && Taken(s, Checkout(k, SwapsTo(s, k)), s')
    ensures RoAfter(s, ro, Checkout(k, SwapsTo(s, k))) == ro && Settled(s', ro) && s'.last == s.last && s'.committed == k
  {
    hide Settled, SwapsTo;
    forall x | x in SwapsTo(s, k) ensures x !in ro && RealOf(s.mem)(x) !in ro { SettledAway(s, ro, k, x); }
    assert Opened(s.mem, SwapsTo(s, k)) !! ro;
    CheckoutStays(s, ro, k, SwapsTo(s, k), s');
  }

  lemma CheckoutStays(s: Store, ro: set<int>, k: int, swaps: seq<int>, s': Store)
    requires Settled(s, ro) && s.last - 1 <= k && Taken(s, Checkout(k, swaps), s')
    ensures Settled(s', ro) && s'.last == s.last && s'.committed == k
  {
    hide SwapsHome, AllTiled, StandsHome;
    StepKeeps(s, Checkout(k, swaps), s');
    CheckoutTip(s, k, swaps, s');
    SwapsHomeKeep(s, swaps);
    assert |s'.order| == |s.order| && forall i :: 0 <= i < |s.order| ==> s'.order[i].gen == s.order[i].gen && Real(s', i) == Real(s, i);
    forall x ensures Owns(s', x) <==> Owns(s, x) {
      if i :| 0 <= i < |s.order| && s.order[i].gen == s.last && Real(s, i) == x { assert Real(s', i) == x; }
      if i :| 0 <= i < |s.order| && s'.order[i].gen == s.last && Real(s', i) == x { assert Real(s, i) == x; }
    }
  }

  /** Every page is an entry of the order. */
  ghost predicate Entered(s: Store) {
    forall a :: a in s.mem ==> exists i :: 0 <= i < |s.order| && s.order[i].loc == a
  }

  /** During a mutation the committed pages at home are those of which the working
      generation has no version. */
  lemma BarrierRest(s: Store)
    requires Inv(s) && Mutating(s) && Entered(s)
    ensures ShutRest(s, Homes(s.mem))
  {
    forall a | a in s.mem && s.mem[a].realAddr == a ensures s.mem[a].committed <==> !Owns(s, a) {
      var i :| 0 <= i < |s.order| && s.order[i].loc == a;
      assert Real(s, i) == a;
    }
  }

  lemma CommitRest(s: Store, s': Store)
    requires Inv(s) && Taken(s, Commit, s') && ShutRest(s, Homes(s.mem))
    ensures Located(s'.order, s'.mem) && ShutRest(s', Homes(s.mem))
  {
    hide Homed, AllTiled, OnePerGeneration, Bits, WorkingAtHome, Homes;
    forall i | 0 <= i < |s.order| ensures Real(s', i) == Real(s, i) {}
    forall x ensures Owns(s', x) <==> Owns(s, x) {
      if i :| 0 <= i < |s.order| && s.order[i].gen == s.last && Real(s, i) == x { assert Real(s', i) == x; }
      if i :| 0 <= i < |s.order| && s'.order[i].gen == s.last && Real(s', i) == x { assert Real(s, i) == x; }
    }
  }

  /** After a commit on a linear history the heap is settled. */
  lemma CommitSettles(s: Store, s': Store)
    requires Inv(s) && Tailed(s) && TipHome(s) && Entered(s') && Taken(s, Commit, s')
    ensures Settled(s', Homes(s.mem)) && s'.committed == s'.last == s.last
  {
    hide TipHome, AllTiled, Homed, ShutRest, Homes;
    assert Entered(s) by {
      forall a | a in s.mem ensures exists i :: 0 <= i < |s.order| && s.order[i].loc == a { assert a in s'.mem; }
    }
    BarrierRest(s);
    CommitKeeps(s, s');
    CommitTip(s, s');
    CommitRest(s, s');
  }

  lemma StepTailed(s: Store, l: Step, s': Store)
    requires Inv(s) && Tailed(s) && Taken(s, l, s') && Extends(s, l)
    ensures Tailed(s')
  {
    hide Tiled, SwapsHome;
    if l.Checkout? { SwapsHomeKeep(s, l.swaps); }
  }

  lemma {:induction false} RunTailed(s: Store, ls: seq<Step>, s': Store)
    requires Inv(s) && Tailed(s) && LinearRun(s, ls, s')
    ensures Tailed(s')
    decreases ls
  {
    if ls != [] {
      var m :| Taken(s, ls[0], m) && Extends(s, ls[0]) && LinearRun(m, ls[1..], s');
      StepTailed(s, ls[0], m);
      StepKeeps(s, ls[0], m);
      RunTailed(m, ls[1..], s');
    }
  }

  // ------------------------------------------------------------ transactions

  /** A mutation, an evaluation and its commit. */
  ghost function Worked(evaluation: seq<Step>): seq<Step> { [Begin] + evaluation + [Commit] }

  /** Every write that was not trapped hit a page with a byte that leaked before, or
      that is left bare when a mutation begins in s. */
  ghost predicate LeaksFrom(ls: seq<Step>, s: Store, ro: set<int>, was: set<int>) {
    forall i :: 0 <= i < |ls| ==> LeakFrom(ls[i], s, ro, was)
  }

  ghost predicate LeakFrom(l: Step, s: Store, ro: set<int>, was: set<int>) {
    l.Leak? ==> exists x :: l.a <= x < l.a + Bytes(l.p.pages) && (x in was || Bared(s, ro, x))
  }

  lemma QuietSealed(ls: seq<Step>, s: Store, ro: set<int>)
    requires LeaksFrom(ls, s, ro, {}) && Quiet(s, ro)
    ensures Sealed(ls)
  {
    forall i | 0 <= i < |ls| ensures !ls[i].Leak? { assert LeakFrom(ls[i], s, ro, {}); }
  }

  /** What leaks along a run: nothing, if nothing leaked before it and every mutation of
      it begins quietly. */
  ghost predicate Calm(s: Store, ro: set<int>, was: set<int>, ls: seq<Step>, now: set<int>) {
    was == {} && Quietly(s, ro, ls) ==> Sealed(ls) && now == {}
  }

  /** The transaction ls, which begins one mutation in s, has left the pages ro'
      read-only, and the bytes now leak. */
  ghost predicate Watched(s: Store, ro: set<int>, was: set<int>, ls: seq<Step>, ro': set<int>, now: set<int>) {
    && ro' == RoEnd(s, ro, ls) && (Quietly(s, ro, ls) <==> Quiet(s, ro))
    && LeaksFrom(ls, s, ro, was) && Calm(s, ro, was, ls, now)
  }

  lemma CalmNot(s: Store, ro: set<int>, was: set<int>, ls: seq<Step>, now: set<int>)
    requires Sealed(ls) && now <= was
    ensures Calm(s, ro, was, ls, now)
  {
  }

  lemma CalmThen(s: Store, ro: set<int>, was: set<int>, a: seq<Step>, m: Store, mid: set<int>, b: seq<Step>, now: set<int>)
    requires VersionStore.Run(s, a, m) && Calm(s, ro, was, a, mid) && Calm(m, RoEnd(s, ro, a), mid, b, now)
    ensures Calm(s, ro, was, a + b, now)
  {
    hide RoEnd, Quietly;
    RoJoin(s, ro, a, m, b);
  }

  /** What is read-only after a transaction, and whether it begins quietly. */
  lemma WorkRo(s: Store, ro: set<int>, s1: Store, evaluation: seq<Step>, s2: Store, s3: Store)
    requires Inv(s) && Taken(s, Begin, s1) && VersionStore.Run(s1, evaluation, s2) && Evaluates(evaluation) && Taken(s2, Commit, s3)
    ensures RoEnd(s, ro, Worked(evaluation)) == Homes(s2.mem)
    ensures Quietly(s, ro, Worked(evaluation)) <==> Quiet(s, ro)
  {
    hide Inv, Quiet, Homes;
    StepKeeps(s, Begin, s1);
    assert s1.mem == s.mem;
    EvaluationRo(s1, evaluation, s2);
    RunOne(s, Begin, s1);
    RunOne(s2, Commit, s3);
    RoOne(s, ro, Begin);
    RoOne(s2, Homes(s2.mem), Commit);
    RoJoin(s, ro, [Begin], s1, evaluation);
    RunJoin(s, [Begin], s1, evaluation, s2);
    RoJoin(s, ro, [Begin] + evaluation, s2, [Commit]);
  }

  lemma {:induction false} LinearSplit(s: Store, a: seq<Step>, b: seq<Step>, s': Store) returns (m: Store)
    requires LinearRun(s, a + b, s')
    ensures LinearRun(s, a, m) && LinearRun(m, b, s')
    decreases a
  {
    if a == [] {
      assert a + b == b;
      m := s;
    } else {
      assert (a + b)[0] == a[0] && (a + b)[1..] == a[1..] + b;
      var n :| Taken(s, a[0], n) && Extends(s, a[0]) && LinearRun(n, a[1..] + b, s');
      m := LinearSplit(n, a[1..], b, s');
    }
  }

  lemma LinearStep(s: Store, l: Step, s': Store)
    requires LinearRun(s, [l], s')
    ensures Taken(s, l, s')
  {
    assert [l][1..] == [];
  }

  /** A transaction that begins at the newest generation of a settled heap leaves it
      settled, with its own generation as the newest. */
  lemma WorkSettles(s: Store, ro: set<int>, evaluation: seq<Step>, s3: Store)
    requires Settled(s, ro) && LinearRun(s, Worked(evaluation), s3) && Evaluates(evaluation) && Entered(s3)
    ensures Settled(s3, RoEnd(s, ro, Worked(evaluation))) && s3.committed == s3.last
  {
    hide Inv, TipHome, Homes, Tailed, ShutRest;
    var s2 := LinearSplit(s, [Begin] + evaluation, [Commit], s3);
    var s1 := LinearSplit(s, [Begin], evaluation, s2);
    LinearStep(s, Begin, s1);
    LinearStep(s2, Commit, s3);
    LinearRunKeeps(s, [Begin] + evaluation, s2);
    RunTailed(s, [Begin] + evaluation, s2);
    LinearIsRun(s1, evaluation, s2);
    WorkRo(s, ro, s1, evaluation, s2, s3);
    CommitSettles(s2, s3);
  }

  /** Such a transaction begins quietly, and no merge aborts. */
  lemma WorkQuietly(s: Store, ro: set<int>, evaluation: seq<Step>, s3: Store, size: int)
    requires Settled(s, ro) && s.committed == s.last && PagesPlaced(s.mem, size)
    requires LinearRun(s, Worked(evaluation), s3) && Evaluates(evaluation)
    ensures Quietly(s, ro, Worked(evaluation)) && Completes(s, ro)
  {
    hide Inv, TipHome, Homes, Tailed, ShutRest, Quiet, Completes, Quietly;
    var s2 := LinearSplit(s, [Begin] + evaluation, [Commit], s3);
    var s1 := LinearSplit(s, [Begin], evaluation, s2);
    LinearStep(s, Begin, s1);
    LinearStep(s2, Commit, s3);
    LinearIsRun(s1, evaluation, s2);
    WorkRo(s, ro, s1, evaluation, s2, s3);
    SettledQuiet(s, ro, size);
  }

  /** The checkout that the loop of snap_checkout makes is possible. */
  lemma CheckoutTaken(s: Store, k: int)
    requires Inv(s) && !Mutating(s) && k <= s.last && k != s.committed
    ensures Taken(s, Checkout(k, SwapsTo(s, k)), SwapsHome(s, SwapsTo(s, k)).(working := k, committed := k))
  {
    assert s.order[..|s.order|] == s.order;
    SelectionExact(s.order, RealOf(s.mem), |s.order|, k);
    SwapsCheckOut(s, k, Fold(s.order, k, Picker(RealOf(s.mem)), []));
  }
}
