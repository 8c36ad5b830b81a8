/** walk_nodes with its callbacks: what each walk over a tree computes. A
    callback takes the address of a node and the walk's state, and answers with
    an action and the new state. */
module Walks {
  import opened Layout
  import opened VersionStore
  import opened Trees
  import opened Forest

  datatype Action = Continue | Exit | Skip

  datatype Option<+T> = None | Some(value: T)

  ghost function Walk<S>(t: Node, f: (int, S) -> (Action, S), s: S): (Action, S)
    decreases t, 1
  {
    var (a, s1) := f(t.at, s);
    if a != Continue then (a, s1)
    else if t.Gen? then WalkAll(t.kids, f, s1)
    else (Continue, s1)
  }

  ghost function WalkAll<S>(ks: seq<Node>, f: (int, S) -> (Action, S), s: S): (Action, S)
    decreases ks, 0
  {
    if ks == [] then (Continue, s)
    else
      var (a, s1) := Walk(ks[0], f, s);
      if a == Exit then (Exit, s1) else WalkAll(ks[1..], f, s1)
  }

  // ---------------------------------------------------------------- searching

  /** A callback that stops at the first node for which p gives a result. */
  function Finder<R>(p: int -> Option<R>): (int, Option<R>) -> (Action, Option<R>) {
    (n: int, s: Option<R>) => match p(n) case Some(r) => (Exit, Some(r)) case None => (Continue, s)
  }

  /** The result at the first node of a preorder that has one. */
  ghost function FirstHit<R>(items: seq<Item>, p: int -> Option<R>): Option<R>
    decreases items
  {
    if items == [] then None
    else if p(items[0].at).Some? then p(items[0].at)
    else FirstHit(items[1..], p)
  }

  lemma {:induction false} FirstHitConcat<R>(a: seq<Item>, b: seq<Item>, p: int -> Option<R>)
    ensures FirstHit(a + b, p) == if FirstHit(a, p).Some? then FirstHit(a, p) else FirstHit(b, p)
    decreases a
  {
    if a == [] {
      assert a + b == b;
    } else {
      assert (a + b)[1..] == a[1..] + b;
      FirstHitConcat(a[1..], b, p);
    }
  }

  /** A searching walk finds the first hit of the preorder. */
  lemma {:induction false} WalkFinds<R>(t: Node, id: int, p: int -> Option<R>, s: Option<R>)
    ensures var h := FirstHit(Items(t, id), p);
            Walk(t, Finder(p), s) == if h.Some? then (Exit, h) else (Continue, s)
    decreases t, 1
  {
    if t.Gen? {
      WalkFindsAll(t.kids, t.id, p, s);
      FirstHitConcat([GenItem(t.at, t.id)], ItemsAll(t.kids, t.id), p);
      assert [GenItem(t.at, t.id)][1..] == [];
    }
  }

  lemma {:induction false} WalkFindsAll<R>(ks: seq<Node>, id: int, p: int -> Option<R>, s: Option<R>)
    ensures var h := FirstHit(ItemsAll(ks, id), p);
            WalkAll(ks, Finder(p), s) == if h.Some? then (Exit, h) else (Continue, s)
    decreases ks, 0
  {
    if ks != [] {
      WalkFinds(ks[0], id, p, s);
      WalkFindsAll(ks[1..], id, p, s);
      FirstHitConcat(Items(ks[0], id), ItemsAll(ks[1..], id), p);
    }
  }

  /** Where a first hit stands. */
  lemma {:induction false} HitAt<R>(items: seq<Item>, p: int -> Option<R>) returns (i: int)
    requires FirstHit(items, p).Some?
    ensures 0 <= i < |items| && p(items[i].at) == FirstHit(items, p)
    ensures forall j :: 0 <= j < i ==> p(items[j].at).None?
    decreases items
  {
    if p(items[0].at).Some? {
      i := 0;
    } else {
      i := HitAt(items[1..], p);
      i := i + 1;
    }
  }

  lemma {:induction false} NoHit<R>(items: seq<Item>, p: int -> Option<R>)
    requires FirstHit(items, p).None?
    ensures forall j :: 0 <= j < |items| ==> p(items[j].at).None?
    decreases items
  {
    if items != [] { NoHit(items[1..], p); }
  }

  lemma SomeHit<R>(items: seq<Item>, p: int -> Option<R>, i: int)
    requires 0 <= i < |items| && p(items[i].at).Some?
    ensures FirstHit(items, p).Some?
  {
    if FirstHit(items, p).None? { NoHit(items, p); }
  }

  // ---------------------------------------------------------------- collecting

  /** A callback that lists what g gives for every node. */
  function Gatherer<T>(g: int -> seq<T>): (int, seq<T>) -> (Action, seq<T>) {
    (n: int, s: seq<T>) => (Continue, s + g(n))
  }

  ghost function Gather<T>(items: seq<Item>, g: int -> seq<T>): seq<T>
    decreases items
  {
    if items == [] then [] else g(items[0].at) + Gather(items[1..], g)
  }

  lemma {:induction false} GatherConcat<T>(a: seq<Item>, b: seq<Item>, g: int -> seq<T>)
    ensures Gather(a + b, g) == Gather(a, g) + Gather(b, g)
    decreases a
  {
    if a == [] {
      assert a + b == b;
    } else {
      assert (a + b)[1..] == a[1..] + b;
      GatherConcat(a[1..], b, g);
    }
  }

  lemma {:induction false} WalkGathers<T>(t: Node, id: int, g: int -> seq<T>, s: seq<T>)
    ensures Walk(t, Gatherer(g), s) == (Continue, s + Gather(Items(t, id), g))
    decreases t, 1
  {
    if t.Gen? {
      WalkGathersAll(t.kids, t.id, g, s + g(t.at));
      var x, below := [GenItem(t.at, t.id)], ItemsAll(t.kids, t.id);
      GatherConcat(x, below, g);
      assert x[1..] == [] && Gather(x, g) == g(t.at) + [];
      assert s + g(t.at) + Gather(below, g) == s + (Gather(x, g) + Gather(below, g));
    } else {
      var x := [PageItem(t.at, id)];
      assert x[1..] == [] && Gather(x, g) == g(t.at) + [];
      assert s + g(t.at) == s + Gather(x, g);
    }
  }

  lemma {:induction false} WalkGathersAll<T>(ks: seq<Node>, id: int, g: int -> seq<T>, s: seq<T>)
    ensures WalkAll(ks, Gatherer(g), s) == (Continue, s + Gather(ItemsAll(ks, id), g))
    decreases ks, 0
  {
    if ks != [] {
      WalkGathers(ks[0], id, g, s);
      WalkGathersAll(ks[1..], id, g, s + Gather(Items(ks[0], id), g));
      var x, y := Items(ks[0], id), ItemsAll(ks[1..], id);
      GatherConcat(x, y, g);
      assert s + Gather(x, g) + Gather(y, g) == s + (Gather(x, g) + Gather(y, g));
    } else {
      assert s + [] == s;
    }
  }

  lemma {:induction false} Gathered<T>(items: seq<Item>, g: int -> seq<T>, x: T)
    ensures x in Gather(items, g) <==> exists i :: 0 <= i < |items| && x in g(items[i].at)
    decreases items
  {
    if items != [] {
      Gathered(items[1..], g, x);
      if x in Gather(items, g) && x !in g(items[0].at) {
        var i :| 0 <= i < |items[1..]| && x in g(items[1..][i].at);
        assert x in g(items[i + 1].at);
      }
      if i :| 0 <= i < |items| && x in g(items[i].at) {
        if i > 0 { assert items[i] == items[1..][i - 1]; }
      }
    }
  }

  // ---------------------------------------------------------------- selecting

  /** The version of its page that a location holds, by the page's real address. */
  function Position(sel: seq<int>, home: int -> int, loc: int, i: nat): (r: nat)
    requires i <= |sel|
    ensures i <= r <= |sel|
    ensures r < |sel| ==> home(sel[r]) == home(loc)
    ensures forall k :: i <= k < r ==> home(sel[k]) != home(loc)
    decreases |sel| - i
  {
    if i == |sel| || home(sel[i]) == home(loc) then i else Position(sel, home, loc, i + 1)
  }

  /** pages_up_to_gen at a page, second pass: a later version takes the place of an
      earlier one of the same page. */
  function Pick(sel: seq<int>, home: int -> int, loc: int): seq<int> {
    var i := Position(sel, home, loc, 0);
    if i < |sel| then sel[i := loc] else sel + [loc]
  }

  /** pages_up_to_gen: generations above k are skipped with all below them. */
  function Selector<S>(above: int -> bool, isGen: int -> bool, take: (S, int) -> S): (int, S) -> (Action, S) {
    (n: int, s: S) => if isGen(n) then (if above(n) then Skip else Continue, s) else (Continue, take(s, n))
  }

  ghost function Fold<S>(order: seq<Entry>, k: int, take: (S, int) -> S, s: S): S
    decreases order
  {
    if order == [] then s
    else Fold(order[1..], k, take, if order[0].gen <= k then take(s, order[0].loc) else s)
  }

  lemma {:induction false} FoldConcat<S>(a: seq<Entry>, b: seq<Entry>, k: int, take: (S, int) -> S, s: S)
    ensures Fold(a + b, k, take, s) == Fold(b, k, take, Fold(a, k, take, s))
    decreases a
  {
    if a == [] {
      assert a + b == b;
    } else {
      assert (a + b)[0] == a[0] && (a + b)[1..] == a[1..] + b;
      FoldConcat(a[1..], b, k, take, if a[0].gen <= k then take(s, a[0].loc) else s);
    }
  }

  lemma {:induction false} FoldNothing<S>(order: seq<Entry>, k: int, take: (S, int) -> S, s: S)
    requires forall i :: 0 <= i < |order| ==> order[i].gen > k
    ensures Fold(order, k, take, s) == s
    decreases order
  {
    if order != [] { FoldNothing(order[1..], k, take, s); }
  }

  lemma {:induction false} PagesHaveIds(items: seq<Item>, k: int)
    requires forall i :: 0 <= i < |items| ==> items[i].id > k
    ensures forall i :: 0 <= i < |PagesOf(items)| ==> PagesOf(items)[i].gen > k
    decreases items
  {
    if items != [] { PagesHaveIds(items[1..], k); }
  }

  ghost predicate Knows(t: Node, above: int -> bool, isGen: int -> bool, k: int)
    decreases t, 1
  {
    && isGen(t.at) == t.Gen?
    && (t.Gen? ==> (above(t.at) <==> t.id > k) && KnowsAll(t.kids, above, isGen, k))
  }

  ghost predicate KnowsAll(ks: seq<Node>, above: int -> bool, isGen: int -> bool, k: int)
    decreases ks, 0
  {
    ks == [] || (Knows(ks[0], above, isGen, k) && KnowsAll(ks[1..], above, isGen, k))
  }

  /** Because ids never decrease along a path, skipping a generation skips exactly
      pages of generations above k: the walk takes the pages of the generations up
      to k, in tree order. */
  lemma {:induction false} WalkSelects<S>(t: Node, id: int, k: int, above: int -> bool, isGen: int -> bool, take: (S, int) -> S, s: S)
    requires Sound(t) && Knows(t, above, isGen, k) && (t.Leaf? ==> id <= k)
    ensures var w := Walk(t, Selector(above, isGen, take), s);
            w.0 != Exit && w.1 == Fold(PagesOf(Items(t, id)), k, take, s)
    decreases t, 1
  {
    if t.Leaf? {
      assert [PageItem(t.at, id)][1..] == [] && [Entry(id, t.at)][1..] == [];
      assert PagesOf(Items(t, id)) == [Entry(id, t.at)];
    } else {
      var x := [GenItem(t.at, t.id)];
      PagesConcat(x, ItemsAll(t.kids, t.id));
      assert x[1..] == [] && PagesOf(x) == [];
      assert PagesOf(Items(t, id)) == PagesOf(ItemsAll(t.kids, t.id));
      if t.id > k {
        IdsBelow(t, id);
        PagesHaveIds(Items(t, id), k);
        FoldNothing(PagesOf(Items(t, id)), k, take, s);
      } else {
        WalkSelectsAll(t.kids, t.id, k, above, isGen, take, s);
      }
    }
  }

  lemma {:induction false} WalkSelectsAll<S>(ks: seq<Node>, id: int, k: int, above: int -> bool, isGen: int -> bool,
                                             take: (S, int) -> S, s: S)
    requires SoundAll(ks, id) && KnowsAll(ks, above, isGen, k) && id <= k
    ensures WalkAll(ks, Selector(above, isGen, take), s) == (Continue, Fold(PagesOf(ItemsAll(ks, id)), k, take, s))
    decreases ks, 0
  {
    if ks != [] {
      WalkSelects(ks[0], id, k, above, isGen, take, s);
      PagesConcat(Items(ks[0], id), ItemsAll(ks[1..], id));
      FoldConcat(PagesOf(Items(ks[0], id)), PagesOf(ItemsAll(ks[1..], id)), k, take, s);
      WalkSelectsAll(ks[1..], id, k, above, isGen, take, Fold(PagesOf(Items(ks[0], id)), k, take, s));
    }
  }
}
