/** Generations as they lie in memory, with child slots that hold addresses, and
    the tree they stand for. */
module Pointers {
  import opened Layout
  import opened VersionStore
  import opened Trees

  datatype Generation = Generation(committed: bool, gen: int, c: seq<int>)

  function EmptySlots(): (c: seq<int>)
    ensures |c| == GENERATION_CHILDREN && forall i :: 0 <= i < |c| ==> c[i] == NULL
  {
    seq(GENERATION_CHILDREN, i => NULL)
  }

  /** The slots are a filled prefix that points to the nodes in order. */
  ghost predicate SlotsOf(c: seq<int>, ks: seq<Node>) {
    && |c| == GENERATION_CHILDREN && |ks| <= |c|
    && (forall i :: 0 <= i < |ks| ==> c[i] == ks[i].at && c[i] != NULL)
    && (forall i :: |ks| <= i < |c| ==> c[i] == NULL)
  }

  /** The pointer structure at t.at is the tree t. */
  ghost predicate Rep(gens: map<int, Generation>, pages: set<int>, t: Node)
    decreases t, 1
  {
    match t
    case Leaf(a) => a in pages && a !in gens && a != NULL
    case Gen(a, id, kids) =>
      && a in gens && a !in pages && a != NULL
      && gens[a].gen == id && SlotsOf(gens[a].c, kids) && RepAll(gens, pages, kids)
  }

  ghost predicate RepAll(gens: map<int, Generation>, pages: set<int>, ks: seq<Node>)
    decreases ks, 0
  {
    ks == [] || (Rep(gens, pages, ks[0]) && RepAll(gens, pages, ks[1..]))
  }

  lemma {:induction false} RepKid(gens: map<int, Generation>, pages: set<int>, ks: seq<Node>, i: nat)
    requires RepAll(gens, pages, ks) && i < |ks|
    ensures Rep(gens, pages, ks[i])
    decreases ks
  {
    if i > 0 { RepKid(gens, pages, ks[1..], i - 1); }
  }

  lemma {:induction false} RepConcat(gens: map<int, Generation>, pages: set<int>, a: seq<Node>, k: Node)
    requires RepAll(gens, pages, a) && Rep(gens, pages, k)
    ensures RepAll(gens, pages, a + [k])
    decreases a
  {
    if a == [] {
      assert a + [k] == [k] && [k][1..] == [];
    } else {
      assert (a + [k])[0] == a[0] && (a + [k])[1..] == a[1..] + [k];
      RepConcat(gens, pages, a[1..], k);
    }
  }

  lemma {:induction false} RepSets(gens: map<int, Generation>, pages: set<int>, t: Node)
    requires Rep(gens, pages, t)
    ensures Gens(t) <= gens.Keys && Nodes(t) <= gens.Keys + pages
    ensures forall n :: n in Nodes(t) ==> (n in gens <==> n in Gens(t)) && n != NULL
    decreases t, 1
  {
    if t.Gen? { RepSetsAll(gens, pages, t.kids); }
  }

  lemma {:induction false} RepSetsAll(gens: map<int, Generation>, pages: set<int>, ks: seq<Node>)
    requires RepAll(gens, pages, ks)
    ensures GensAll(ks) <= gens.Keys && NodesAll(ks) <= gens.Keys + pages
    ensures forall n :: n in NodesAll(ks) ==> (n in gens <==> n in GensAll(ks)) && n != NULL
    decreases ks, 0
  {
    if ks != [] {
      RepSets(gens, pages, ks[0]);
      RepSetsAll(gens, pages, ks[1..]);
      GensAreNodes(ks[0]);
      GensAreNodesAll(ks[1..]);
    }
  }

  /** Memory is the same at the given addresses, commit bits aside. */
  ghost predicate SameAt(gens: map<int, Generation>, pages: set<int>, gens': map<int, Generation>, pages': set<int>, ns: set<int>) {
    forall n :: n in ns ==>
      && (n in gens' <==> n in gens) && (n in pages' <==> n in pages)
      && (n in gens ==> gens'[n].gen == gens[n].gen && gens'[n].c == gens[n].c)
  }

  lemma SlotsPush(c: seq<int>, ks: seq<Node>, k: Node)
    requires SlotsOf(c, ks) && |ks| < GENERATION_CHILDREN && k.at != NULL
    ensures SlotsOf(c[|ks| := k.at], ks + [k])
  {
  }

  lemma SlotsOne(k: Node)
    requires k.at != NULL
    ensures SlotsOf(EmptySlots()[0 := k.at], [k])
  {
  }

  lemma RepNotNull(gens: map<int, Generation>, pages: set<int>, t: Node)
    requires Rep(gens, pages, t)
    ensures t.at != NULL && (t.Gen? ==> t.at in gens && gens[t.at].gen == t.id && SlotsOf(gens[t.at].c, t.kids) && RepAll(gens, pages, t.kids))
  {
  }

  /** What lies outside the nodes of a tree does not matter to it. */
  lemma {:induction false} RepFrame(gens: map<int, Generation>, pages: set<int>, gens': map<int, Generation>, pages': set<int>, t: Node)
    requires Rep(gens, pages, t)
    requires SameAt(gens, pages, gens', pages', Nodes(t))
    ensures Rep(gens', pages', t)
    decreases t, 1
  {
    if t.Gen? { RepFrameAll(gens, pages, gens', pages', t.kids); }
  }

  lemma {:induction false} RepFrameAll(gens: map<int, Generation>, pages: set<int>, gens': map<int, Generation>,
                                       pages': set<int>, ks: seq<Node>)
    requires RepAll(gens, pages, ks)
    requires SameAt(gens, pages, gens', pages', NodesAll(ks))
    ensures RepAll(gens', pages', ks)
    decreases ks, 0
  {
    if ks != [] {
      RepFrame(gens, pages, gens', pages', ks[0]);
      RepFrameAll(gens, pages, gens', pages', ks[1..]);
    }
  }

  lemma {:induction false} RepSub(gens: map<int, Generation>, pages: set<int>, t: Node, g: int)
    requires Rep(gens, pages, t) && g in Gens(t)
    ensures Rep(gens, pages, Sub(t, g))
    decreases t, 1
  {
    if t.at != g { RepSubAll(gens, pages, t.kids, g); }
  }

  lemma {:induction false} RepSubAll(gens: map<int, Generation>, pages: set<int>, ks: seq<Node>, g: int)
    requires RepAll(gens, pages, ks) && g in GensAll(ks)
    ensures Rep(gens, pages, SubAll(ks, g))
    decreases ks, 0
  {
    if g in Gens(ks[0]) { RepSub(gens, pages, ks[0], g); } else { RepSubAll(gens, pages, ks[1..], g); }
  }

  /** Writing the slots of one generation changes the tree by SetKids. */
  lemma {:induction false} RepSet(gens: map<int, Generation>, pages: set<int>, gens': map<int, Generation>, pages': set<int>,
                                  t: Node, g: int, ks: seq<Node>)
    requires Rep(gens, pages, t) && Uniq(t) && g in Gens(t)
    requires SameAt(gens, pages, gens', pages', Nodes(t) - {g})
    requires g in gens' && g !in pages' && gens'[g].gen == Sub(t, g).id && SlotsOf(gens'[g].c, ks) && RepAll(gens', pages', ks)
    ensures Rep(gens', pages', SetKids(t, g, ks))
    decreases t, 1
  {
    if t.at != g { RepSetAll(gens, pages, gens', pages', t.kids, g, ks); }
  }

  lemma {:induction false} RepSetAll(gens: map<int, Generation>, pages: set<int>, gens': map<int, Generation>, pages': set<int>,
                                     cs: seq<Node>, g: int, ks: seq<Node>)
    requires RepAll(gens, pages, cs) && UniqAll(cs) && g in GensAll(cs)
    requires SameAt(gens, pages, gens', pages', NodesAll(cs) - {g})
    requires g in gens' && g !in pages' && gens'[g].gen == SubAll(cs, g).id && SlotsOf(gens'[g].c, ks) && RepAll(gens', pages', ks)
    ensures RepAll(gens', pages', SetKidsAll(cs, g, ks))
    decreases cs, 0
  {
    assert SetKidsAll(cs, g, ks)[1..] == SetKidsAll(cs[1..], g, ks);
    GensAreNodes(cs[0]);
    GensAreNodesAll(cs[1..]);
    if g in Gens(cs[0]) {
      RepSet(gens, pages, gens', pages', cs[0], g, ks);
      SetKidsElsewhereAll(cs[1..], g, ks);
      RepFrameAll(gens, pages, gens', pages', cs[1..]);
    } else {
      RepSetAll(gens, pages, gens', pages', cs[1..], g, ks);
      SetKidsElsewhere(cs[0], g, ks);
      RepFrame(gens, pages, gens', pages', cs[0]);
    }
  }

  ghost predicate Slot(gens: map<int, Generation>, g: int, i: int, x: int) {
    g in gens && 0 <= i < |gens[g].c| && gens[g].c[i] == x
  }

  lemma {:induction false} SlotIsNode(gens: map<int, Generation>, pages: set<int>, t: Node, g: int, i: int, x: int)
    requires Rep(gens, pages, t) && g in Gens(t) && Slot(gens, g, i, x) && x != NULL
    ensures x in Nodes(t)
    ensures Uniq(t) ==> x != t.at
    decreases t, 1
  {
    if t.at == g {
      KidIn(t.kids, i);
      assert t.kids[i].at in Nodes(t.kids[i]);
    } else {
      var k := GenKidOf(t.kids, g);
      KidIn(t.kids, k);
      RepKid(gens, pages, t.kids, k);
      SlotIsNode(gens, pages, t.kids[k], g, i, x);
    }
  }

  /** Every node has exactly one parent slot. */
  lemma {:induction false} OneSlot(gens: map<int, Generation>, pages: set<int>, t: Node, g: int, i: int, g': int, i': int, x: int)
    requires Rep(gens, pages, t) && Uniq(t) && g in Gens(t) && g' in Gens(t) && x != NULL
    requires Slot(gens, g, i, x) && Slot(gens, g', i', x)
    ensures g == g' && i == i'
    decreases t, 1
  {
    if t.at == g {
      OneSlotTop(gens, pages, t, i, g', i', x);
    } else if t.at == g' {
      OneSlotTop(gens, pages, t, i', g, i, x);
    } else {
      var k := GenKidOf(t.kids, g);
      var k' := GenKidOf(t.kids, g');
      RepKid(gens, pages, t.kids, k);
      RepKid(gens, pages, t.kids, k');
      SlotIsNode(gens, pages, t.kids[k], g, i, x);
      SlotIsNode(gens, pages, t.kids[k'], g', i', x);
      if k < k' { KidsApart(t.kids, k, k'); } else if k' < k { KidsApart(t.kids, k', k); }
      KidIn(t.kids, k);
      OneSlot(gens, pages, t.kids[k], g, i, g', i', x);
    }
  }

  lemma OneSlotTop(gens: map<int, Generation>, pages: set<int>, t: Node, i: int, g': int, i': int, x: int)
    requires Rep(gens, pages, t) && Uniq(t) && t.Gen? && g' in Gens(t) && x != NULL
    requires Slot(gens, t.at, i, x) && Slot(gens, g', i', x)
    ensures t.at == g' && i == i'
  {
    assert t.kids[i].at == x;
    if t.at == g' {
      assert t.kids[i'].at == x;
      assert x in Nodes(t.kids[i]) && x in Nodes(t.kids[i']);
      if i < i' { KidsApart(t.kids, i, i'); } else if i' < i { KidsApart(t.kids, i', i); }
    } else {
      var k := GenKidOf(t.kids, g');
      RepKid(gens, pages, t.kids, k);
      KidIn(t.kids, k);
      SlotIsNode(gens, pages, t.kids[k], g', i', x);
      assert x in Nodes(t.kids[i]);
      if i < k { KidsApart(t.kids, i, k); } else if k < i { KidsApart(t.kids, k, i); }
      assert false;
    }
  }

  lemma {:induction false} HasParent(gens: map<int, Generation>, pages: set<int>, t: Node, x: int) returns (g: int, i: int)
    requires Rep(gens, pages, t) && x in Nodes(t) && x != t.at
    ensures g in Gens(t) && Slot(gens, g, i, x)
    decreases t, 1
  {
    var k := KidOf(t.kids, x);
    if t.kids[k].at == x {
      g, i := t.at, k;
    } else {
      RepKid(gens, pages, t.kids, k);
      KidIn(t.kids, k);
      g, i := HasParent(gens, pages, t.kids[k], x);
    }
  }

  /** Slots rewritten by exchanging the leaves a and b stand for the relabelled
      tree. */
  lemma {:induction false} RepRelabel(gens: map<int, Generation>, pages: set<int>, gens': map<int, Generation>, pages': set<int>,
                                      t: Node, a: int, b: int)
    requires Rep(gens, pages, t) && a !in gens && b !in gens && a in pages' && b in pages' && a != NULL && b != NULL
    requires gens'.Keys == gens.Keys && pages <= pages' && gens.Keys !! pages'
    requires forall g :: g in Gens(t) && g in gens ==>
               && gens'[g].gen == gens[g].gen && |gens'[g].c| == |gens[g].c|
               && forall i :: 0 <= i < |gens[g].c| ==> gens'[g].c[i] == Other(gens[g].c[i], a, b)
    ensures Rep(gens', pages', Relabel(t, a, b))
    decreases t, 1
  {
    if t.Gen? {
      RepRelabelAll(gens, pages, gens', pages', t.kids, a, b);
      forall i | 0 <= i < |t.kids| ensures Relabel(t.kids[i], a, b).at == Other(t.kids[i].at, a, b) {
        RepKid(gens, pages, t.kids, i);
      }
    }
  }

  lemma {:induction false} RepRelabelAll(gens: map<int, Generation>, pages: set<int>, gens': map<int, Generation>, pages': set<int>,
                                         ks: seq<Node>, a: int, b: int)
    requires RepAll(gens, pages, ks) && a !in gens && b !in gens && a in pages' && b in pages' && a != NULL && b != NULL
    requires gens'.Keys == gens.Keys && pages <= pages' && gens.Keys !! pages'
    requires forall g :: g in GensAll(ks) && g in gens ==>
               && gens'[g].gen == gens[g].gen && |gens'[g].c| == |gens[g].c|
               && forall i :: 0 <= i < |gens[g].c| ==> gens'[g].c[i] == Other(gens[g].c[i], a, b)
    ensures RepAll(gens', pages', RelabelAll(ks, a, b))
    decreases ks, 0
  {
    if ks != [] {
      assert RelabelAll(ks, a, b)[1..] == RelabelAll(ks[1..], a, b);
      RepRelabel(gens, pages, gens', pages', ks[0], a, b);
      RepRelabelAll(gens, pages, gens', pages', ks[1..], a, b);
    }
  }

  /** A child written into the first free slot of g. */
  lemma RepAddKid(gens: map<int, Generation>, pages: set<int>, gens': map<int, Generation>, pages': set<int>, t: Node, g: int, k: Node)
    requires Rep(gens, pages, t) && Uniq(t) && g in Gens(t) && g in gens && |Sub(t, g).kids| < GENERATION_CHILDREN
    requires |gens[g].c| == GENERATION_CHILDREN && SameAt(gens, pages, gens', pages', Nodes(t) - {g})
    requires g in gens' && g !in pages' && gens'[g].gen == Sub(t, g).id && gens'[g].c == gens[g].c[|Sub(t, g).kids| := k.at]
    requires Rep(gens', pages', k)
    ensures Rep(gens', pages', SetKids(t, g, Sub(t, g).kids + [k]))
  {
    var kids := Sub(t, g).kids;
    SubIn(t, g);
    RepSub(gens, pages, t, g);
    RepNotNull(gens, pages, Sub(t, g));
    RepNotNull(gens', pages', k);
    SlotsPush(gens[g].c, kids, k);
    assert SameAt(gens, pages, gens', pages', NodesAll(kids)) by { assert g !in NodesAll(kids); }
    hide *;
    RepFrameAll(gens, pages, gens', pages', kids);
    RepConcat(gens', pages', kids, k);
    RepSet(gens, pages, gens', pages', t, g, kids + [k]);
  }

  /** The slots of g moved to a new generation, which becomes g's only child. */
  lemma RepBetween(gens: map<int, Generation>, pages: set<int>, gens': map<int, Generation>, pages': set<int>, t: Node, g: int, child: int)
    requires Rep(gens, pages, t) && Uniq(t) && g in Gens(t) && g in gens
    requires child !in Nodes(t) && child in gens' && child !in pages' && child != NULL
    requires SameAt(gens, pages, gens', pages', Nodes(t) - {g})
    requires g in gens' && g !in pages' && gens'[g].gen == Sub(t, g).id && gens'[g].c == EmptySlots()[0 := child]
    requires gens'[child].gen == Sub(t, g).id && gens'[child].c == gens[g].c
    ensures Rep(gens', pages', SetKids(t, g, [Gen(child, Sub(t, g).id, Sub(t, g).kids)]))
  {
    var kids := Sub(t, g).kids;
    var k := Gen(child, Sub(t, g).id, kids);
    SubIn(t, g);
    RepSub(gens, pages, t, g);
    RepNotNull(gens, pages, Sub(t, g));
    assert SameAt(gens, pages, gens', pages', NodesAll(kids)) by { assert g !in NodesAll(kids); }
    RepFrameAll(gens, pages, gens', pages', kids);
    assert Rep(gens', pages', k);
    assert [k][1..] == [] && RepAll(gens', pages', [k]);
    SlotsOne(k);
    hide *;
    RepSet(gens, pages, gens', pages', t, g, [k]);
  }

  /** The only slot that holds leaf a rewritten to b, which the tree lacks. */
  lemma RepMoveLeaf(gens: map<int, Generation>, pages: set<int>, gens': map<int, Generation>, t: Node, p: int, i: int, a: int, b: int)
    requires Rep(gens, pages, t) && Uniq(t) && Gens(t) == gens.Keys && gens.Keys !! pages
    requires a in pages && b in pages && b !in Nodes(t) && a != NULL && b != NULL
    requires p in Gens(t) && Slot(gens, p, i, a)
    requires gens' == gens[p := gens[p].(c := gens[p].c[i := b])]
    ensures Rep(gens', pages, Relabel(t, a, b))
  {
    RepSets(gens, pages, t);
    SlotIsNode(gens, pages, t, p, i, a);
    forall g, j | g in Gens(t) && 0 <= j < |gens[g].c|
      ensures |gens'[g].c| == |gens[g].c| && gens'[g].c[j] == Other(gens[g].c[j], a, b)
    {
      assert Slot(gens, g, j, gens[g].c[j]);
      if gens[g].c[j] == a { OneSlot(gens, pages, t, g, j, p, i, a); }
      if gens[g].c[j] == b { SlotIsNode(gens, pages, t, g, j, b); }
    }
    RepRelabel(gens, pages, gens', pages, t, a, b);
  }

  function TwoSlots(gens: map<int, Generation>, p1: int, i1: int, b: int, p2: int, i2: int, a: int): map<int, Generation>
    requires p1 in gens && p2 in gens && 0 <= i1 < |gens[p1].c| && 0 <= i2 < |gens[p2].c|
  {
    var gens1 := gens[p1 := gens[p1].(c := gens[p1].c[i1 := b])];
    gens1[p2 := gens1[p2].(c := gens1[p2].c[i2 := a])]
  }

  /** The slots of leaves a and b exchanged. */
  lemma RepSwapLeaves(gens: map<int, Generation>, pages: set<int>, t: Node, p1: int, i1: int, a: int, p2: int, i2: int, b: int)
    requires Rep(gens, pages, t) && Uniq(t) && Gens(t) == gens.Keys && gens.Keys !! pages
    requires a in pages && b in pages && a != b && a != NULL && b != NULL
    requires p1 in Gens(t) && Slot(gens, p1, i1, a) && p2 in Gens(t) && Slot(gens, p2, i2, b)
    ensures Rep(TwoSlots(gens, p1, i1, b, p2, i2, a), pages, Relabel(t, a, b))
  {
    var gens' := TwoSlots(gens, p1, i1, b, p2, i2, a);
    forall g, j | g in Gens(t) && 0 <= j < |gens[g].c|
      ensures |gens'[g].c| == |gens[g].c| && gens'[g].c[j] == Other(gens[g].c[j], a, b)
    {
      hide Rep, Relabel;
      assert Slot(gens, g, j, gens[g].c[j]);
      if gens[g].c[j] == a { OneSlot(gens, pages, t, g, j, p1, i1, a); }
      if gens[g].c[j] == b { OneSlot(gens, pages, t, g, j, p2, i2, b); }
    }
    RepRelabel(gens, pages, gens', pages, t, a, b);
  }
}
