/** What every run keeps of the generation tree. */
module Forest {
  import opened Layout
  import opened VersionStore
  import opened Trees

  /** Generation ids never decrease along a path, and a node with its parent's id
      (one that new_gen_between has made) is full. */
  ghost predicate Sound(t: Node)
    decreases t, 1
  {
    t.Gen? ==> SoundAll(t.kids, t.id)
  }

  ghost predicate SoundAll(ks: seq<Node>, parent: int)
    decreases ks, 0
  {
    ks == [] || (Under(ks[0], parent) && Sound(ks[0]) && SoundAll(ks[1..], parent))
  }

  ghost predicate Under(k: Node, parent: int) {
    k.Gen? ==> parent <= k.id && (k.id == parent ==> |k.kids| == GENERATION_CHILDREN)
  }

  // ---------------------------------------------------------------- preorders

  /** first_gen_for_id: the first generation with the id, or NULL. */
  ghost function FirstGen(items: seq<Item>, id: int): int
    decreases items
  {
    if items == [] then NULL
    else if items[0].GenItem? && items[0].id == id then items[0].at
    else FirstGen(items[1..], id)
  }

  ghost predicate AllIds(items: seq<Item>, id: int) {
    forall i :: 0 <= i < |items| ==> items[i].id == id
  }

  ghost predicate NoId(items: seq<Item>, id: int) {
    forall i :: 0 <= i < |items| ==> items[i].id != id
  }

  ghost predicate NoGen(items: seq<Item>, id: int) {
    forall i :: 0 <= i < |items| ==> items[i].GenItem? ==> items[i].id != id
  }

  ghost predicate IdsUpTo(items: seq<Item>, id: int) {
    forall i :: 0 <= i < |items| ==> items[i].id <= id
  }

  ghost predicate NonNull(items: seq<Item>) {
    forall i :: 0 <= i < |items| ==> items[i].at != NULL
  }

  lemma {:induction false} FirstGenConcat(a: seq<Item>, b: seq<Item>, id: int)
    requires NonNull(a)
    ensures FirstGen(a + b, id) == if FirstGen(a, id) != NULL then FirstGen(a, id) else FirstGen(b, id)
    decreases a
  {
    if a == [] {
      assert a + b == b;
    } else {
      assert (a + b)[1..] == a[1..] + b;
      FirstGenConcat(a[1..], b, id);
    }
  }

  lemma {:induction false} FirstGenNone(items: seq<Item>, id: int)
    requires NonNull(items)
    ensures FirstGen(items, id) == NULL <==> NoGen(items, id)
    decreases items
  {
    if items != [] { FirstGenNone(items[1..], id); }
  }

  /** The ids below a generation are those of the subtree, at least its own. */
  lemma {:induction false} IdsBelow(t: Node, id: int)
    requires Sound(t)
    ensures forall i :: 0 <= i < |Items(t, id)| ==> Items(t, id)[i].id >= if t.Gen? then t.id else id
    decreases t, 1
  {
    if t.Gen? { IdsBelowAll(t.kids, t.id); }
  }

  lemma {:induction false} IdsBelowAll(ks: seq<Node>, id: int)
    requires SoundAll(ks, id)
    ensures forall i :: 0 <= i < |ItemsAll(ks, id)| ==> ItemsAll(ks, id)[i].id >= id
    decreases ks, 0
  {
    if ks != [] {
      IdsBelow(ks[0], id);
      IdsBelowAll(ks[1..], id);
    }
  }

  // ---------------------------------------------------------------- the invariant

  /** tops maps the id of every generation to the node that was once working. */
  ghost predicate Topped(items: seq<Item>, tops: map<int, int>) {
    && NonNull(items)
    && (forall k :: k in tops ==> FirstGen(items, k) == tops[k] && tops[k] != NULL)
    && (forall i :: 0 <= i < |items| ==> items[i].id in tops)
  }

  /** The newest generation is the subtree at tip: nothing else has its id. */
  ghost predicate Tipped(t: Node, tip: int, last: int) {
    && tip in Gens(t) && Sub(t, tip).id == last
    && NoId(Before(t, 0, tip), last) && NoId(After(t, 0, tip), last)
    && AllIds(ItemsAll(Sub(t, tip).kids, last), last)
  }

  ghost predicate Kept(t: Node, tops: map<int, int>, last: int) {
    && t.Gen? && Uniq(t) && Sound(t)
    && Topped(Items(t, 0), tops) && IdsUpTo(Items(t, 0), last)
    && Numbered(tops, last)
  }

  /** The ids are those from 0 to last. */
  ghost predicate Numbered(tops: map<int, int>, last: int) {
    0 <= last && forall k :: k in tops <==> 0 <= k <= last
  }

  // ---------------------------------------------------------------- three changes

  ghost function AddKid(t: Node, g: int, k: Node): Node
    requires g in Gens(t)
  {
    SetKids(t, g, Sub(t, g).kids + [k])
  }

  /** new_gen_between: all children of g move to a new child of g with its id. */
  ghost function Between(t: Node, g: int, child: int): Node
    requires g in Gens(t)
  {
    SetKids(t, g, [Gen(child, Sub(t, g).id, Sub(t, g).kids)])
  }

  /** The place behind the last page of generation node g in the version order. */
  ghost function EndOf(t: Node, g: int): nat
    requires g in Gens(t)
  {
    |PagesOf(Before(t, 0, g))| + |PagesOf(ItemsAll(Sub(t, g).kids, Sub(t, g).id))|
  }

  lemma {:induction false} SoundSub(t: Node, g: int)
    requires Sound(t) && g in Gens(t)
    ensures Sound(Sub(t, g))
    decreases t, 1
  {
    if t.at != g { SoundSubAll(t.kids, t.id, g); }
  }

  lemma {:induction false} SoundSubAll(ks: seq<Node>, parent: int, g: int)
    requires SoundAll(ks, parent) && g in GensAll(ks)
    ensures Sound(SubAll(ks, g)) && parent <= SubAll(ks, g).id
    decreases ks, 0
  {
    if g in Gens(ks[0]) {
      SoundSub(ks[0], g);
      if ks[0].at != g { SoundSubAll(ks[0].kids, ks[0].id, g); }
    } else {
      SoundSubAll(ks[1..], parent, g);
    }
  }

  lemma {:induction false} SoundConcat(a: seq<Node>, b: seq<Node>, id: int)
    requires SoundAll(a, id) && SoundAll(b, id)
    ensures SoundAll(a + b, id)
    decreases a
  {
    if a == [] {
      assert a + b == b;
    } else {
      assert (a + b)[0] == a[0] && (a + b)[1..] == a[1..] + b;
      SoundConcat(a[1..], b, id);
    }
  }

  /** New children keep the tree sound if g keeps room for the constraint on
      nodes between: g is the first node of its id, or it was not full. */
  lemma {:induction false} SoundSet(t: Node, g: int, ks: seq<Node>)
    requires Sound(t) && Uniq(t) && g in Gens(t) && SoundAll(ks, Sub(t, g).id)
    requires NoGen(Before(t, 0, g), Sub(t, g).id) || |Sub(t, g).kids| < GENERATION_CHILDREN
    ensures Sound(SetKids(t, g, ks))
    decreases t, 1
  {
    if t.at != g {
      assert Before(t, 0, g)[0] == GenItem(t.at, t.id);
      assert Before(t, 0, g)[1..] == BeforeAll(t.kids, t.id, g);
      SoundSetAll(t.kids, t.id, g, ks);
    }
  }

  lemma {:induction false} SoundSetAll(cs: seq<Node>, parent: int, g: int, ks: seq<Node>)
    requires SoundAll(cs, parent) && UniqAll(cs) && g in GensAll(cs) && SoundAll(ks, SubAll(cs, g).id)
    requires (NoGen(BeforeAll(cs, parent, g), SubAll(cs, g).id) && parent != SubAll(cs, g).id)
          || |SubAll(cs, g).kids| < GENERATION_CHILDREN
    ensures SoundAll(SetKidsAll(cs, g, ks), parent)
    decreases cs, 0
  {
    var cs' := SetKidsAll(cs, g, ks);
    assert cs'[1..] == SetKidsAll(cs[1..], g, ks);
    var below := BeforeAll(cs, parent, g);
    if g in Gens(cs[0]) {
      SoundSet(cs[0], g, ks);
      GensAreNodes(cs[0]);
      GensAreNodesAll(cs[1..]);
      SetKidsElsewhereAll(cs[1..], g, ks);
    } else {
      var rest := BeforeAll(cs[1..], parent, g);
      assert forall i :: 0 <= i < |rest| ==> rest[i] == below[|Items(cs[0], parent)| + i];
      SoundSetAll(cs[1..], parent, g, ks);
      SetKidsElsewhere(cs[0], g, ks);
    }
  }

  lemma {:induction false} ItemsAreNodes(t: Node, id: int)
    ensures forall i :: 0 <= i < |Items(t, id)| ==> Items(t, id)[i].at in Nodes(t)
    ensures forall i :: 0 <= i < |Items(t, id)| ==> Items(t, id)[i].GenItem? ==> Items(t, id)[i].at in Gens(t)
    decreases t, 1
  {
    if t.Gen? { ItemsAreNodesAll(t.kids, t.id); }
  }

  lemma {:induction false} ItemsAreNodesAll(ks: seq<Node>, id: int)
    ensures forall i :: 0 <= i < |ItemsAll(ks, id)| ==> ItemsAll(ks, id)[i].at in NodesAll(ks)
    ensures forall i :: 0 <= i < |ItemsAll(ks, id)| ==> ItemsAll(ks, id)[i].GenItem? ==> ItemsAll(ks, id)[i].at in GensAll(ks)
    decreases ks, 0
  {
    if ks != [] {
      ItemsAreNodes(ks[0], id);
      ItemsAreNodesAll(ks[1..], id);
    }
  }

  /** Nothing before g in the preorder is g. */
  lemma {:induction false} BeforeIsElsewhere(t: Node, id: int, g: int)
    requires Uniq(t) && g in Gens(t)
    ensures forall i :: 0 <= i < |Before(t, id, g)| ==> Before(t, id, g)[i].at != g
    decreases t, 1
  {
    if t.at != g { BeforeIsElsewhereAll(t.kids, t.id, g); }
  }

  lemma {:induction false} BeforeIsElsewhereAll(ks: seq<Node>, id: int, g: int)
    requires UniqAll(ks) && g in GensAll(ks)
    ensures forall i :: 0 <= i < |BeforeAll(ks, id, g)| ==> BeforeAll(ks, id, g)[i].at != g
    decreases ks, 0
  {
    if g in Gens(ks[0]) {
      BeforeIsElsewhere(ks[0], id, g);
    } else {
      GensAreNodesAll(ks[1..]);
      ItemsAreNodes(ks[0], id);
      BeforeIsElsewhereAll(ks[1..], id, g);
    }
  }

  lemma {:induction false} FirstGenAt(items: seq<Item>, id: int)
    requires FirstGen(items, id) != NULL
    ensures exists i :: 0 <= i < |items| && items[i] == GenItem(FirstGen(items, id), id)
    decreases items
  {
    if !(items[0].GenItem? && items[0].id == id) {
      FirstGenAt(items[1..], id);
      var i :| 0 <= i < |items[1..]| && items[1..][i] == GenItem(FirstGen(items, id), id);
      assert items[i + 1] == GenItem(FirstGen(items, id), id);
    } else {
      assert items[0] == GenItem(FirstGen(items, id), id);
    }
  }

  /** The node that was once working is the outermost of its id. */
  lemma TopIsFirst(t: Node, tops: map<int, int>, last: int, g: int)
    requires Kept(t, tops, last) && g in Gens(t) && Sub(t, g).id in tops && tops[Sub(t, g).id] == g
    ensures NoGen(Before(t, 0, g), Sub(t, g).id)
  {
    var b, id := Before(t, 0, g), Sub(t, g).id;
    Split(t, 0, g);
    var rest := [GenItem(g, id)] + ItemsAll(Sub(t, g).kids, id) + After(t, 0, g);
    assert Items(t, 0) == b + rest;
    assert NonNull(b) by { assert forall i :: 0 <= i < |b| ==> b[i] == Items(t, 0)[i]; }
    FirstGenConcat(b, rest, id);
    FirstGenNone(b, id);
    BeforeIsElsewhere(t, 0, g);
    if FirstGen(b, id) != NULL {
      FirstGenAt(b, id);
      assert false;
    }
  }

  /** A preorder whose part behind GenItem(g, id) is replaced: who comes first for
      which id is unchanged where the replacement brings no new id. */
  lemma FirstGenInside(b: seq<Item>, g: int, id: int, old': seq<Item>, new': seq<Item>, a: seq<Item>, k: int)
    requires NonNull(b + ([GenItem(g, id)] + old') + a) && NonNull(b + ([GenItem(g, id)] + new') + a)
    requires k == id || FirstGen(new', k) == FirstGen(old', k)
    ensures FirstGen(b + ([GenItem(g, id)] + new') + a, k) == FirstGen(b + ([GenItem(g, id)] + old') + a, k)
  {
    FirstGenSplit(b, g, id, old', a, k);
    FirstGenSplit(b, g, id, new', a, k);
  }

  ghost function Or(x: int, y: int): int { if x != NULL then x else y }

  lemma FirstGenSplit(b: seq<Item>, g: int, id: int, m: seq<Item>, a: seq<Item>, k: int)
    requires NonNull(b + ([GenItem(g, id)] + m) + a)
    ensures FirstGen(b + ([GenItem(g, id)] + m) + a, k)
         == Or(FirstGen(b, k), Or(if k == id then g else NULL, Or(FirstGen(m, k), FirstGen(a, k))))
    ensures NonNull(b) && NonNull(m) && NonNull(a) && g != NULL
  {
    var all := b + ([GenItem(g, id)] + m) + a;
    assert forall i :: 0 <= i < |b| ==> b[i] == all[i];
    assert forall i :: 0 <= i < |m| ==> m[i] == all[|b| + 1 + i];
    assert forall i :: 0 <= i < |a| ==> a[i] == all[|b| + 1 + |m| + i];
    assert all[|b|] == GenItem(g, id);
    assert all == b + ([GenItem(g, id)] + (m + a));
    assert ([GenItem(g, id)] + (m + a))[1..] == m + a;
    FirstGenConcat(b, [GenItem(g, id)] + (m + a), k);
    FirstGenConcat(m, a, k);
  }

  ghost function Around(t: Node, g: int, m: seq<Item>): seq<Item>
    requires g in Gens(t)
  {
    Before(t, 0, g) + ([GenItem(g, Sub(t, g).id)] + m) + After(t, 0, g)
  }

  lemma AroundSet(t: Node, g: int, ks: seq<Node>)
    requires Uniq(t) && g in Gens(t)
    ensures Items(t, 0) == Around(t, g, ItemsAll(Sub(t, g).kids, Sub(t, g).id))
    ensures Items(SetKids(t, g, ks), 0) == Around(t, g, ItemsAll(ks, Sub(t, g).id))
  {
    Split(t, 0, g);
    SplitSet(t, 0, g, ks);
  }

  lemma AroundPages(t: Node, g: int, m: seq<Item>)
    requires g in Gens(t)
    ensures PagesOf(Around(t, g, m)) == PagesOf(Before(t, 0, g)) + PagesOf(m) + PagesOf(After(t, 0, g))
  {
    var x := [GenItem(g, Sub(t, g).id)];
    PagesConcat(Before(t, 0, g), x + m);
    PagesConcat(Before(t, 0, g) + (x + m), After(t, 0, g));
    PagesConcat(x, m);
    assert x[1..] == [] && PagesOf(x) == [];
  }

  lemma GenHasTop(t: Node, tops: map<int, int>, last: int, g: int)
    requires Kept(t, tops, last) && g in Gens(t)
    ensures Sub(t, g).id in tops && Sub(t, g).id <= last && g != NULL
  {
    Split(t, 0, g);
    assert Items(t, 0)[|Before(t, 0, g)|] == GenItem(g, Sub(t, g).id);
  }

  ghost predicate Fits(items: seq<Item>, tops: map<int, int>, last: int) {
    forall i :: 0 <= i < |items| ==> items[i].at != NULL && items[i].id <= last && items[i].id in tops
  }

  lemma FitsAround(t: Node, g: int, o: seq<Item>, n: seq<Item>, tops: map<int, int>, last: int)
    requires g in Gens(t) && Fits(Around(t, g, o), tops, last) && Fits(n, tops, last)
    ensures Fits(Around(t, g, n), tops, last)
  {
    var b, a, x, y := Before(t, 0, g), After(t, 0, g), Around(t, g, o), Around(t, g, n);
    forall i | 0 <= i < |y| ensures y[i].at != NULL && y[i].id <= last && y[i].id in tops {
      if i <= |b| { assert y[i] == x[i]; }
      else if i < |b| + 1 + |n| { assert y[i] == n[i - |b| - 1]; }
      else { assert y[i] == a[i - |b| - 1 - |n|] == x[i - |n| + |o|]; }
    }
  }

  lemma FitsMore(items: seq<Item>, tops: map<int, int>, last: int, tops': map<int, int>, last': int)
    requires Fits(items, tops, last) && tops.Keys <= tops'.Keys && last <= last'
    ensures Fits(items, tops', last')
  {
  }

  /** A change of g's children keeps the tree's invariant when the new children
      are sound, bring no address twice and leave the tops where they are. */
  lemma KeptSet(t: Node, tops: map<int, int>, last: int, g: int, ks: seq<Node>, tops': map<int, int>, last': int)
    requires Kept(t, tops, last) && g in Gens(t) && Sub(t, g).id in tops
    requires UniqAll(ks) && NodesAll(ks) !! Nodes(t) - NodesAll(Sub(t, g).kids)
    requires SoundAll(ks, Sub(t, g).id)
    requires tops[Sub(t, g).id] == g || |Sub(t, g).kids| < GENERATION_CHILDREN
    requires tops.Keys <= tops'.Keys && Numbered(tops', last') && last <= last'
    requires Fits(ItemsAll(ks, Sub(t, g).id), tops', last')
    requires forall k :: k in tops' ==> tops'[k] != NULL && FirstGen(Around(t, g, ItemsAll(ks, Sub(t, g).id)), k) == tops'[k]
    ensures Kept(SetKids(t, g, ks), tops', last')
  {
    SetKidsUniq(t, g, ks);
    if |Sub(t, g).kids| >= GENERATION_CHILDREN { TopIsFirst(t, tops, last, g); }
    SoundSet(t, g, ks);
    AroundSet(t, g, ks);
    FitsMore(Items(t, 0), tops, last, tops', last');
    FitsAround(t, g, ItemsAll(Sub(t, g).kids, Sub(t, g).id), ItemsAll(ks, Sub(t, g).id), tops', last');
  }

  lemma SoundKids(t: Node, g: int)
    requires Sound(t) && Uniq(t) && g in Gens(t)
    ensures SoundAll(Sub(t, g).kids, Sub(t, g).id) && UniqAll(Sub(t, g).kids) && g !in NodesAll(Sub(t, g).kids)
    ensures NodesAll(Sub(t, g).kids) <= Nodes(t)
  {
    SoundSub(t, g);
    SubIn(t, g);
  }

  lemma {:induction false} UniqConcat(a: seq<Node>, k: Node)
    requires UniqAll(a) && Uniq(k) && NodesAll(a) !! Nodes(k)
    ensures UniqAll(a + [k]) && NodesAll(a + [k]) == NodesAll(a) + Nodes(k) && GensAll(a + [k]) == GensAll(a) + Gens(k)
    decreases a
  {
    if a == [] {
      assert a + [k] == [k] && [k][1..] == [];
    } else {
      assert (a + [k])[1..] == a[1..] + [k];
      UniqConcat(a[1..], k);
    }
  }

  lemma KidItems(a: seq<Node>, k: Node, id: int)
    ensures ItemsAll(a + [k], id) == ItemsAll(a, id) + Items(k, id)
    ensures ItemsAll([k], id) == Items(k, id)
  {
    ItemsConcat(a, [k], id);
    assert [k][1..] == [];
  }

  /** Adding a page behind the children of a generation. */
  lemma AddLeafKept(t: Node, tops: map<int, int>, last: int, g: int, x: int)
    requires Kept(t, tops, last) && g in Gens(t) && x !in Nodes(t) && x != NULL
    requires (Sub(t, g).id in tops && tops[Sub(t, g).id] == g) || |Sub(t, g).kids| < GENERATION_CHILDREN
    ensures Kept(AddKid(t, g, Leaf(x)), tops, last)
  {
    var k, id, old' := Leaf(x), Sub(t, g).id, Sub(t, g).kids;
    var ks := old' + [k];
    GenHasTop(t, tops, last, g);
    SoundKids(t, g);
    UniqConcat(old', k);
    SoundOne(k, id);
    SoundConcat(old', [k], id);
    KidItems(old', k, id);
    var o, n := ItemsAll(old', id), ItemsAll(ks, id);
    AroundSet(t, g, old');
    AroundFits(t, tops, last, g);
    assert Fits(n, tops, last);
    forall j | j in tops ensures FirstGen(Around(t, g, n), j) == tops[j] {
      AroundNonNull(t, g, o, n, tops, last);
      FirstGenConcat(o, [PageItem(x, id)], j);
      assert [PageItem(x, id)][1..] == [];
      FirstGenInside(Before(t, 0, g), g, id, o, n, After(t, 0, g), j);
    }
    KeptSet(t, tops, last, g, ks, tops, last);
  }

  /** What a change of g's children means for the node sets and for the order of
      the pages. */
  lemma OrderSet(t: Node, g: int, ks: seq<Node>)
    requires Uniq(t) && g in Gens(t)
    ensures var (t', id, old') := (SetKids(t, g, ks), Sub(t, g).id, Sub(t, g).kids);
            && g in Gens(t') && Before(t', 0, g) == Before(t, 0, g) && After(t', 0, g) == After(t, 0, g)
            && Sub(t', g) == Gen(g, id, ks)
            && PagesOf(Items(t, 0))
               == PagesOf(Before(t, 0, g)) + PagesOf(ItemsAll(old', id)) + PagesOf(After(t, 0, g))
            && PagesOf(Items(t', 0))
               == PagesOf(Before(t, 0, g)) + PagesOf(ItemsAll(ks, id)) + PagesOf(After(t, 0, g))
  {
    AroundSet(t, g, ks);
    SplitSet(t, 0, g, ks);
    AroundPages(t, g, ItemsAll(Sub(t, g).kids, Sub(t, g).id));
    AroundPages(t, g, ItemsAll(ks, Sub(t, g).id));
  }

  lemma SetsGrow(t: Node, g: int, ks: seq<Node>, c: set<int>, d: set<int>)
    requires Uniq(t) && g in Gens(t)
    requires NodesAll(ks) == NodesAll(Sub(t, g).kids) + c && GensAll(ks) == GensAll(Sub(t, g).kids) + d
    ensures Nodes(SetKids(t, g, ks)) == Nodes(t) + c && Gens(SetKids(t, g, ks)) == Gens(t) + d
  {
    SetKidsNodes(t, g, ks);
    SubIn(t, g);
  }

  lemma OneItem(x: Item)
    ensures PagesOf([x]) == if x.PageItem? then [Entry(x.id, x.at)] else []
  {
    assert [x][1..] == [];
  }

  lemma LeafIs(x: int, id: int)
    ensures Items(Leaf(x), id) == [PageItem(x, id)] && Nodes(Leaf(x)) == {x} && Gens(Leaf(x)) == {}
  {
  }

  lemma GenIs(x: int, g: int, kids: seq<Node>, id: int)
    ensures Items(Gen(x, g, kids), id) == [GenItem(x, g)] + ItemsAll(kids, g)
    ensures Nodes(Gen(x, g, kids)) == {x} + NodesAll(kids) && Gens(Gen(x, g, kids)) == {x} + GensAll(kids)
  {
  }

  lemma NoKids(id: int)
    ensures ItemsAll([], id) == [] && NodesAll([]) == {} && GensAll([]) == {}
  {
  }

  lemma OneKid(k: Node, id: int)
    ensures ItemsAll([k], id) == Items(k, id) && NodesAll([k]) == Nodes(k) && GensAll([k]) == Gens(k)
  {
    assert [k][1..] == [];
  }

  lemma AddLeafOrder(t: Node, g: int, x: int)
    requires Uniq(t) && g in Gens(t)
    ensures var t' := AddKid(t, g, Leaf(x));
            && Nodes(t') == Nodes(t) + {x} && Gens(t') == Gens(t)
            && EndOf(t, g) <= |PagesOf(Items(t, 0))|
            && PagesOf(Items(t', 0)) == Insert(PagesOf(Items(t, 0)), EndOf(t, g), Entry(Sub(t, g).id, x))
            && g in Gens(t') && After(t', 0, g) == After(t, 0, g) && EndOf(t', g) == EndOf(t, g) + 1
            && Sub(t', g) == Gen(g, Sub(t, g).id, Sub(t, g).kids + [Leaf(x)])
  {
    hide Items, ItemsAll, Before, After, Nodes, NodesAll, Gens, GensAll, Uniq, UniqAll, Sub, SetKids, PagesOf;
    var k, id, old' := Leaf(x), Sub(t, g).id, Sub(t, g).kids;
    LeafIs(x, id);
    NodesConcat(old', k);
    SetsGrow(t, g, old' + [k], {x}, {});
    OrderSet(t, g, old' + [k]);
    KidItems(old', k, id);
    PagesConcat(ItemsAll(old', id), [PageItem(x, id)]);
    OneItem(PageItem(x, id));
  }

  lemma {:induction false} NodesConcat(a: seq<Node>, k: Node)
    ensures NodesAll(a + [k]) == NodesAll(a) + Nodes(k) && GensAll(a + [k]) == GensAll(a) + Gens(k)
    decreases a
  {
    if a == [] {
      assert a + [k] == [k] && [k][1..] == [];
    } else {
      assert (a + [k])[1..] == a[1..] + [k];
      NodesConcat(a[1..], k);
    }
  }

  /** The children of a generation move to a new child of it. */
  lemma BetweenKept(t: Node, tops: map<int, int>, last: int, g: int, child: int)
    requires Kept(t, tops, last) && g in Gens(t) && child !in Nodes(t) && child != NULL
    requires Sub(t, g).id in tops && tops[Sub(t, g).id] == g && |Sub(t, g).kids| == GENERATION_CHILDREN
    ensures Kept(Between(t, g, child), tops, last)
  {
    var id, old' := Sub(t, g).id, Sub(t, g).kids;
    var k := Gen(child, id, old');
    GenHasTop(t, tops, last, g);
    SoundKids(t, g);
    UniqConcat([], k);
    SoundOne(k, id);
    KidItems([], k, id);
    assert [] + [k] == [k];
    var o, n := ItemsAll(old', id), ItemsAll([k], id);
    assert n == [GenItem(child, id)] + o;
    AroundSet(t, g, old');
    AroundFits(t, tops, last, g);
    assert Fits(n, tops, last);
    forall j | j in tops ensures FirstGen(Around(t, g, n), j) == tops[j] {
      AroundNonNull(t, g, o, n, tops, last);
      assert n[1..] == o;
      FirstGenInside(Before(t, 0, g), g, id, o, n, After(t, 0, g), j);
    }
    KeptSet(t, tops, last, g, [k], tops, last);
  }

  lemma BetweenOrder(t: Node, g: int, child: int)
    requires Uniq(t) && g in Gens(t)
    ensures var t' := Between(t, g, child);
            && Nodes(t') == Nodes(t) + {child} && Gens(t') == Gens(t) + {child}
            && PagesOf(Items(t', 0)) == PagesOf(Items(t, 0))
            && g in Gens(t') && After(t', 0, g) == After(t, 0, g) && EndOf(t', g) == EndOf(t, g)
            && Sub(t', g) == Gen(g, Sub(t, g).id, [Gen(child, Sub(t, g).id, Sub(t, g).kids)])
  {
    hide Items, ItemsAll, Before, After, Nodes, NodesAll, Gens, GensAll, Uniq, UniqAll, Sub, SetKids, PagesOf;
    var id, old' := Sub(t, g).id, Sub(t, g).kids;
    var k := Gen(child, id, old');
    GenIs(child, id, old', id);
    OneKid(k, id);
    SetsGrow(t, g, [k], {child}, {child});
    OrderSet(t, g, [k]);
    PagesConcat([GenItem(child, id)], ItemsAll(old', id));
    OneItem(GenItem(child, id));
  }

  /** A new generation behind the children of a generation. */
  lemma AddGenKept(t: Node, tops: map<int, int>, last: int, g: int, x: int)
    requires Kept(t, tops, last) && g in Gens(t) && x !in Nodes(t) && x != NULL
    requires |Sub(t, g).kids| < GENERATION_CHILDREN
    ensures Kept(AddKid(t, g, Gen(x, last + 1, [])), tops[last + 1 := x], last + 1)
  {
    hide ItemsAll, Before, After, Around, FirstGen, Sub, SetKids;
    var k, id, old' := Gen(x, last + 1, []), Sub(t, g).id, Sub(t, g).kids;
    var ks, tops' := old' + [k], tops[last + 1 := x];
    NoKids(last + 1);
    GenHasTop(t, tops, last, g);
    SoundKids(t, g);
    UniqConcat(old', k);
    SoundOne(k, id);
    SoundConcat(old', [k], id);
    KidItems(old', k, id);
    var o, n := ItemsAll(old', id), ItemsAll(ks, id);
    var y := [GenItem(x, last + 1)];
    assert n == o + y;
    AroundSet(t, g, old');
    AroundFits(t, tops, last, g);
    FitsMore(o, tops, last, tops', last + 1);
    FitsMore(Around(t, g, o), tops, last, tops', last + 1);
    assert Fits(n, tops', last + 1);
    AroundNonNull(t, g, o, n, tops', last + 1);
    forall j | j in tops' ensures tops'[j] != NULL && FirstGen(Around(t, g, n), j) == tops'[j] {
      NewGenFirst(t, tops, last, g, x, j);
    }
    KeptSet(t, tops, last, g, ks, tops', last + 1);
  }

  /** The new generation comes first for its own id only. */
  lemma NewGenFirst(t: Node, tops: map<int, int>, last: int, g: int, x: int, j: int)
    requires Kept(t, tops, last) && g in Gens(t) && x != NULL && (j in tops || j == last + 1)
    requires var o := ItemsAll(Sub(t, g).kids, Sub(t, g).id);
             NonNull(Around(t, g, o)) && NonNull(Around(t, g, o + [GenItem(x, last + 1)])) && NonNull(o)
    ensures var n := ItemsAll(Sub(t, g).kids, Sub(t, g).id) + [GenItem(x, last + 1)];
            tops[last + 1 := x][j] != NULL && FirstGen(Around(t, g, n), j) == tops[last + 1 := x][j]
  {
    var id, o, y := Sub(t, g).id, ItemsAll(Sub(t, g).kids, Sub(t, g).id), [GenItem(x, last + 1)];
    AroundSet(t, g, Sub(t, g).kids);
    GenHasTop(t, tops, last, g);
    FirstGenConcat(o, y, j);
    assert y[1..] == [];
    if j != last + 1 {
      FirstGenInside(Before(t, 0, g), g, id, o, o + y, After(t, 0, g), j);
    } else {
      IdsStayBelow(t, tops, last, g);
      FirstGenNone(Before(t, 0, g), j);
      FirstGenNone(o, j);
      FirstGenSplit(Before(t, 0, g), g, id, o + y, After(t, 0, g), j);
    }
  }

  lemma IdsStayBelow(t: Node, tops: map<int, int>, last: int, g: int)
    requires Kept(t, tops, last) && g in Gens(t)
    ensures NonNull(Before(t, 0, g)) && IdsUpTo(Before(t, 0, g), last) && IdsUpTo(After(t, 0, g), last)
    ensures NonNull(After(t, 0, g))
    ensures NonNull(ItemsAll(Sub(t, g).kids, Sub(t, g).id)) && IdsUpTo(ItemsAll(Sub(t, g).kids, Sub(t, g).id), last)
  {
    KeptFits(t, tops, last);
    Split(t, 0, g);
    var b, o, a := Before(t, 0, g), ItemsAll(Sub(t, g).kids, Sub(t, g).id), After(t, 0, g);
    var x := [GenItem(g, Sub(t, g).id)];
    FitsParts(b, x, o, a, tops, last);
    assert b + (x + o) + a == [] + ([] + b) + (x + o + a);
    FitsParts([], [], b, x + o + a, tops, last);
    assert b + (x + o) + a == b + (x + o + a) + [];
    assert b + (x + o + a) == b + ((x + o) + a);
    FitsParts(b, x + o, a, [], tops, last);
  }

  /** The subtree of a node below g is found below g. */
  lemma {:induction false} SubSub(t: Node, id: int, g: int, h: int)
    requires Uniq(t) && g in Gens(t) && h in Gens(Sub(t, g))
    ensures h in Gens(t) && Sub(t, h) == Sub(Sub(t, g), h)
    ensures Before(t, id, h) == Before(t, id, g) + Before(Sub(t, g), id, h)
    ensures After(t, id, h) == After(Sub(t, g), id, h) + After(t, id, g)
    decreases t, 1
  {
    SubIn(t, g);
    if t.at != g {
      SubSubAll(t.kids, t.id, g, h);
      GensAreNodesAll(t.kids);
      assert Before(Sub(t, g), id, h) == Before(Sub(t, g), t.id, h);
    }
  }

  lemma {:induction false} SubSubAll(ks: seq<Node>, id: int, g: int, h: int)
    requires UniqAll(ks) && g in GensAll(ks) && h in Gens(SubAll(ks, g))
    ensures h in GensAll(ks) && SubAll(ks, h) == Sub(SubAll(ks, g), h)
    ensures BeforeAll(ks, id, h) == BeforeAll(ks, id, g) + Before(SubAll(ks, g), id, h)
    ensures AfterAll(ks, id, h) == After(SubAll(ks, g), id, h) + AfterAll(ks, id, g)
    decreases ks, 0
  {
    if g in Gens(ks[0]) {
      SubSub(ks[0], id, g, h);
    } else {
      SubInAll(ks[1..], g);
      SubSubAll(ks[1..], id, g, h);
      GensAreNodes(ks[0]);
      GensAreNodesAll(ks[1..]);
    }
  }

  /** A change below g is one below every node above it. */
  lemma {:induction false} SubSet(t: Node, g: int, ks: seq<Node>, c: int)
    requires Uniq(t) && c in Gens(t) && g in Gens(Sub(t, c))
    ensures c in Gens(SetKids(t, g, ks)) && Sub(SetKids(t, g, ks), c) == SetKids(Sub(t, c), g, ks)
    decreases t, 1
  {
    if t.at != c {
      SubInAll(t.kids, c);
      GensAreNodesAll(t.kids);
      SubSetAll(t.kids, g, ks, c);
    }
  }

  lemma {:induction false} SubSetAll(cs: seq<Node>, g: int, ks: seq<Node>, c: int)
    requires UniqAll(cs) && c in GensAll(cs) && g in Gens(SubAll(cs, c))
    ensures c in GensAll(SetKidsAll(cs, g, ks)) && SubAll(SetKidsAll(cs, g, ks), c) == SetKids(SubAll(cs, c), g, ks)
    decreases cs, 0
  {
    var cs' := SetKidsAll(cs, g, ks);
    assert cs'[1..] == SetKidsAll(cs[1..], g, ks);
    if c in Gens(cs[0]) {
      SubSet(cs[0], g, ks, c);
    } else {
      SubInAll(cs[1..], c);
      GensAreNodes(cs[0]);
      GensAreNodesAll(cs[1..]);
      SetKidsElsewhere(cs[0], g, ks);
      SubSetAll(cs[1..], g, ks, c);
    }
  }

  lemma {:induction false} LastKid(a: seq<Node>, id: int, k: Node)
    requires k.Gen? && k.kids == [] && k.at !in GensAll(a)
    ensures k.at in GensAll(a + [k]) && SubAll(a + [k], k.at) == k
    ensures BeforeAll(a + [k], id, k.at) == ItemsAll(a, id) && AfterAll(a + [k], id, k.at) == []
    decreases a
  {
    if a == [] {
      assert a + [k] == [k] && [k][1..] == [];
    } else {
      assert (a + [k])[0] == a[0] && (a + [k])[1..] == a[1..] + [k];
      LastKid(a[1..], id, k);
    }
  }

  lemma AddGenOrder(t: Node, g: int, x: int, id': int)
    requires Uniq(t) && g in Gens(t)
    ensures var k := Gen(x, id', []);
            var t' := AddKid(t, g, k);
            && Nodes(t') == Nodes(t) + {x} && Gens(t') == Gens(t) + {x}
            && PagesOf(Items(t', 0)) == PagesOf(Items(t, 0))
            && g in Gens(t') && Sub(t', g) == Gen(g, Sub(t, g).id, Sub(t, g).kids + [k])
            && Before(t', 0, g) == Before(t, 0, g) && After(t', 0, g) == After(t, 0, g)
  {
    hide Items, ItemsAll, Before, After, Nodes, NodesAll, Gens, GensAll, Uniq, UniqAll, Sub, SetKids, PagesOf;
    var k, id, old' := Gen(x, id', []), Sub(t, g).id, Sub(t, g).kids;
    GenIs(x, id', [], id);
    NoKids(id');
    NodesConcat(old', k);
    SetsGrow(t, g, old' + [k], {x}, {x});
    OrderSet(t, g, old' + [k]);
    KidItems(old', k, id);
    PagesConcat(ItemsAll(old', id), [GenItem(x, id')]);
    OneItem(GenItem(x, id'));
    assert [GenItem(x, id')] + [] == [GenItem(x, id')];
    assert PagesOf(ItemsAll(old', id)) + [] == PagesOf(ItemsAll(old', id));
  }

  /** The new generation holds the last id alone, and what was last in the tree
      stays last. */
  lemma AddGenTip(t: Node, tops: map<int, int>, last: int, g: int, x: int)
    requires Kept(t, tops, last) && g in Gens(t) && x !in Nodes(t)
    ensures var k := Gen(x, last + 1, []);
            var t' := AddKid(t, g, k);
            && Tipped(t', x, last + 1) && Sub(t', x) == k && After(t', 0, x) == After(t, 0, g)
            && EndOf(t', x) == EndOf(t, g)
  {
    var k, id, old' := Gen(x, last + 1, []), Sub(t, g).id, Sub(t, g).kids;
    var t' := AddKid(t, g, k);
    AddGenOrder(t, g, x, last + 1);
    SubIn(t, g);
    GensAreNodes(t);
    GensAreNodesAll(old');
    LastKid(old', id, k);
    UniqConcatIn(t, tops, last, g, x, k);
    SubSub(t', 0, g, x);
    IdsStayBelow(t, tops, last, g);
    GenHasTop(t, tops, last, g);
    var n := Sub(t', g);
    assert Before(n, 0, x) == [GenItem(g, id)] + BeforeAll(n.kids, id, x);
    assert After(n, 0, x) == AfterAll(n.kids, id, x);
    assert Before(t', 0, x) == Before(t, 0, g) + ([GenItem(g, id)] + ItemsAll(old', id));
    assert ItemsAll(k.kids, last + 1) == [];
    PagesConcat(Before(t, 0, g), [GenItem(g, id)] + ItemsAll(old', id));
    PagesConcat([GenItem(g, id)], ItemsAll(old', id));
    assert [GenItem(g, id)][1..] == [] && PagesOf([GenItem(g, id)]) == [] && PagesOf([]) == [];
    hide Items, ItemsAll, Nodes, NodesAll, Gens, GensAll, Uniq, UniqAll, SetKids, PagesOf, Kept;
  }

  lemma UniqConcatIn(t: Node, tops: map<int, int>, last: int, g: int, x: int, k: Node)
    requires Kept(t, tops, last) && g in Gens(t) && x !in Nodes(t) && k == Gen(x, last + 1, [])
    ensures Uniq(AddKid(t, g, k))
  {
    SoundKids(t, g);
    UniqConcat(Sub(t, g).kids, k);
    SetKidsUniq(t, g, Sub(t, g).kids + [k]);
  }

  /** When nothing follows a generation, its end is the end of the order. */
  lemma EndIsLast(t: Node, g: int)
    requires g in Gens(t) && After(t, 0, g) == []
    ensures EndOf(t, g) == |PagesOf(Items(t, 0))|
  {
    Split(t, 0, g);
    AroundPages(t, g, ItemsAll(Sub(t, g).kids, Sub(t, g).id));
  }

  /** In a subtree of one id whose top is full, every node is full: there is no
      free slot. */
  lemma {:induction false} FullBelow(t: Node)
    requires Sound(t) && t.Gen? && |t.kids| == GENERATION_CHILDREN && AllIds(ItemsAll(t.kids, t.id), t.id)
    ensures forall h :: h in Gens(t) ==> |Sub(t, h).kids| == GENERATION_CHILDREN
    decreases t, 1
  {
    FullBelowAll(t.kids, t.id);
  }

  lemma {:induction false} FullBelowAll(ks: seq<Node>, id: int)
    requires SoundAll(ks, id) && AllIds(ItemsAll(ks, id), id)
    ensures forall h :: h in GensAll(ks) ==> |SubAll(ks, h).kids| == GENERATION_CHILDREN
    decreases ks, 0
  {
    if ks != [] {
      var items, head, rest := ItemsAll(ks, id), Items(ks[0], id), ItemsAll(ks[1..], id);
      assert forall i :: 0 <= i < |rest| ==> rest[i] == items[|head| + i];
      FullBelowAll(ks[1..], id);
      if ks[0].Gen? {
        assert items[0] == head[0];
        var below := ItemsAll(ks[0].kids, id);
        assert forall i :: 0 <= i < |below| ==> below[i] == items[i + 1];
        FullBelow(ks[0]);
      }
    }
  }

  lemma KeptFits(t: Node, tops: map<int, int>, last: int)
    requires Kept(t, tops, last)
    ensures Fits(Items(t, 0), tops, last)
  {
  }

  lemma FitsParts(b: seq<Item>, x: seq<Item>, o: seq<Item>, a: seq<Item>, tops: map<int, int>, last: int)
    requires Fits(b + (x + o) + a, tops, last)
    ensures Fits(o, tops, last) && NonNull(o) && NonNull(b + (x + o) + a)
  {
    var all := b + (x + o) + a;
    assert forall i :: 0 <= i < |o| ==> o[i] == all[|b| + |x| + i];
  }

  lemma AroundFits(t: Node, tops: map<int, int>, last: int, g: int)
    requires Kept(t, tops, last) && g in Gens(t)
    ensures Fits(Around(t, g, ItemsAll(Sub(t, g).kids, Sub(t, g).id)), tops, last)
    ensures Fits(ItemsAll(Sub(t, g).kids, Sub(t, g).id), tops, last)
  {
    KeptFits(t, tops, last);
    Split(t, 0, g);
    FitsParts(Before(t, 0, g), [GenItem(g, Sub(t, g).id)], ItemsAll(Sub(t, g).kids, Sub(t, g).id), After(t, 0, g), tops, last);
  }

  lemma AroundNonNull(t: Node, g: int, o: seq<Item>, n: seq<Item>, tops: map<int, int>, last: int)
    requires g in Gens(t) && Fits(Around(t, g, o), tops, last) && Fits(n, tops, last)
    ensures NonNull(Around(t, g, o)) && NonNull(Around(t, g, n))
    ensures NonNull(o) && NonNull(n)
  {
    FitsAround(t, g, o, n, tops, last);
    FitsParts(Before(t, 0, g), [GenItem(g, Sub(t, g).id)], o, After(t, 0, g), tops, last);
    FitsParts(Before(t, 0, g), [GenItem(g, Sub(t, g).id)], n, After(t, 0, g), tops, last);
  }

  lemma SoundOne(k: Node, id: int)
    requires Under(k, id) && Sound(k)
    ensures SoundAll([k], id)
  {
    assert [k][1..] == [];
  }

  // ------------------------------------------------- the newest generation stays

  lemma TipGrows(t: Node, tops: map<int, int>, last: int, g: int, ks: seq<Node>)
    requires Kept(t, tops, last) && Tipped(t, g, last) && AllIds(ItemsAll(ks, last), last)
    ensures Tipped(SetKids(t, g, ks), g, last)
  {
    SplitSet(t, 0, g, ks);
  }

  lemma TipAddLeaf(t: Node, tops: map<int, int>, last: int, g: int, x: int)
    requires Kept(t, tops, last) && Tipped(t, g, last)
    ensures Tipped(AddKid(t, g, Leaf(x)), g, last)
  {
    KidItems(Sub(t, g).kids, Leaf(x), last);
    TipGrows(t, tops, last, g, Sub(t, g).kids + [Leaf(x)]);
  }

  lemma TipBetween(t: Node, tops: map<int, int>, last: int, g: int, child: int)
    requires Kept(t, tops, last) && Tipped(t, g, last)
    ensures Tipped(Between(t, g, child), g, last)
  {
    var k := Gen(child, last, Sub(t, g).kids);
    KidItems([], k, last);
    assert [] + [k] == [k] && Items(k, last) == [GenItem(child, last)] + ItemsAll(k.kids, last);
    TipGrows(t, tops, last, g, [k]);
  }

  lemma {:induction false} RelabelItemsAt(items: seq<Item>, a: int, b: int)
    ensures |RelabelItems(items, a, b)| == |items|
    ensures forall i :: 0 <= i < |items| ==> RelabelItems(items, a, b)[i] == RelabelItem(items[i], a, b)
    decreases items
  {
    if items != [] { RelabelItemsAt(items[1..], a, b); }
  }

  lemma {:induction false} RelabelFirstGen(items: seq<Item>, a: int, b: int, k: int)
    ensures FirstGen(RelabelItems(items, a, b), k) == FirstGen(items, k)
    decreases items
  {
    if items != [] {
      assert RelabelItems(items, a, b)[1..] == RelabelItems(items[1..], a, b);
      RelabelFirstGen(items[1..], a, b, k);
    }
  }

  lemma {:induction false} RelabelSound(t: Node, a: int, b: int)
    requires Sound(t)
    ensures Sound(Relabel(t, a, b))
    decreases t, 1
  {
    if t.Gen? { RelabelSoundAll(t.kids, t.id, a, b); }
  }

  lemma {:induction false} RelabelSoundAll(ks: seq<Node>, parent: int, a: int, b: int)
    requires SoundAll(ks, parent)
    ensures SoundAll(RelabelAll(ks, a, b), parent)
    decreases ks, 0
  {
    if ks != [] {
      assert RelabelAll(ks, a, b)[1..] == RelabelAll(ks[1..], a, b);
      RelabelSound(ks[0], a, b);
      RelabelSoundAll(ks[1..], parent, a, b);
    }
  }

  /** Changing which pages the slots point to keeps the tree's invariant. */
  lemma RelabelKept(t: Node, tops: map<int, int>, last: int, a: int, b: int)
    requires Kept(t, tops, last) && a !in Gens(t) && b !in Gens(t) && a != NULL && b != NULL
    ensures Kept(Relabel(t, a, b), tops, last)
  {
    RelabelUniq(t, a, b);
    RelabelSound(t, a, b);
    RelabelOrder(t, 0, a, b);
    RelabelItemsAt(Items(t, 0), a, b);
    forall k | k in tops ensures FirstGen(Items(Relabel(t, a, b), 0), k) == tops[k] {
      RelabelFirstGen(Items(t, 0), a, b, k);
    }
  }

  lemma RelabelTipped(t: Node, tip: int, last: int, a: int, b: int)
    requires Tipped(t, tip, last) && a !in Gens(t) && b !in Gens(t)
    ensures Tipped(Relabel(t, a, b), tip, last)
    ensures EndOf(Relabel(t, a, b), tip) == EndOf(t, tip)
    ensures After(t, 0, tip) == [] ==> After(Relabel(t, a, b), 0, tip) == []
  {
    var kids := Sub(t, tip).kids;
    RelabelSplit(t, 0, a, b, tip);
    RelabelOrderAll(kids, last, a, b);
    RelabelItemsAt(Before(t, 0, tip), a, b);
    RelabelItemsAt(After(t, 0, tip), a, b);
    RelabelItemsAt(ItemsAll(kids, last), a, b);
    RelabelPages(Before(t, 0, tip), a, b);
    RelabelPages(ItemsAll(kids, last), a, b);
  }

  // ---------------------------------------------------- members of a preorder

  lemma {:induction false} NodesInItems(t: Node, id: int, n: int)
    requires n in Nodes(t)
    ensures exists k :: (if n in Gens(t) then GenItem(n, k) else PageItem(n, k)) in Items(t, id)
    decreases t, 1
  {
    if t.at != n {
      NodesInItemsAll(t.kids, t.id, n);
    } else {
      assert Items(t, id)[0] == if t.Gen? then GenItem(n, t.id) else PageItem(n, id);
      if t.Leaf? { assert PageItem(n, id) in Items(t, id); } else { assert GenItem(n, t.id) in Items(t, id); }
    }
  }

  lemma {:induction false} NodesInItemsAll(ks: seq<Node>, id: int, n: int)
    requires n in NodesAll(ks)
    ensures exists k :: (if n in GensAll(ks) then GenItem(n, k) else PageItem(n, k)) in ItemsAll(ks, id)
    decreases ks, 0
  {
    if n in GensAll(ks) {
      var i := GenKidOf(ks, n);
      GenItemInAll(ks, id, n);
    } else if n in Nodes(ks[0]) {
      NodesInItems(ks[0], id, n);
      var k :| PageItem(n, k) in Items(ks[0], id);
      assert PageItem(n, k) in ItemsAll(ks, id);
    } else {
      NodesInItemsAll(ks[1..], id, n);
      var k :| PageItem(n, k) in ItemsAll(ks[1..], id);
      assert PageItem(n, k) in ItemsAll(ks, id);
    }
  }

  lemma {:induction false} GenItemIn(t: Node, id: int, g: int)
    requires g in Gens(t)
    ensures GenItem(g, Sub(t, g).id) in Items(t, id)
  {
    Split(t, id, g);
    assert Items(t, id)[|Before(t, id, g)|] == GenItem(g, Sub(t, g).id);
  }

  lemma {:induction false} GenItemInAll(ks: seq<Node>, id: int, g: int)
    requires g in GensAll(ks)
    ensures GenItem(g, SubAll(ks, g).id) in ItemsAll(ks, id)
  {
    SplitAll(ks, id, g);
    assert ItemsAll(ks, id)[|BeforeAll(ks, id, g)|] == GenItem(g, SubAll(ks, g).id);
  }

  lemma {:induction false} PagesMembers(items: seq<Item>, e: Entry)
    ensures e in PagesOf(items) <==> PageItem(e.loc, e.gen) in items
    decreases items
  {
    if items != [] {
      PagesMembers(items[1..], e);
      assert items == [items[0]] + items[1..];
    }
  }

  /** The pages of the last generation are those of the subtree at tip. */
  lemma TipMembers(t: Node, tip: int, last: int, x: int)
    requires Tipped(t, tip, last)
    ensures PageItem(x, last) in Items(t, 0) <==> PageItem(x, last) in Items(Sub(t, tip), 0)
    ensures GenItem(x, last) in Items(t, 0) <==> GenItem(x, last) in Items(Sub(t, tip), 0)
    ensures forall i :: 0 <= i < |Items(Sub(t, tip), 0)| ==> Items(Sub(t, tip), 0)[i].id == last
  {
    Split(t, 0, tip);
    var b, m, a := Before(t, 0, tip), Items(Sub(t, tip), 0), After(t, 0, tip);
    assert m == [GenItem(tip, last)] + ItemsAll(Sub(t, tip).kids, last);
    assert Items(t, 0) == b + m + a;
    if PageItem(x, last) in b { assert false; }
    if PageItem(x, last) in a { assert false; }
    if GenItem(x, last) in b { assert false; }
    if GenItem(x, last) in a { assert false; }
  }
}
