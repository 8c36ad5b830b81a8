/** The generation tree as a value: its preorder, its subtrees and the changes
    that the allocator makes to it. */
module Trees {
  import opened Layout
  import opened VersionStore

  /** A node at an address: a generation with its children in slot order, or a
      page. */
  datatype Node = Gen(at: int, id: int, kids: seq<Node>) | Leaf(at: int)

  /** One node of a preorder; a page carries the id of its generation. */
  datatype Item = GenItem(at: int, id: int) | PageItem(at: int, id: int)

  // ---------------------------------------------------------------- preorder

  ghost function Items(t: Node, id: int): (r: seq<Item>)
    ensures |r| > 0 && r[0].at == t.at
    ensures t.Gen? ==> r[0] == GenItem(t.at, t.id)
    decreases t, 1
  {
    match t
    case Leaf(a) => [PageItem(a, id)]
    case Gen(a, g, kids) => [GenItem(a, g)] + ItemsAll(kids, g)
  }

  ghost function ItemsAll(ks: seq<Node>, id: int): seq<Item>
    decreases ks, 0
  {
    if ks == [] then [] else Items(ks[0], id) + ItemsAll(ks[1..], id)
  }

  lemma {:induction false} ItemsConcat(a: seq<Node>, b: seq<Node>, id: int)
    ensures ItemsAll(a + b, id) == ItemsAll(a, id) + ItemsAll(b, id)
    decreases a
  {
    if a == [] {
      assert a + b == b;
    } else {
      assert (a + b)[1..] == a[1..] + b;
      ItemsConcat(a[1..], b, id);
    }
  }

  /** The pages of a preorder, as the version store lists them. */
  ghost function PagesOf(items: seq<Item>): seq<Entry> {
    if items == [] then []
    else (if items[0].PageItem? then [Entry(items[0].id, items[0].at)] else []) + PagesOf(items[1..])
  }

  lemma {:induction false} PagesConcat(a: seq<Item>, b: seq<Item>)
    ensures PagesOf(a + b) == PagesOf(a) + PagesOf(b)
    decreases a
  {
    if a == [] {
      assert a + b == b;
    } else {
      assert (a + b)[1..] == a[1..] + b;
      PagesConcat(a[1..], b);
    }
  }

  // ---------------------------------------------------------------- node sets

  ghost function Nodes(t: Node): set<int>
    decreases t, 1
  {
    match t
    case Leaf(a) => {a}
    case Gen(a, _, kids) => {a} + NodesAll(kids)
  }

  ghost function NodesAll(ks: seq<Node>): set<int>
    decreases ks, 0
  {
    if ks == [] then {} else Nodes(ks[0]) + NodesAll(ks[1..])
  }

  ghost function Gens(t: Node): set<int>
    decreases t, 1
  {
    match t
    case Leaf(a) => {}
    case Gen(a, _, kids) => {a} + GensAll(kids)
  }

  ghost function GensAll(ks: seq<Node>): set<int>
    decreases ks, 0
  {
    if ks == [] then {} else Gens(ks[0]) + GensAll(ks[1..])
  }

  lemma {:induction false} GensAreNodes(t: Node)
    ensures Gens(t) <= Nodes(t)
    decreases t, 1
  {
    if t.Gen? { GensAreNodesAll(t.kids); }
  }

  lemma {:induction false} GensAreNodesAll(ks: seq<Node>)
    ensures GensAll(ks) <= NodesAll(ks)
    decreases ks, 0
  {
    if ks != [] {
      GensAreNodes(ks[0]);
      GensAreNodesAll(ks[1..]);
    }
  }

  /** No address occurs twice: every node has exactly one place in the tree. */
  ghost predicate Uniq(t: Node)
    decreases t, 1
  {
    t.Gen? ==> t.at !in NodesAll(t.kids) && UniqAll(t.kids)
  }

  ghost predicate UniqAll(ks: seq<Node>)
    decreases ks, 0
  {
    ks == [] || (Uniq(ks[0]) && UniqAll(ks[1..]) && Nodes(ks[0]) !! NodesAll(ks[1..]))
  }

  lemma {:induction false} KidIn(ks: seq<Node>, i: nat)
    requires i < |ks|
    ensures Nodes(ks[i]) <= NodesAll(ks) && Gens(ks[i]) <= GensAll(ks)
    ensures UniqAll(ks) ==> Uniq(ks[i])
    decreases ks
  {
    if i > 0 { KidIn(ks[1..], i - 1); }
  }

  lemma {:induction false} KidsApart(ks: seq<Node>, i: nat, j: nat)
    requires UniqAll(ks) && i < j < |ks|
    ensures Nodes(ks[i]) !! Nodes(ks[j])
    decreases ks
  {
    if i == 0 { KidIn(ks[1..], j - 1); } else { KidsApart(ks[1..], i - 1, j - 1); }
  }

  lemma {:induction false} KidOf(ks: seq<Node>, n: int) returns (i: nat)
    requires n in NodesAll(ks)
    ensures i < |ks| && n in Nodes(ks[i])
    decreases ks
  {
    if n in Nodes(ks[0]) {
      i := 0;
    } else {
      i := KidOf(ks[1..], n);
      i := i + 1;
    }
  }

  lemma {:induction false} GenKidOf(ks: seq<Node>, g: int) returns (i: nat)
    requires g in GensAll(ks)
    ensures i < |ks| && g in Gens(ks[i])
    decreases ks
  {
    if g in Gens(ks[0]) {
      i := 0;
    } else {
      i := GenKidOf(ks[1..], g);
      i := i + 1;
    }
  }

  // ---------------------------------------------------------------- subtrees

  ghost function Sub(t: Node, g: int): (r: Node)
    requires g in Gens(t)
    ensures r.Gen? && r.at == g
    decreases t, 1
  {
    if t.at == g then t else SubAll(t.kids, g)
  }

  ghost function SubAll(ks: seq<Node>, g: int): (r: Node)
    requires g in GensAll(ks)
    ensures r.Gen? && r.at == g
    decreases ks, 0
  {
    if g in Gens(ks[0]) then Sub(ks[0], g) else SubAll(ks[1..], g)
  }

  /** The children of generation g replaced. */
  ghost function SetKids(t: Node, g: int, ks: seq<Node>): (r: Node)
    ensures r.at == t.at && r.Gen? == t.Gen? && (t.Gen? ==> r.id == t.id)
    decreases t, 1
  {
    if t.Leaf? then t
    else if t.at == g then Gen(g, t.id, ks)
    else Gen(t.at, t.id, SetKidsAll(t.kids, g, ks))
  }

  ghost function SetKidsAll(cs: seq<Node>, g: int, ks: seq<Node>): (r: seq<Node>)
    ensures |r| == |cs| && forall i :: 0 <= i < |cs| ==> r[i] == SetKids(cs[i], g, ks)
    decreases cs, 0
  {
    if cs == [] then [] else [SetKids(cs[0], g, ks)] + SetKidsAll(cs[1..], g, ks)
  }

  lemma {:induction false} SetKidsElsewhere(t: Node, g: int, ks: seq<Node>)
    requires g !in Gens(t)
    ensures SetKids(t, g, ks) == t
    decreases t, 1
  {
    if t.Gen? { SetKidsElsewhereAll(t.kids, g, ks); }
  }

  lemma {:induction false} SetKidsElsewhereAll(cs: seq<Node>, g: int, ks: seq<Node>)
    requires g !in GensAll(cs)
    ensures SetKidsAll(cs, g, ks) == cs
    decreases cs, 0
  {
    if cs != [] {
      SetKidsElsewhere(cs[0], g, ks);
      SetKidsElsewhereAll(cs[1..], g, ks);
    }
  }

  /** The preorder before generation g. */
  ghost function Before(t: Node, id: int, g: int): seq<Item>
    requires g in Gens(t)
    decreases t, 1
  {
    if t.at == g then [] else [GenItem(t.at, t.id)] + BeforeAll(t.kids, t.id, g)
  }

  ghost function BeforeAll(ks: seq<Node>, id: int, g: int): seq<Item>
    requires g in GensAll(ks)
    decreases ks, 0
  {
    if g in Gens(ks[0]) then Before(ks[0], id, g) else Items(ks[0], id) + BeforeAll(ks[1..], id, g)
  }

  /** The preorder after generation g and everything below it. */
  ghost function After(t: Node, id: int, g: int): seq<Item>
    requires g in Gens(t)
    decreases t, 1
  {
    if t.at == g then [] else AfterAll(t.kids, t.id, g)
  }

  ghost function AfterAll(ks: seq<Node>, id: int, g: int): seq<Item>
    requires g in GensAll(ks)
    decreases ks, 0
  {
    if g in Gens(ks[0]) then After(ks[0], id, g) + ItemsAll(ks[1..], id) else AfterAll(ks[1..], id, g)
  }

  /** A preorder around generation g. */
  ghost predicate Splits(items: seq<Item>, pre: seq<Item>, g: int, id: int, ks: seq<Node>, post: seq<Item>) {
    items == pre + ([GenItem(g, id)] + ItemsAll(ks, id)) + post
  }

  lemma {:induction false} Split(t: Node, id: int, g: int)
    requires g in Gens(t)
    ensures Splits(Items(t, id), Before(t, id, g), g, Sub(t, g).id, Sub(t, g).kids, After(t, id, g))
    decreases t, 1
  {
    if t.at != g {
      SplitAll(t.kids, t.id, g);
    }
  }

  lemma {:induction false} SplitAll(ks: seq<Node>, id: int, g: int)
    requires g in GensAll(ks)
    ensures Splits(ItemsAll(ks, id), BeforeAll(ks, id, g), g, SubAll(ks, g).id, SubAll(ks, g).kids, AfterAll(ks, id, g))
    decreases ks, 0
  {
    if g in Gens(ks[0]) { Split(ks[0], id, g); } else { SplitAll(ks[1..], id, g); }
  }

  /** Changing the children of g changes nothing of the preorder around it. */
  lemma {:induction false} SplitSet(t: Node, id: int, g: int, ks: seq<Node>)
    requires g in Gens(t) && Uniq(t)
    ensures var t' := SetKids(t, g, ks);
            && g in Gens(t') && Sub(t', g) == Gen(g, Sub(t, g).id, ks)
            && Before(t', id, g) == Before(t, id, g) && After(t', id, g) == After(t, id, g)
            && Splits(Items(t', id), Before(t, id, g), g, Sub(t, g).id, ks, After(t, id, g))
    decreases t, 1
  {
    if t.at != g {
      SplitSetAll(t.kids, t.id, g, ks);
    }
  }

  lemma {:induction false} SplitSetAll(cs: seq<Node>, id: int, g: int, ks: seq<Node>)
    requires g in GensAll(cs) && UniqAll(cs)
    ensures var cs' := SetKidsAll(cs, g, ks);
            && g in GensAll(cs') && SubAll(cs', g) == Gen(g, SubAll(cs, g).id, ks)
            && BeforeAll(cs', id, g) == BeforeAll(cs, id, g) && AfterAll(cs', id, g) == AfterAll(cs, id, g)
            && Splits(ItemsAll(cs', id), BeforeAll(cs, id, g), g, SubAll(cs, g).id, ks, AfterAll(cs, id, g))
    decreases cs, 0
  {
    var cs' := SetKidsAll(cs, g, ks);
    assert cs'[1..] == SetKidsAll(cs[1..], g, ks);
    if g in Gens(cs[0]) {
      SplitSet(cs[0], id, g, ks);
      GensAreNodes(cs[0]);
      GensAreNodesAll(cs[1..]);
      SetKidsElsewhereAll(cs[1..], g, ks);
    } else {
      SplitSetAll(cs[1..], id, g, ks);
      SetKidsElsewhere(cs[0], g, ks);
    }
  }

  lemma {:induction false} SubIn(t: Node, g: int)
    requires g in Gens(t)
    ensures NodesAll(Sub(t, g).kids) <= Nodes(t) && GensAll(Sub(t, g).kids) <= Gens(t)
    ensures Uniq(t) ==> Uniq(Sub(t, g))
    decreases t, 1
  {
    if t.at != g { SubInAll(t.kids, g); }
  }

  lemma {:induction false} SubInAll(ks: seq<Node>, g: int)
    requires g in GensAll(ks)
    ensures NodesAll(SubAll(ks, g).kids) <= NodesAll(ks) && GensAll(SubAll(ks, g).kids) <= GensAll(ks)
    ensures UniqAll(ks) ==> Uniq(SubAll(ks, g))
    decreases ks, 0
  {
    if g in Gens(ks[0]) { SubIn(ks[0], g); } else { SubInAll(ks[1..], g); }
  }

  lemma {:induction false} SetKidsNodes(t: Node, g: int, ks: seq<Node>)
    requires g in Gens(t) && Uniq(t)
    ensures Nodes(SetKids(t, g, ks)) == Nodes(t) - NodesAll(Sub(t, g).kids) + NodesAll(ks)
    ensures Gens(SetKids(t, g, ks)) == Gens(t) - GensAll(Sub(t, g).kids) + GensAll(ks)
    decreases t, 1
  {
    SubIn(t, g);
    GensAreNodes(t);
    if t.Gen? { GensAreNodesAll(t.kids); }
    if t.at != g {
      SubInAll(t.kids, g);
      GensAreNodesAll(SubAll(t.kids, g).kids);
      SetKidsNodesAll(t.kids, g, ks);
    }
  }

  lemma {:induction false} SetKidsNodesAll(cs: seq<Node>, g: int, ks: seq<Node>)
    requires g in GensAll(cs) && UniqAll(cs)
    ensures NodesAll(SetKidsAll(cs, g, ks)) == NodesAll(cs) - NodesAll(SubAll(cs, g).kids) + NodesAll(ks)
    ensures GensAll(SetKidsAll(cs, g, ks)) == GensAll(cs) - GensAll(SubAll(cs, g).kids) + GensAll(ks)
    decreases cs, 0
  {
    var cs' := SetKidsAll(cs, g, ks);
    assert cs'[1..] == SetKidsAll(cs[1..], g, ks);
    GensAreNodes(cs[0]);
    GensAreNodesAll(cs[1..]);
    if g in Gens(cs[0]) {
      SubIn(cs[0], g);
      GensAreNodesAll(Sub(cs[0], g).kids);
      SetKidsNodes(cs[0], g, ks);
      SetKidsElsewhereAll(cs[1..], g, ks);
    } else {
      SubInAll(cs[1..], g);
      GensAreNodesAll(SubAll(cs[1..], g).kids);
      SetKidsNodesAll(cs[1..], g, ks);
      SetKidsElsewhere(cs[0], g, ks);
    }
  }

  lemma {:induction false} SetKidsUniq(t: Node, g: int, ks: seq<Node>)
    requires g in Gens(t) && Uniq(t) && UniqAll(ks)
    requires NodesAll(ks) !! Nodes(t) - NodesAll(Sub(t, g).kids)
    ensures Uniq(SetKids(t, g, ks))
    decreases t, 1
  {
    SubIn(t, g);
    GensAreNodes(t);
    if t.at != g {
      SubInAll(t.kids, g);
      SetKidsNodesAll(t.kids, g, ks);
      SetKidsUniqAll(t.kids, g, ks);
    }
  }

  lemma {:induction false} SetKidsUniqAll(cs: seq<Node>, g: int, ks: seq<Node>)
    requires g in GensAll(cs) && UniqAll(cs) && UniqAll(ks)
    requires NodesAll(ks) !! NodesAll(cs) - NodesAll(SubAll(cs, g).kids)
    ensures UniqAll(SetKidsAll(cs, g, ks))
    decreases cs, 0
  {
    var cs' := SetKidsAll(cs, g, ks);
    assert cs'[1..] == SetKidsAll(cs[1..], g, ks);
    if g in Gens(cs[0]) {
      SubIn(cs[0], g);
      SetKidsNodes(cs[0], g, ks);
      SetKidsUniq(cs[0], g, ks);
      GensAreNodes(cs[0]);
      GensAreNodesAll(cs[1..]);
      SetKidsElsewhereAll(cs[1..], g, ks);
    } else {
      SubInAll(cs[1..], g);
      SetKidsNodesAll(cs[1..], g, ks);
      SetKidsUniqAll(cs[1..], g, ks);
      SetKidsElsewhere(cs[0], g, ks);
    }
  }

  // ---------------------------------------------------------------- relabelling

  /** The leaves a and b exchanged. */
  ghost function Relabel(t: Node, a: int, b: int): (r: Node)
    ensures r.Gen? == t.Gen? && (t.Gen? ==> r.at == t.at && r.id == t.id && |r.kids| == |t.kids|)
    decreases t, 1
  {
    match t
    case Leaf(x) => Leaf(Other(x, a, b))
    case Gen(x, id, kids) => Gen(x, id, RelabelAll(kids, a, b))
  }

  ghost function RelabelAll(ks: seq<Node>, a: int, b: int): (r: seq<Node>)
    ensures |r| == |ks| && forall i :: 0 <= i < |ks| ==> r[i] == Relabel(ks[i], a, b)
    decreases ks, 0
  {
    if ks == [] then [] else [Relabel(ks[0], a, b)] + RelabelAll(ks[1..], a, b)
  }

  ghost function RelabelItem(x: Item, a: int, b: int): Item {
    if x.PageItem? then PageItem(Other(x.at, a, b), x.id) else x
  }

  ghost function RelabelItems(items: seq<Item>, a: int, b: int): seq<Item>
    decreases items
  {
    if items == [] then [] else [RelabelItem(items[0], a, b)] + RelabelItems(items[1..], a, b)
  }

  lemma {:induction false} RelabelItemsConcat(x: seq<Item>, y: seq<Item>, a: int, b: int)
    ensures RelabelItems(x + y, a, b) == RelabelItems(x, a, b) + RelabelItems(y, a, b)
    decreases x
  {
    if x == [] {
      assert x + y == y;
    } else {
      assert (x + y)[1..] == x[1..] + y;
      RelabelItemsConcat(x[1..], y, a, b);
    }
  }

  lemma {:induction false} RelabelOrder(t: Node, id: int, a: int, b: int)
    ensures Items(Relabel(t, a, b), id) == RelabelItems(Items(t, id), a, b)
    decreases t, 1
  {
    if t.Gen? {
      RelabelOrderAll(t.kids, t.id, a, b);
      RelabelItemsConcat([GenItem(t.at, t.id)], ItemsAll(t.kids, t.id), a, b);
      assert [GenItem(t.at, t.id)][1..] == [];
    } else {
      assert [PageItem(t.at, id)][1..] == [];
    }
  }

  lemma {:induction false} RelabelOrderAll(ks: seq<Node>, id: int, a: int, b: int)
    ensures ItemsAll(RelabelAll(ks, a, b), id) == RelabelItems(ItemsAll(ks, id), a, b)
    decreases ks, 0
  {
    if ks != [] {
      var ks' := RelabelAll(ks, a, b);
      assert ks'[1..] == RelabelAll(ks[1..], a, b);
      RelabelOrder(ks[0], id, a, b);
      RelabelOrderAll(ks[1..], id, a, b);
      RelabelItemsConcat(Items(ks[0], id), ItemsAll(ks[1..], id), a, b);
    }
  }

  /** Relabelling the tree exchanges the locations of the version store. */
  lemma {:induction false} RelabelPages(items: seq<Item>, a: int, b: int)
    ensures PagesOf(RelabelItems(items, a, b)) == Exchange(PagesOf(items), a, b)
    decreases items
  {
    if items == [] {
    } else {
      var rest := items[1..];
      RelabelPages(rest, a, b);
      var items' := RelabelItems(items, a, b);
      assert items'[1..] == RelabelItems(rest, a, b);
      if items[0].PageItem? {
        assert PagesOf(items) == [Entry(items[0].id, items[0].at)] + PagesOf(rest);
        assert PagesOf(items') == Exchange(PagesOf(items), a, b);
      }
    }
  }

  lemma {:induction false} RelabelNodes(t: Node, a: int, b: int)
    requires a !in Gens(t) && b !in Gens(t)
    ensures Gens(Relabel(t, a, b)) == Gens(t)
    ensures forall n :: n in Nodes(Relabel(t, a, b)) <==> Other(n, a, b) in Nodes(t)
    decreases t, 1
  {
    if t.Gen? { RelabelNodesAll(t.kids, a, b); }
  }

  lemma {:induction false} RelabelNodesAll(ks: seq<Node>, a: int, b: int)
    requires a !in GensAll(ks) && b !in GensAll(ks)
    ensures GensAll(RelabelAll(ks, a, b)) == GensAll(ks)
    ensures forall n :: n in NodesAll(RelabelAll(ks, a, b)) <==> Other(n, a, b) in NodesAll(ks)
    decreases ks, 0
  {
    if ks != [] {
      assert RelabelAll(ks, a, b)[1..] == RelabelAll(ks[1..], a, b);
      RelabelNodes(ks[0], a, b);
      RelabelNodesAll(ks[1..], a, b);
    }
  }

  lemma {:induction false} RelabelUniq(t: Node, a: int, b: int)
    requires Uniq(t) && a !in Gens(t) && b !in Gens(t)
    ensures Uniq(Relabel(t, a, b))
    decreases t, 1
  {
    if t.Gen? {
      RelabelNodesAll(t.kids, a, b);
      RelabelUniqAll(t.kids, a, b);
    }
  }

  lemma {:induction false} RelabelUniqAll(ks: seq<Node>, a: int, b: int)
    requires UniqAll(ks) && a !in GensAll(ks) && b !in GensAll(ks)
    ensures UniqAll(RelabelAll(ks, a, b))
    decreases ks, 0
  {
    if ks != [] {
      assert RelabelAll(ks, a, b)[1..] == RelabelAll(ks[1..], a, b);
      RelabelNodes(ks[0], a, b);
      RelabelNodesAll(ks[1..], a, b);
      RelabelUniq(ks[0], a, b);
      RelabelUniqAll(ks[1..], a, b);
      forall n | n in Nodes(Relabel(ks[0], a, b)) ensures n !in NodesAll(RelabelAll(ks[1..], a, b)) {
        assert Other(n, a, b) in Nodes(ks[0]);
      }
    }
  }

  /** Relabelling leaves every subtree in its place. */
  lemma {:induction false} RelabelSplit(t: Node, id: int, a: int, b: int, g: int)
    requires a !in Gens(t) && b !in Gens(t) && g in Gens(t)
    ensures var t' := Relabel(t, a, b);
            && g in Gens(t') && Sub(t', g) == Relabel(Sub(t, g), a, b)
            && Before(t', id, g) == RelabelItems(Before(t, id, g), a, b)
            && After(t', id, g) == RelabelItems(After(t, id, g), a, b)
    decreases t, 1
  {
    RelabelNodes(t, a, b);
    if t.at != g {
      RelabelSplitAll(t.kids, t.id, a, b, g);
      RelabelItemsConcat([GenItem(t.at, t.id)], BeforeAll(t.kids, t.id, g), a, b);
      assert [GenItem(t.at, t.id)][1..] == [];
    }
  }

  lemma {:induction false} RelabelSplitAll(ks: seq<Node>, id: int, a: int, b: int, g: int)
    requires a !in GensAll(ks) && b !in GensAll(ks) && g in GensAll(ks)
    ensures var ks' := RelabelAll(ks, a, b);
            && g in GensAll(ks') && SubAll(ks', g) == Relabel(SubAll(ks, g), a, b)
            && BeforeAll(ks', id, g) == RelabelItems(BeforeAll(ks, id, g), a, b)
            && AfterAll(ks', id, g) == RelabelItems(AfterAll(ks, id, g), a, b)
    decreases ks, 0
  {
    RelabelNodesAll(ks, a, b);
    assert RelabelAll(ks, a, b)[1..] == RelabelAll(ks[1..], a, b);
    RelabelNodes(ks[0], a, b);
    if g in Gens(ks[0]) {
      RelabelSplit(ks[0], id, a, b, g);
      RelabelOrderAll(ks[1..], id, a, b);
      RelabelItemsConcat(After(ks[0], id, g), ItemsAll(ks[1..], id), a, b);
    } else {
      RelabelSplitAll(ks[1..], id, a, b, g);
      RelabelOrder(ks[0], id, a, b);
      RelabelItemsConcat(Items(ks[0], id), BeforeAll(ks[1..], id, g), a, b);
    }
  }
}
