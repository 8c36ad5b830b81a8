/** The version store: which page versions exist, in tree order, and what stands
    at every location. The steps are those of the allocator, seen without the
    shape of the tree and without addresses of generations. */
module VersionStore {
  import opened Layout
  import opened Pages

  /** A page of generation `gen` that stands at location `loc`. */
  datatype Entry = Entry(gen: int, loc: int)

  /** `order` lists the tree's pages in preorder, `mem` the pages by location.
      The generations are given by their ids. */
  datatype Store = Store(order: seq<Entry>, mem: map<int, Page>, working: int, committed: int, last: int)

  predicate Mutating(s: Store) { s.working != s.committed }

  // ---------------------------------------------------------------- invariant

  ghost predicate Located(order: seq<Entry>, mem: map<int, Page>) {
    forall i :: 0 <= i < |order| ==> order[i].loc in mem
  }

  ghost predicate Distinct(order: seq<Entry>) {
    forall i, j :: 0 <= i < j < |order| ==> order[i].loc != order[j].loc
  }

  function Real(s: Store, i: int): int
    requires 0 <= i < |s.order| && s.order[i].loc in s.mem
  {
    s.mem[s.order[i].loc].realAddr
  }

  /** Every page has its real address below it or is at home there, and the page
      at the real address is at home and of the same size. */
  ghost predicate Homed(mem: map<int, Page>) {
    forall a :: a in mem ==> HomedAt(mem, a)
  }

  ghost predicate HomedAt(mem: map<int, Page>, a: int)
    requires a in mem
  {
    var r := mem[a].realAddr;
    r in mem && mem[r].realAddr == r && mem[r].pages == mem[a].pages && r <= a
  }

  ghost predicate OnePerGeneration(s: Store)
    requires Located(s.order, s.mem)
  {
    forall i, j :: 0 <= i < j < |s.order| && s.order[i].gen == s.order[j].gen ==> Real(s, i) != Real(s, j)
  }

  /** The commit bit is clear exactly in the pages of the working generation. */
  ghost predicate Bits(s: Store)
    requires Located(s.order, s.mem)
  {
    forall i :: 0 <= i < |s.order| ==>
      && s.order[i].gen <= s.last
      && (s.mem[s.order[i].loc].committed <==> !(Mutating(s) && s.order[i].gen == s.working))
  }

  ghost predicate WorkingAtHome(s: Store)
    requires Located(s.order, s.mem)
  {
    Mutating(s) ==> forall i :: 0 <= i < |s.order| && s.order[i].gen == s.working ==> Real(s, i) == s.order[i].loc
  }

  ghost predicate AllTiled(mem: map<int, Page>) {
    forall a :: a in mem ==> Tiled(mem[a], a)
  }

  ghost predicate Inv(s: Store) {
    && Located(s.order, s.mem) && Distinct(s.order)
    && Homed(s.mem) && AllTiled(s.mem)
    && OnePerGeneration(s) && Bits(s) && WorkingAtHome(s)
    && s.committed <= s.last && s.working <= s.last
    && (Mutating(s) ==> s.working == s.last)
  }

  // ---------------------------------------------------------------- steps

  datatype Step =
    | Begin                                 // snap_begin_mut
    | Trap(a: int, copy: int, j: nat)      // handle_segv on the page at a
    | Write(a: int, p: Page)                // a write into a page of the working generation
    | Leak(a: int, p: Page)                 // a write into a committed page at home that was not trapped
    | NewPage(at: int, n: int, j: nat)   // a page of n physical pages for the working generation
    | Commit                                // snap_commit
    | Checkout(k: int, swaps: seq<int>)     // snap_checkout, swapping the pages at these locations home

  /** A write of p over the page that stands at a: it leaks if that is committed. */
  function WriteStep(was: Page, a: int, p: Page): Step {
    if was.committed then Leak(a, p) else Write(a, p)
  }

  function Other(x: int, a: int, b: int): int {
    if x == a then b else if x == b then a else x
  }

  /** The two tree pointers a and b exchanged. */
  function Exchange(order: seq<Entry>, a: int, b: int): (r: seq<Entry>)
    ensures |r| == |order|
  {
    seq(|order|, i requires 0 <= i < |order| => Entry(order[i].gen, Other(order[i].loc, a, b)))
  }

  function Insert(order: seq<Entry>, j: nat, e: Entry): seq<Entry>
    requires j <= |order|
  {
    order[..j] + [e] + order[j..]
  }

  /** page_copy, with the pointer to page a changed to the copy. */
  function Relocate(s: Store, a: int, copy: int): Store
    requires a in s.mem
  {
    s.(order := Exchange(s.order, a, copy), mem := s.mem[copy := Moved(s.mem[a], copy - a)])
  }

  /** The working generation gets page p at loc, as entry j of the order. */
  function Adopt(s: Store, j: nat, loc: int, p: Page): Store
    requires j <= |s.order|
  {
    s.(order := Insert(s.order, j, Entry(s.working, loc)), mem := s.mem[loc := p])
  }

  /** page_swap together with the exchange of the two tree pointers. */
  function SwapHome(s: Store, a: int): Store {
    if a in s.mem && s.mem[a].realAddr in s.mem then
      var r := s.mem[a].realAddr;
      s.(order := Exchange(s.order, a, r),
         mem := s.mem[a := Moved(s.mem[r], a - r)][r := Moved(s.mem[a], r - a)])
    else s
  }

  function SwapsHome(s: Store, swaps: seq<int>): Store {
    if swaps == [] then s else SwapHome(SwapsHome(s, swaps[..|swaps| - 1]), swaps[|swaps| - 1])
  }

  /** The last version of its page among the generations up to k. */
  ghost predicate Selected(s: Store, k: int, i: int)
    requires Located(s.order, s.mem)
  {
    && 0 <= i < |s.order| && s.order[i].gen <= k
    && forall j :: i < j < |s.order| && s.order[j].gen <= k ==> Real(s, j) != Real(s, i)
  }

  /** Every version that checkout selects for k stands at its real address. */
  ghost predicate StandsHome(s: Store, k: int)
    requires Located(s.order, s.mem)
  {
    forall i :: Selected(s, k, i) ==> s.order[i].loc == Real(s, i)
  }

  /** The step l leads from s to s'. */
  ghost predicate Taken(s: Store, l: Step, s': Store) {
    match l
    case Begin =>
      !Mutating(s) && s' == s.(working := s.last + 1, last := s.last + 1)
    case Trap(a, copy, j) =>
      && Mutating(s) && j <= |s.order|
      && a in s.mem && s.mem[a].realAddr == a && s.mem[a].committed
      && copy !in s.mem && a < copy
      && s' == Adopt(Relocate(s, a, copy), j, a, s.mem[a].(committed := false))
    case Write(a, p) =>
      && Mutating(s) && a in s.mem && !s.mem[a].committed
      && Grows(s.mem[a], p) && Tiled(p, a)
      && s' == s.(mem := s.mem[a := p])
    case Leak(a, p) =>
      && Mutating(s) && a in s.mem && s.mem[a].committed && s.mem[a].realAddr == a
      && Grows(s.mem[a], p) && Tiled(p, a)
      && s' == s.(mem := s.mem[a := p])
    case NewPage(at, n, j) =>
      && Mutating(s) && j <= |s.order| && at !in s.mem && Tiled(FreshPage(at, n), at)
      && s' == Adopt(s, j, at, FreshPage(at, n))
    case Commit =>
      && Mutating(s)
      && s' == s.(mem := map a | a in s.mem :: s.mem[a].(committed := true), committed := s.working)
    case Checkout(k, swaps) =>
      && !Mutating(s) && k <= s.last
      && if k == s.committed then s' == s
         else && s' == SwapsHome(s, swaps).(working := k, committed := k)
              && Located(s'.order, s'.mem) && StandsHome(s', k)
  }

  /** The step extends a linear history: mutations begin at the newest generation
      and their pages are the last of the tree. */
  predicate Extends(s: Store, l: Step) {
    match l
    case Begin => s.committed == s.last
    case Trap(_, _, j) => j == |s.order|
    case NewPage(_, _, j) => j == |s.order|
    case _ => true
  }

  ghost predicate Run(s: Store, ls: seq<Step>, s': Store)
    decreases ls
  {
    if ls == [] then s' == s
    else exists m :: Taken(s, ls[0], m) && Run(m, ls[1..], s')
  }

  /** The pages that the steps add stand next to each other: the first at place e of the
      order, each next one behind it, and the place behind the last one is e'. */
  predicate Stacked(e: int, ls: seq<Step>, e': int)
    decreases ls
  {
    if ls == [] then e' == e
    else if ls[0].Trap? || ls[0].NewPage? then ls[0].j == e && Stacked(e + 1, ls[1..], e')
    else Stacked(e, ls[1..], e')
  }

  lemma {:induction false} StackedJoin(e: int, a: seq<Step>, m: int, b: seq<Step>, e': int)
    requires Stacked(e, a, m) && Stacked(m, b, e')
    ensures Stacked(e, a + b, e')
    decreases a
  {
    if a == [] {
      assert a + b == b;
    } else {
      assert (a + b)[0] == a[0] && (a + b)[1..] == a[1..] + b;
      StackedJoin(if a[0].Trap? || a[0].NewPage? then e + 1 else e, a[1..], m, b, e');
    }
  }

  lemma StackedOne(e: int, l: Step, e': int)
    ensures Stacked(e, [l], e') <==> if l.Trap? || l.NewPage? then l.j == e && e' == e + 1 else e' == e
  {
    assert [l][1..] == [];
  }

  // ------------------------------------------------- steps keep the invariant

  /** Two stores with the same entries up to locations, whose pages have the same
      real addresses, sizes and commit bits. */
  ghost predicate Matches(s: Store, s': Store)
    requires Located(s.order, s.mem)
  {
    && s'.(order := s.order, mem := s.mem) == s
    && |s'.order| == |s.order| && Located(s'.order, s'.mem)
    && forall i :: 0 <= i < |s.order| ==>
         && s'.order[i].gen == s.order[i].gen && Real(s', i) == Real(s, i)
         && s'.mem[s'.order[i].loc].committed == s.mem[s.order[i].loc].committed
  }

  lemma MatchKeeps(s: Store, s': Store)
    requires Inv(s) && Matches(s, s')
    requires Distinct(s'.order) && Homed(s'.mem) && AllTiled(s'.mem)
    requires Mutating(s) ==> forall i :: 0 <= i < |s.order| && s.order[i].gen == s.working ==> s'.order[i].loc == s.order[i].loc
    ensures Inv(s')
  {
    assert OnePerGeneration(s') by {
      forall i, j | 0 <= i < j < |s'.order| && s'.order[i].gen == s'.order[j].gen ensures Real(s', i) != Real(s', j) {
        assert s.order[i].gen == s.order[j].gen;
      }
    }
  }

  lemma ExchangeDistinct(order: seq<Entry>, a: int, b: int)
    requires Distinct(order)
    ensures Distinct(Exchange(order, a, b))
  {
  }

  lemma HomedCopy(mem: map<int, Page>, a: int, copy: int, p: Page)
    requires Homed(mem) && a in mem && mem[a].realAddr == a && copy !in mem && a < copy
    requires p.realAddr == a && p.pages == mem[a].pages
    ensures Homed(mem[copy := p])
  {
    var mem' := mem[copy := p];
    forall b | b in mem' ensures HomedAt(mem', b) {
      if b != copy { assert HomedAt(mem, b); }
    }
  }

  lemma RelocateKeeps(s: Store, a: int, copy: int)
    requires Inv(s) && a in s.mem && s.mem[a].realAddr == a && s.mem[a].committed
    requires copy !in s.mem && a < copy
    ensures Inv(Relocate(s, a, copy))
    ensures forall i :: 0 <= i < |s.order| ==> Relocate(s, a, copy).order[i].loc != a
    ensures Matches(s, Relocate(s, a, copy))
  {
    var s' := Relocate(s, a, copy);
    HomedCopy(s.mem, a, copy, s'.mem[copy]);
    ExchangeDistinct(s.order, a, copy);
    assert AllTiled(s'.mem) by { MovedTiled(s.mem[a], a, copy); }
    assert Matches(s, s');
    MatchKeeps(s, s');
  }

  lemma HomedWith(mem: map<int, Page>, loc: int, p: Page)
    requires Homed(mem) && p.realAddr == loc && (loc in mem ==> mem[loc].realAddr == loc && mem[loc].pages == p.pages)
    ensures Homed(mem[loc := p])
  {
    var mem' := mem[loc := p];
    forall a | a in mem' ensures HomedAt(mem', a) {
      if a != loc { assert HomedAt(mem, a); }
    }
  }

  lemma AdoptKeeps(s: Store, j: nat, loc: int, p: Page)
    requires Inv(s) && j <= |s.order|
    requires forall i :: 0 <= i < |s.order| ==> s.order[i].loc != loc
    requires forall i :: 0 <= i < |s.order| && s.order[i].gen == s.working ==> Real(s, i) != loc
    requires p.realAddr == loc && (p.committed <==> !Mutating(s)) && Tiled(p, loc)
    requires loc in s.mem ==> s.mem[loc].realAddr == loc && s.mem[loc].pages == p.pages
    ensures Inv(Adopt(s, j, loc, p))
  {
    var s' := Adopt(s, j, loc, p);
    HomedWith(s.mem, loc, p);
    forall i | 0 <= i < |s'.order|
      ensures s'.order[i].loc in s'.mem
      ensures i != j ==> s'.order[i] == s.order[if i < j then i else i - 1]
      ensures i != j ==> Real(s', i) == Real(s, if i < j then i else i - 1)
    {}
    assert Located(s'.order, s'.mem);
    forall i1, i2 | 0 <= i1 < i2 < |s'.order|
      ensures s'.order[i1].loc != s'.order[i2].loc
      ensures s'.order[i1].gen == s'.order[i2].gen ==> Real(s', i1) != Real(s', i2)
    {
      var k1, k2 := if i1 < j then i1 else i1 - 1, if i2 < j then i2 else i2 - 1;
      if i1 != j && i2 != j { assert k1 < k2; }
    }
  }

  /** Locations, homes and sizes as before. */
  lemma HomedSame(mem: map<int, Page>, mem': map<int, Page>)
    requires Homed(mem) && mem'.Keys == mem.Keys
    requires forall a :: a in mem ==> mem'[a].realAddr == mem[a].realAddr && mem'[a].pages == mem[a].pages
    ensures Homed(mem')
  {
    forall a | a in mem' ensures HomedAt(mem', a) { assert HomedAt(mem, a); }
  }

  /** A write into a page that keeps its layout, whatever page it is. */
  lemma PokeKeeps(s: Store, a: int, p: Page)
    requires Inv(s) && a in s.mem && Grows(s.mem[a], p) && Tiled(p, a)
    ensures Inv(s.(mem := s.mem[a := p]))
  {
    var s' := s.(mem := s.mem[a := p]);
    HomedSame(s.mem, s'.mem);
    assert Matches(s, s');
    MatchKeeps(s, s');
  }

  lemma CommitKeeps(s: Store, s': Store)
    requires Inv(s) && Taken(s, Commit, s')
    ensures Inv(s')
  {
    HomedSame(s.mem, s'.mem);
    assert forall i :: 0 <= i < |s.order| ==> Real(s', i) == Real(s, i);
    forall a | a in s'.mem ensures Tiled(s'.mem[a], a) { BitTiled(s.mem[a], a, true); }
  }

  lemma SwapHomeKeeps(s: Store, a: int)
    requires Inv(s) && !Mutating(s)
    ensures Inv(SwapHome(s, a)) && Matches(s, SwapHome(s, a)) && SwapHome(s, a).mem.Keys == s.mem.Keys
    ensures forall b :: b in s.mem ==>
              SwapHome(s, a).mem[b].realAddr == s.mem[b].realAddr && SwapHome(s, a).mem[b].pages == s.mem[b].pages
  {
    if a in s.mem && s.mem[a].realAddr in s.mem {
      var r := s.mem[a].realAddr;
      var s' := SwapHome(s, a);
      ExchangeDistinct(s.order, a, r);
      assert AllTiled(s'.mem) by {
        MovedTiled(s.mem[a], a, r);
        MovedTiled(s.mem[r], r, a);
      }
      assert HomedAt(s.mem, a);
      HomedSame(s.mem, s'.mem);
      assert Matches(s, s');
      MatchKeeps(s, s');
    }
  }

  lemma {:induction false} SwapsHomeKeep(s: Store, swaps: seq<int>)
    requires Inv(s) && !Mutating(s)
    ensures var s' := SwapsHome(s, swaps);
            && Inv(s') && Matches(s, s') && s'.mem.Keys == s.mem.Keys
            && (forall b :: b in s.mem ==> s'.mem[b].realAddr == s.mem[b].realAddr && s'.mem[b].pages == s.mem[b].pages)
  {
    if swaps != [] {
      SwapsHomeKeep(s, swaps[..|swaps| - 1]);
      SwapHomeKeeps(SwapsHome(s, swaps[..|swaps| - 1]), swaps[|swaps| - 1]);
    }
  }

  /** Every step keeps the invariant of the version store. */
  lemma StepKeeps(s: Store, l: Step, s': Store)
    requires Inv(s) && Taken(s, l, s')
    ensures Inv(s')
  {
    match l
    case Begin =>
    case Trap(a, copy, j) =>
      RelocateKeeps(s, a, copy);
      BitTiled(s.mem[a], a, false);
      AdoptKeeps(Relocate(s, a, copy), j, a, s.mem[a].(committed := false));
    case Write(a, p) => PokeKeeps(s, a, p);
    case Leak(a, p) => PokeKeeps(s, a, p);
    case NewPage(at, n, j) => AdoptKeeps(s, j, at, FreshPage(at, n));
    case Commit => CommitKeeps(s, s');
    case Checkout(k, swaps) => SwapsHomeKeep(s, swaps);
  }
}
