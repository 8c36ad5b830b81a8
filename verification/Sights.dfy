/** What the interpreter sees of the heap, and what each of its operations does to that. */
module Sights {
  import opened Layout
  import opened Pages
  import opened VersionStore
  import opened Guards

  /** The pages at home. The commit bit is nothing that the interpreter sees. */
  function Sight(pages: map<int, Page>): map<int, Page> {
    map a | a in pages && pages[a].realAddr == a :: pages[a].(committed := false)
  }

  /** Segment i of the page at a exists. */
  predicate At(m: map<int, Page>, a: int, i: int) {
    a in m && 0 <= i < |m[a].c| && i < |m[a].segs|
  }

  lemma SightAt(pages: map<int, Page>, a: int, i: int)
    ensures At(Sight(pages), a, i) <==> At(pages, a, i) && pages[a].realAddr == a
    ensures At(Sight(pages), a, i) ==>
              && Sight(pages)[a].segs == pages[a].segs && Sight(pages)[a].c == pages[a].c && Sight(pages)[a].pages == pages[a].pages
  {
  }

  /** Segment i of the page at a reads s, and nothing else has changed. */
  ghost predicate Reads(m: map<int, Page>, a: int, i: int, s: Segment, m': map<int, Page>) {
    At(m, a, i) && m' == m[a := m[a].(segs := m[a].segs[i := s])]
  }

  /** A used segment with the given data was cut from the page at a, right below its last
      segment, and nothing else has changed. The page is fresh if there was none. */
  ghost predicate Cuts(m: map<int, Page>, a: int, data: seq<Byte>, m': map<int, Page>) {
    var p := if a in m then m[a] else FreshPage(a, |data| / PAGE_SIZE + 1);
    && |p.c| == |p.segs|
    && var c := Top(p, a, |p.c|) - |data| - SEGMENT_HEADER;
       m' == m[a := p.(c := p.c + [c], segs := p.segs + [Segment(true, |data|, data)])]
  }

  // ------------------------------------------------------------ operations

  /** What the interpreter can do. Pointers are given by page and segment; `junk` is
      what fresh memory holds. */
  datatype Op =
    | Alloc(junk: seq<Byte>)
    | Resize(a: int, i: int, junk: seq<Byte>)
    | Release(a: int, i: int)
    | Put(a: int, i: int, o: int, v: Byte)

  function Least(x: int, y: int): int { if x < y then x else y }

  /** A payload of n bytes that starts with what segment i of the page at a held was cut
      from some page, and that segment is free. */
  ghost predicate Moves(m: map<int, Page>, a: int, i: int, n: nat, b: int, data: seq<Byte>, m1: map<int, Page>, m': map<int, Page>) {
    && At(m, a, i) && Cuts(m, b, data, m1) && |data| == n
    && (var was := m[a].segs[i].data; data[..Least(|was|, n)] == was[..Least(|was|, n)])
    && Reads(m1, a, i, m[a].segs[i].(used := false), m')
  }

  /** The effect of one operation. */
  ghost predicate Performs(m: map<int, Page>, op: Op, m': map<int, Page>) {
    match op
    case Alloc(junk) => if |junk| == 0 then m' == m else exists a :: Cuts(m, a, junk, m')
    case Resize(a, i, junk) =>
      && At(m, a, i) && m[a].segs[i].used
      && if |junk| == 0 then Reads(m, a, i, m[a].segs[i].(used := false), m')
         else exists b, data, m1 :: Moves(m, a, i, |junk|, b, data, m1, m')
    case Release(a, i) => At(m, a, i) && m[a].segs[i].used && Reads(m, a, i, m[a].segs[i].(used := false), m')
    case Put(a, i, o, v) =>
      && At(m, a, i) && 0 <= o < |m[a].segs[i].data|
      && Reads(m, a, i, m[a].segs[i].(data := m[a].segs[i].data[o := v]), m')
  }

  /** The operations take effect one after the other. */
  ghost predicate Performed(m: map<int, Page>, ops: seq<Op>, m': map<int, Page>)
    decreases ops
  {
    if ops == [] then m' == m
    else exists x :: Performs(m, ops[0], x) && Performed(x, ops[1..], m')
  }

  lemma {:induction false} PerformedJoin(m: map<int, Page>, a: seq<Op>, x: map<int, Page>, b: seq<Op>, m': map<int, Page>)
    requires Performed(m, a, x) && Performed(x, b, m')
    ensures Performed(m, a + b, m')
    decreases a
  {
    if a == [] {
      assert a + b == b;
    } else {
      assert (a + b)[0] == a[0] && (a + b)[1..] == a[1..] + b;
      var y :| Performs(m, a[0], y) && Performed(y, a[1..], x);
      PerformedJoin(y, a[1..], x, b, m');
    }
  }

  lemma PerformedOne(m: map<int, Page>, op: Op, m': map<int, Page>)
    requires Performs(m, op, m')
    ensures Performed(m, [op], m')
  {
    assert [op][1..] == [];
    assert Performed(m', [op][1..], m');
  }

  // ------------------------------------------------------------ what does not return

  /** The operation names no payload, or no byte of one. */
  ghost predicate Wild(m: map<int, Page>, op: Op) {
    match op
    case Alloc(_) => false
    case Resize(a, i, _) => !At(m, a, i)
    case Release(a, i) => !At(m, a, i)
    case Put(a, i, o, _) => !At(m, a, i) || !(0 <= o < |m[a].segs[i].data|)
  }

  /** The heap, of `size` bytes, cannot grow: a page that is asked for, or to be copied,
      takes more than half of it. */
  ghost predicate Short(m: map<int, Page>, size: int, op: Op) {
    || ((op.Alloc? || op.Resize?) && |op.junk| > 0 && Large(|op.junk| / PAGE_SIZE + 1, size))
    || (!op.Alloc? && At(m, op.a, op.i) && Large(m[op.a].pages, size))
  }

  /** Why an operation ends in `stop`: m is what the interpreter sees, and the heap has
      `count` pages and `size` bytes. */
  ghost predicate Stuck(stop: Stop, m: map<int, Page>, count: nat, size: int, op: Op) {
    match stop
    case WildPointer => Wild(m, op)
    case NotUsed => (op.Resize? || op.Release?) && At(m, op.a, op.i) && !m[op.a].segs[op.i].used
    case NoFit => (op.Alloc? || op.Resize?) && |op.junk| > 0 && Misfit(|op.junk|)
    case ShortGrowth => Short(m, size, op)
    case TableFull => !op.Alloc? && Crowded(count + 1)
    case OutOfHeap => op.Resize? && At(m, op.a, op.i) && m[op.a].c[op.i] + SEGMENT_HEADER + |op.junk| > MAP_START + size
    case _ => false
  }

  /** One of the operations does not return: those before it took effect. */
  ghost predicate Fails(stop: Stop, m: map<int, Page>, count: nat, size: int, ops: seq<Op>) {
    exists k, m1, count1, size1 :: FailsAt(stop, m, count, size, ops, k, m1, count1, size1)
  }

  ghost predicate FailsAt(stop: Stop, m: map<int, Page>, count: nat, size: int, ops: seq<Op>, k: int, m1: map<int, Page>, count1: nat, size1: int) {
    && 0 <= k < |ops| && Performed(m, ops[..k], m1) && count1 <= count + 2 * k && size1 >= size
    && Stuck(stop, m1, count1, size1, ops[k])
  }

  /** Without too many pages, no operation runs out of the table of maps. */
  lemma FailsCrowded(m: map<int, Page>, count: nat, size: int, ops: seq<Op>)
    requires Fails(TableFull, m, count, size, ops)
    ensures Crowded(count + 2 * |ops|)
  {
    hide Performed;
    var k, m1, count1, size1 :| FailsAt(TableFull, m, count, size, ops, k, m1, count1, size1);
  }

  // ------------------------------------------------------------ what is not seen

  /** A trap is not seen: the page stays where it is, and its copy is not at home. */
  lemma TrapUnseen(s: Store, l: Step, s': Store)
    requires Taken(s, l, s') && l.Trap?
    ensures Sight(s'.mem) == Sight(s.mem)
  {
    var p := s.mem[l.a];
    assert p.(committed := false).(committed := false) == p.(committed := false);
  }

  lemma CommitUnseen(s: Store, s': Store)
    requires Taken(s, Commit, s')
    ensures Sight(s'.mem) == Sight(s.mem)
  {
    forall a | a in s.mem ensures s'.mem[a].(committed := false) == s.mem[a].(committed := false) {}
  }

  /** A page rewritten in place, or added at home. */
  lemma SightWith(pages: map<int, Page>, a: int, p: Page)
    requires p.realAddr == a
    ensures Sight(pages[a := p]) == Sight(pages)[a := p.(committed := false)]
  {
  }
}
