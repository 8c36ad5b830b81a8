/** One page: its header, its segment pointers and its segments. Segments grow
    down from the end of the page, the pointer array grows up behind the
    header. */
module Pages {
  import opened Layout

  type Byte = x: int | 0 <= x < 256

  datatype Segment = Segment(used: bool, size: int, data: seq<Byte>)

  /** The page that stands at some location: segs[i] is the struct that the
      absolute pointer c[i] points to. */
  datatype Page = Page(committed: bool, realAddr: int, pages: int, c: seq<int>, segs: seq<Segment>)

  function FreshPage(at: int, n: int): Page {
    Page(false, at, n, [], [])
  }

  function HeadEnd(p: Page, at: int): int {
    at + PAGE_HEADER + ADDRESS_SIZE * |p.c|
  }

  function DataStart(p: Page, at: int): int {
    if |p.c| == 0 then at + Bytes(p.pages) - 1 else p.c[|p.c| - 1] - 1
  }

  /** A signed 64-bit difference read as an unsigned number. */
  function Unsigned(d: int): int {
    if d < 0 then d + 0x1_0000_0000_0000_0000 else d
  }

  predicate CanFit(p: Page, at: int, n: int) {
    Unsigned(DataStart(p, at) - HeadEnd(p, at)) > n + ADDRESS_SIZE + SEGMENT_HEADER
  }

  /** The first byte behind segment i. */
  function Top(p: Page, at: int, i: int): int
    requires 0 <= i <= |p.c|
  {
    if i == 0 then at + Bytes(p.pages) else p.c[i - 1]
  }

  /** Segment i ends where the one before it starts. */
  ghost predicate TiledAt(p: Page, at: int, i: int)
    requires 0 <= i < |p.c| == |p.segs|
  {
    && p.segs[i].size > 0 && |p.segs[i].data| == p.segs[i].size
    && p.c[i] + SEGMENT_HEADER + p.segs[i].size == Top(p, at, i)
  }

  /** The segments tile the tail of the page, and a gap is left to the pointers. */
  ghost predicate Tiled(p: Page, at: int) {
    && p.pages >= 1 && |p.c| == |p.segs|
    && (forall i :: 0 <= i < |p.c| ==> TiledAt(p, at, i))
    && HeadEnd(p, at) < DataStart(p, at)
  }

  lemma {:induction false} TopsFall(p: Page, at: int, i: int, j: int)
    requires Tiled(p, at) && 0 <= i < j <= |p.c|
    ensures Top(p, at, j) + SEGMENT_HEADER < Top(p, at, i)
    decreases j - i
  {
    assert TiledAt(p, at, j - 1);
    if i < j - 1 { TopsFall(p, at, i, j - 1); }
  }

  /** Every segment lies behind the pointer array and inside the page. */
  lemma SegmentInPage(p: Page, at: int, i: int)
    requires Tiled(p, at) && 0 <= i < |p.c|
    ensures HeadEnd(p, at) < p.c[i] && p.c[i] + SEGMENT_HEADER + p.segs[i].size <= at + Bytes(p.pages)
  {
    assert TiledAt(p, at, i);
    if i < |p.c| - 1 { TopsFall(p, at, i + 1, |p.c|); }
    if i > 0 { TopsFall(p, at, 0, i); }
  }

  /** The cast comparison never wraps on a tiled page. */
  lemma FitExact(p: Page, at: int, n: int)
    requires Tiled(p, at) && n >= 0
    ensures CanFit(p, at, n) <==> HeadEnd(p, at) + ADDRESS_SIZE + n + SEGMENT_HEADER < DataStart(p, at)
  {
  }

  /** A fresh page of size/PAGE_SIZE + 1 physical pages fits the segment exactly
      when the headers do not reach into the next page. */
  lemma FreshFits(at: int, size: int)
    requires size > 0
    ensures Tiled(FreshPage(at, size / PAGE_SIZE + 1), at)
    ensures CanFit(FreshPage(at, size / PAGE_SIZE + 1), at, size)
       <==> size % PAGE_SIZE + PAGE_HEADER + SEGMENT_HEADER + ADDRESS_SIZE + 1 < PAGE_SIZE
  {
  }

  /** The headers of a fresh page reach so far that n bytes do not fit behind them. */
  predicate Misfit(n: int) {
    n % PAGE_SIZE + PAGE_HEADER + SEGMENT_HEADER + ADDRESS_SIZE + 1 >= PAGE_SIZE
  }

  /** page_new_segment; fresh memory holds whatever it held before. */
  function NewSegment(p: Page, at: int, n: int, junk: seq<Byte>): Page {
    p.(c := p.c + [DataStart(p, at) + 1 - (n + SEGMENT_HEADER)], segs := p.segs + [Segment(true, n, junk)])
  }

  lemma NewSegmentTiled(p: Page, at: int, n: int, junk: seq<Byte>)
    requires Tiled(p, at) && n > 0 && |junk| == n && CanFit(p, at, n)
    ensures Tiled(NewSegment(p, at, n, junk), at)
    ensures Grows(p, NewSegment(p, at, n, junk))
  {
    var q := NewSegment(p, at, n, junk);
    forall i | 0 <= i < |q.c| ensures TiledAt(q, at, i) {
      if i < |p.c| { assert TiledAt(p, at, i); }
    }
  }

  function Poke(p: Page, i: int, o: int, v: Byte): Page
    requires 0 <= i < |p.segs| && 0 <= o < |p.segs[i].data|
  {
    p.(segs := p.segs[i := p.segs[i].(data := p.segs[i].data[o := v])])
  }

  /** q is p with bytes changed, segments freed and segments added: no segment of
      p has moved or changed its size. */
  ghost predicate Grows(p: Page, q: Page) {
    && q.committed == p.committed && q.realAddr == p.realAddr && q.pages == p.pages
    && |p.segs| == |p.c| <= |q.c| == |q.segs|
    && forall i :: 0 <= i < |p.c| ==> q.c[i] == p.c[i] && q.segs[i].size == p.segs[i].size
  }

  lemma SegmentChanged(p: Page, at: int, q: Page)
    requires Tiled(p, at) && Grows(p, q) && |q.c| == |p.c|
    requires forall i :: 0 <= i < |q.segs| ==> |q.segs[i].data| == q.segs[i].size
    ensures Tiled(q, at)
  {
    forall i | 0 <= i < |q.c| ensures TiledAt(q, at, i) { assert TiledAt(p, at, i); }
  }

  lemma BitTiled(p: Page, at: int, committed: bool)
    requires Tiled(p, at)
    ensures Tiled(p.(committed := committed), at)
  {
    forall i | 0 <= i < |p.c| ensures TiledAt(p.(committed := committed), at, i) { assert TiledAt(p, at, i); }
  }

  // ---------------------------------------------------------------- find_page

  /** The index of the first segment that holds the address, or -1. */
  function SegmentAt(p: Page, addr: int, i: nat): (r: int)
    ensures r == -1 || (i <= r < |p.c| && r < |p.segs|)
    decreases |p.c| - i
  {
    if i >= |p.c| || i >= |p.segs| then -1
    else if p.c[i] <= addr < p.c[i] + SEGMENT_HEADER + p.segs[i].size then i
    else SegmentAt(p, addr, i + 1)
  }

  lemma {:induction false} SegmentAtFinds(p: Page, addr: int, i: nat)
    requires |p.c| == |p.segs| && i <= |p.c|
    ensures var r := SegmentAt(p, addr, i);
            && (r >= 0 ==> p.c[r] <= addr < p.c[r] + SEGMENT_HEADER + p.segs[r].size)
            && (forall k :: i <= k < (if r >= 0 then r else |p.c|) ==>
                  !(p.c[k] <= addr < p.c[k] + SEGMENT_HEADER + p.segs[k].size))
    decreases |p.c| - i
  {
    if i < |p.c| && !(p.c[i] <= addr < p.c[i] + SEGMENT_HEADER + p.segs[i].size) {
      SegmentAtFinds(p, addr, i + 1);
    }
  }

  /** Every byte of a segment, header or payload, is found in that segment and in
      no other. */
  lemma SegmentUnique(p: Page, at: int, i: int, addr: int)
    requires Tiled(p, at) && 0 <= i < |p.c|
    requires p.c[i] <= addr < p.c[i] + SEGMENT_HEADER + p.segs[i].size
    ensures SegmentAt(p, addr, 0) == i
  {
    SegmentAtFinds(p, addr, 0);
    var r := SegmentAt(p, addr, 0);
    if 0 <= r < i { SegmentsDisjoint(p, at, r, i); }
  }

  /** Two segments of a page share no byte. */
  lemma SegmentsDisjoint(p: Page, at: int, i: int, j: int)
    requires Tiled(p, at) && 0 <= i < j < |p.c|
    ensures p.c[j] + SEGMENT_HEADER + p.segs[j].size <= p.c[i]
  {
    assert TiledAt(p, at, j);
    if i + 1 < j { TopsFall(p, at, i + 1, j); }
  }

  // ------------------------------------------------------------ moving a page

  /** The page with its segment pointers offset. */
  function Moved(p: Page, dist: int): (q: Page)
    ensures |q.c| == |p.c|
  {
    p.(c := seq(|p.c|, i requires 0 <= i < |p.c| => p.c[i] + dist))
  }

  /** What the page holds, wherever it stands: its pointers are made relative. */
  function Logical(p: Page, at: int): Page {
    Moved(p, -at)
  }

  lemma MovedTwice(p: Page, d: int, e: int)
    ensures Moved(Moved(p, d), e) == Moved(p, d + e)
  {
    assert Moved(Moved(p, d), e).c == Moved(p, d + e).c;
  }

  lemma MovedNowhere(p: Page)
    ensures Moved(p, 0) == p
  {
    assert Moved(p, 0).c == p.c;
  }

  /** Copying or swapping a page to another location with its pointers offset by
      the distance changes nothing of what it holds. */
  lemma MovedLogical(p: Page, from: int, to: int)
    ensures Logical(Moved(p, to - from), to) == Logical(p, from)
  {
    MovedTwice(p, to - from, -to);
  }

  lemma MovedTiled(p: Page, from: int, to: int)
    requires Tiled(p, from)
    ensures Tiled(Moved(p, to - from), to)
  {
    var q := Moved(p, to - from);
    forall i | 0 <= i < |q.c| ensures TiledAt(q, to, i) { assert TiledAt(p, from, i); }
  }

  /** Equal contents at one location are equal byte for byte. */
  lemma LogicalEqual(p: Page, q: Page, at: int)
    requires Logical(p, at) == Logical(q, at)
    ensures p == q
  {
    MovedTwice(p, -at, at);
    MovedTwice(q, -at, at);
    MovedNowhere(p);
    MovedNowhere(q);
  }

  /** The loop that offsets the segment pointers of a copied or swapped page. */
  method OffsetPointers(p: Page, dist: int) returns (q: Page)
    ensures q == Moved(p, dist)
  {
    var c := p.c;
    for i := 0 to |c|
      invariant |c| == |p.c|
      invariant forall k :: 0 <= k < i ==> c[k] == p.c[k] + dist
      invariant forall k :: i <= k < |c| ==> c[k] == p.c[k]
    {
      c := c[i := c[i] + dist];
    }
    q := p.(c := c);
    assert q.c == Moved(p, dist).c;
  }
}
