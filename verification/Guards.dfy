/** What the protection table says of pages: the write barrier. */
module Guards {
  import opened Layout
  import opened Maps
  import opened Carving
  import opened Layers
  import opened Pages
  import opened Placement

  function Extents(pages: map<int, Page>): map<int, int> {
    map a | a in pages :: pages[a].pages
  }

  /** The bytes of a page as a map. */
  function PageMap(pages: map<int, Page>, a: int, w: bool): Map
    requires a in pages
  {
    Map(w, a, Bytes(pages[a].pages))
  }

  ghost predicate Covers(pages: map<int, Page>, a: int, x: int) {
    a in pages && a <= x < a + Bytes(pages[a].pages)
  }

  /** Byte x lies in one of the pages ro. */
  ghost predicate Shut(pages: map<int, Page>, ro: set<int>, x: int) {
    exists a :: a in ro && Covers(pages, a, x)
  }

  /** The table covers the heap, and exactly the bytes of the pages ro, all of
      them at home, are read-only. */
  ghost predicate Guarded(t: seq<Map>, pages: map<int, Page>, ro: set<int>, size: int) {
    && WellFormed(t) && Lo(t) == MAP_START && Hi(t) == MAP_START + size
    && (forall a :: a in ro ==> a in pages && pages[a].realAddr == a)
    && (forall x :: MAP_START <= x < MAP_START + size ==> (Writable(t, x) <==> !Shut(pages, ro, x)))
  }

  /** The write barrier: the read-only pages are the committed ones at home. */
  ghost predicate Barrier(pages: map<int, Page>, ro: set<int>) {
    forall a :: a in pages ==> (a in ro <==> pages[a].realAddr == a && pages[a].committed)
  }

  /** The write barrier, byte by byte. */
  lemma BarrierBytes(t: seq<Map>, pages: map<int, Page>, ro: set<int>, size: int, x: int)
    requires Guarded(t, pages, ro, size) && Barrier(pages, ro) && MAP_START <= x < MAP_START + size
    ensures !Writable(t, x) <==>
              exists a :: Covers(pages, a, x) && pages[a].realAddr == a && pages[a].committed
  {
    if Shut(pages, ro, x) {
      var a :| a in ro && Covers(pages, a, x);
      assert pages[a].realAddr == a && pages[a].committed;
    }
    if a :| Covers(pages, a, x) && pages[a].realAddr == a && pages[a].committed {
      assert a in ro;
    }
  }

  ghost predicate PagesPlaced(pages: map<int, Page>, size: int) {
    && (forall a :: a in pages ==> pages[a].pages >= 1 && MAP_START < a && a + Bytes(pages[a].pages) < MAP_START + size)
    && (forall a, b :: a in pages && b in pages && a < b ==> a + Bytes(pages[a].pages) <= b)
  }

  lemma PlacedPages(sp: Space, pages: map<int, Page>)
    requires Placed(sp) && sp.extent == Extents(pages)
    ensures PagesPlaced(pages, sp.size)
  {
    forall a | a in pages ensures pages[a].pages >= 1 && MAP_START < a && a + Bytes(pages[a].pages) < MAP_START + sp.size {
      assert PageSound(sp, a);
    }
    forall a, b | a in pages && b in pages && a < b ensures a + Bytes(pages[a].pages) <= b {
      assert a in sp.extent && b in sp.extent;
      assert PageEnd(sp, a) <= b;
    }
  }

  /** A byte lies in at most one page. */
  lemma OneCover(pages: map<int, Page>, size: int, a: int, b: int, x: int)
    requires PagesPlaced(pages, size) && Covers(pages, a, x) && Covers(pages, b, x)
    ensures a == b
  {
  }

  /** The pages of the heap lie strictly inside the table, and each has one
      protection. */
  lemma PageUniform(t: seq<Map>, pages: map<int, Page>, ro: set<int>, size: int, a: int, w: bool)
    requires Guarded(t, pages, ro, size) && PagesPlaced(pages, size) && a in pages
    ensures StrictlyIn(t, PageMap(pages, a, w))
    ensures Uniform(t, PageMap(pages, a, w), a !in ro) && Writable(t, a) == (a !in ro)
  {
    var nm := PageMap(pages, a, w);
    assert pages[a].pages >= 1;
    forall x | nm.Has(x) ensures Writable(t, x) == (a !in ro) {
      assert Covers(pages, a, x);
      if Shut(pages, ro, x) {
        var b :| b in ro && Covers(pages, b, x);
        OneCover(pages, size, a, b, x);
      }
    }
    assert nm.Has(a);
  }

  /** Edge safety: the first and the last byte of the heap are never read-only. */
  lemma EdgesWritable(t: seq<Map>, pages: map<int, Page>, ro: set<int>, size: int)
    requires Guarded(t, pages, ro, size) && PagesPlaced(pages, size)
    ensures t[0].w && t[|t| - 1].w
  {
    IndexUnique(t, 0, t[0].start);
    IndexUnique(t, |t| - 1, t[|t| - 1].End() - 1);
    assert !Shut(pages, ro, MAP_START);
    assert !Shut(pages, ro, MAP_START + size - 1);
  }

  lemma GrownGuarded(t: seq<Map>, pages: map<int, Page>, ro: set<int>, size: int, more: nat)
    requires Guarded(t, pages, ro, size) && PagesPlaced(pages, size)
    ensures Guarded(Grown(t, more), pages, ro, size + more)
  {
    EdgesWritable(t, pages, ro, size);
    IndexUnique(t, 0, Lo(t));
    GrownByte(t, more, Lo(t));
    forall x | MAP_START <= x < MAP_START + size + more
      ensures Writable(Grown(t, more), x) <==> !Shut(pages, ro, x)
    {
      GrownByte(t, more, x);
    }
  }

  /** What stands in the pages does not matter to the table, as long as sizes and
      homes stay. */
  lemma PagesChanged(t: seq<Map>, pages: map<int, Page>, ro: set<int>, size: int, pages': map<int, Page>)
    requires Guarded(t, pages, ro, size) && pages.Keys <= pages'.Keys
    requires forall a :: a in pages ==> pages'[a].pages == pages[a].pages && pages'[a].realAddr == pages[a].realAddr
    ensures Guarded(t, pages', ro, size)
  {
    forall x ensures Shut(pages', ro, x) <==> Shut(pages, ro, x) {
      if Shut(pages', ro, x) {
        var a :| a in ro && Covers(pages', a, x);
        assert Covers(pages, a, x);
      }
      if Shut(pages, ro, x) {
        var a :| a in ro && Covers(pages, a, x);
        assert Covers(pages', a, x);
      }
    }
  }

  // ---------------------------------------------------------- the size of the table

  /** Before map 2n of the table there are n different read-only pages. */
  lemma {:induction false} ShutBefore(t: seq<Map>, pages: map<int, Page>, ro: set<int>, size: int, n: nat) returns (r: set<int>)
    requires Guarded(t, pages, ro, size) && t[0].w && 2 * n < |t|
    ensures r <= ro && |r| == n && t[2 * n].w && forall a :: a in r ==> a < t[2 * n].start
  {
    if n == 0 {
      r := {};
    } else {
      r := ShutBefore(t, pages, ro, size, n - 1);
      var i := 2 * n - 1;
      assert Meets(t, i - 1) && Differs(t, i - 1) && Meets(t, i) && Differs(t, i);
      Within(t, i);
      Within(t, i - 1);
      var open := t[i - 1].start;
      assert Shut(pages, ro, t[i].start);
      var a :| a in ro && Covers(pages, a, t[i].start);
      assert a in r ==> Covers(pages, a, open);
      r := r + {a};
    }
  }

  /** The first byte of a map, and what the table says of it. */
  lemma Within(t: seq<Map>, i: nat)
    requires WellFormed(t) && i < |t|
    ensures Lo(t) <= t[i].start < Hi(t) && Writable(t, t[i].start) == t[i].w
  {
    assert t[i].Has(t[i].start);
    IndexUnique(t, i, t[i].start);
  }

  /** The table is no longer than the read-only pages make it: between two writable
      maps there is a read-only one, with a page of its own. */
  lemma TableBound(t: seq<Map>, pages: map<int, Page>, ro: set<int>, size: int)
    requires Guarded(t, pages, ro, size) && PagesPlaced(pages, size)
    ensures |t| <= 2 * |ro| + 1
  {
    EdgesWritable(t, pages, ro, size);
    var r := ShutBefore(t, pages, ro, size, (|t| - 1) / 2);
    SubsetCount(r, ro);
    if |t| % 2 == 0 { assert Differs(t, |t| - 2); }
  }

  lemma SubsetCount(a: set<int>, b: set<int>)
    requires a <= b
    ensures |a| <= |b|
  {
    assert b == a + (b - a) && a !! b - a;
  }

  lemma SameCount(m: map<int, Page>, m': map<int, Page>)
    requires m.Keys == m'.Keys
    ensures |m| == |m'|
  {
    assert |m.Keys| == |m| && |m'.Keys| == |m'|;
  }

  /** So many pages that the table of maps can run out of room. */
  predicate Crowded(n: nat) { 4 * n + 5 > MAX_MAPS }

  /** A page of n physical pages takes more than half the heap. */
  predicate Large(n: int, size: int) { 2 * Bytes(n) > size }

  /** How a trap on the page at a ends: it runs out of the table of maps only if there
      are too many pages, and otherwise ends as making the copy does. */
  ghost predicate Traps(stop: Stop, sp: Space, pages: map<int, Page>, a: int)
    requires sp.lastPage in sp.extent && a in pages
  {
    (stop == TableFull && Crowded(|pages|)) || stop == PageStop(sp, pages[a].pages)
  }

  /** A trap that does not return: there are too many pages, or the page is large. */
  lemma TrapsStuck(stop: Stop, sp: Space, pages: map<int, Page>, a: int)
    requires Placed(sp) && a in pages && pages[a].pages >= 1 && Traps(stop, sp, pages, a)
    ensures stop in {Going, TableFull, ShortGrowth}
    ensures stop == TableFull ==> Crowded(|pages|)
    ensures stop == ShortGrowth ==> Large(pages[a].pages, sp.size)
  {
    if 2 * Bytes(pages[a].pages) <= sp.size { PageReaches(sp, pages[a].pages); }
  }

  /** A page that new_page cannot make room for is large. */
  lemma PageStuck(t: seq<Map>, sp: Space, pages: map<int, Page>, ro: set<int>, n: int)
    requires ReadyFor(t, sp, pages, ro) && n >= 1
    ensures sp.lastPage in sp.extent && PageStop(sp, n) in {Going, ShortGrowth}
    ensures PageStop(sp, n) != Going ==> forall size :: size <= sp.size ==> Large(n, size)
  {
    if 2 * Bytes(n) <= sp.size { PageReaches(sp, n); }
  }

  lemma ReadyBound(t: seq<Map>, sp: Space, pages: map<int, Page>, ro: set<int>)
    requires ReadyFor(t, sp, pages, ro)
    ensures |t| <= 2 * |ro| + 1 && |ro| <= |pages|
  {
    PlacedPages(sp, pages);
    TableBound(t, pages, ro, sp.size);
    assert forall a :: a in ro ==> a in pages.Keys;
    SubsetCount(ro, pages.Keys);
    assert |pages.Keys| == |pages|;
  }

  // ---------------------------------------------------------- opening pages

  function OpenList(pages: map<int, Page>, open: seq<int>): seq<Map>
    requires forall i :: 0 <= i < |open| ==> open[i] in pages
  {
    seq(|open|, i requires 0 <= i < |open| => PageMap(pages, open[i], true))
  }

  /** A list of pages to be made writable is merged without stop and without a
      silent merge, if no page is listed right before its neighbour. */
  lemma OpenSteady(t: seq<Map>, pages: map<int, Page>, ro: set<int>, size: int, open: seq<int>)
    requires Guarded(t, pages, ro, size) && PagesPlaced(pages, size)
    requires forall i :: 0 <= i < |open| ==> open[i] in pages
    requires |open| == 1 || (|open| == 2 && open[1] < open[0])
    ensures AllInRange(t, OpenList(pages, open)) && Steady(t, OpenList(pages, open))
  {
    var ms := OpenList(pages, open);
    assert ms[..1] == [ms[0]] && [ms[0]][..0] == [];
    assert Coalesced([ms[0]]) == [ms[0]];
    if |open| == 2 {
      assert ms[..|ms| - 1] == [ms[0]] && ms[0].End() != ms[1].start;
    }
    assert Coalesced(ms) == ms;
    forall i | 0 <= i < |ms| ensures StrictlyIn(t, ms[i]) && Uniform(t, ms[i], Writable(t, ms[i].start)) {
      PageUniform(t, pages, ro, size, open[i], true);
    }
  }

  lemma OpenGuarded(t: seq<Map>, pages: map<int, Page>, ro: set<int>, size: int, open: seq<int>, t': seq<Map>)
    requires Guarded(t, pages, ro, size) && PagesPlaced(pages, size)
    requires forall i :: 0 <= i < |open| ==> open[i] in pages
    requires PaintedBy(t, OpenList(pages, open), t')
    ensures Guarded(t', pages, ro - (set a | a in open), size)
  {
    var ro' := ro - (set a | a in open);
    forall x | MAP_START <= x < MAP_START + size ensures Writable(t', x) <==> !Shut(pages, ro', x) {
      OpenPaints(pages, open, x, Writable(t, x));
      assert Writable(t', x) == Painted(OpenList(pages, open), x, Writable(t, x));
      if Shut(pages, ro', x) {
        var a :| a in ro' && Covers(pages, a, x);
        assert a in ro;
        forall i | 0 <= i < |open| ensures !Covers(pages, open[i], x) {
          if Covers(pages, open[i], x) { OneCover(pages, size, a, open[i], x); }
        }
      } else if Shut(pages, ro, x) {
        var a :| a in ro && Covers(pages, a, x);
        assert a !in ro' && a in open;
      }
    }
  }

  lemma {:induction false} OpenPaints(pages: map<int, Page>, open: seq<int>, x: int, base: bool)
    requires forall i :: 0 <= i < |open| ==> open[i] in pages
    ensures Painted(OpenList(pages, open), x, base)
         == (base || exists i :: 0 <= i < |open| && Covers(pages, open[i], x))
  {
    var ms := OpenList(pages, open);
    if open != [] {
      var n := |open| - 1;
      assert ms[..n] == OpenList(pages, open[..n]);
      OpenPaints(pages, open[..n], x, base);
      assert ms[n].Has(x) <==> Covers(pages, open[n], x);
      if i :| 0 <= i < n && Covers(pages, open[..n][i], x) { assert Covers(pages, open[i], x); }
      if i :| 0 <= i < n && Covers(pages, open[i], x) { assert Covers(pages, open[..n][i], x); }
    }
  }

  // ---------------------------------------------------------- closing pages

  /** All pages at home made read-only. */
  lemma {:induction false} ClosePaints(ms: seq<Map>, x: int, base: bool)
    requires forall i :: 0 <= i < |ms| ==> !ms[i].w
    ensures Painted(ms, x, base) == (base && forall i :: 0 <= i < |ms| ==> !ms[i].Has(x))
  {
    if ms != [] {
      var n := |ms| - 1;
      ClosePaints(ms[..n], x, base);
      if forall i :: 0 <= i < n ==> !ms[..n][i].Has(x) {
        forall i | 0 <= i < n ensures !ms[i].Has(x) { assert ms[..n][i] == ms[i]; }
      } else {
        var i :| 0 <= i < n && ms[..n][i].Has(x);
        assert ms[i].Has(x);
      }
    }
  }

  ghost predicate HomeList(pages: map<int, Page>, ms: seq<Map>) {
    && (forall i :: 0 <= i < |ms| ==> ms[i].start in pages && ms[i] == PageMap(pages, ms[i].start, false))
    && (forall i :: 0 <= i < |ms| ==> pages[ms[i].start].realAddr == ms[i].start && pages[ms[i].start].committed)
    && (forall a :: a in pages && pages[a].realAddr == a && pages[a].committed ==> PageMap(pages, a, false) in ms)
  }

  lemma HomesInRange(t: seq<Map>, pages: map<int, Page>, ro: set<int>, size: int, ms: seq<Map>)
    requires Guarded(t, pages, ro, size) && PagesPlaced(pages, size) && HomeList(pages, ms)
    ensures AllInRange(t, ms) && AllStrict(t, ms)
  {
    forall i | 0 <= i < |ms| ensures StrictlyIn(t, ms[i]) {
      PageUniform(t, pages, ro, size, ms[i].start, false);
    }
  }

  function Homes(pages: map<int, Page>): set<int> {
    set a | a in pages && pages[a].realAddr == a && pages[a].committed
  }

  lemma CloseGuarded(t: seq<Map>, pages: map<int, Page>, ro: set<int>, size: int, ms: seq<Map>, t': seq<Map>)
    requires Guarded(t, pages, ro, size) && PagesPlaced(pages, size) && HomeList(pages, ms)
    requires forall a :: a in ro ==> a in pages && pages[a].committed
    requires PaintedBy(t, ms, t')
    ensures Guarded(t', pages, Homes(pages), size) && Barrier(pages, Homes(pages))
  {
    forall x | MAP_START <= x < MAP_START + size ensures Writable(t', x) <==> !Shut(pages, Homes(pages), x) {
      ClosePaints(ms, x, Writable(t, x));
      assert Writable(t', x) == Painted(ms, x, Writable(t, x));
      if Shut(pages, ro, x) {
        var a :| a in ro && Covers(pages, a, x);
        assert a in Homes(pages);
      }
      if Shut(pages, Homes(pages), x) {
        var a :| a in Homes(pages) && Covers(pages, a, x);
        assert PageMap(pages, a, false) in ms;
        var i :| 0 <= i < |ms| && ms[i] == PageMap(pages, a, false);
        assert ms[i].Has(x);
      } else {
        forall i | 0 <= i < |ms| ensures !ms[i].Has(x) {
          if ms[i].Has(x) { assert ms[i].start in Homes(pages) && Covers(pages, ms[i].start, x); }
        }
      }
    }
  }

  lemma CoalesceThree(x: Map, y: Map, z: Map)
    requires x.w == y.w == z.w && x.End() == y.start && y.End() == z.start
    ensures Coalesced([x, y, z]) == [Map(x.w, x.start, x.len + y.len + z.len)]
  {
    assert [x, y, z][..2] == [x, y] && [x, y][..1] == [x] && [x][..0] == [];
    assert Coalesced([x]) == [x];
    assert Coalesced([x, y]) == [Map(x.w, x.start, x.len + y.len)];
  }

  /** The one way in which the protection falls behind the table: of three adjacent
      pages that are to become read-only together, the outer two still are, and the
      middle one was opened. (The heap stands so when a mutation that wrote only the
      middle one was rolled back: Breaches.RollbackFails.) The merge is silent, and the
      middle page stays writable for the process although the table calls it read-only. */
  lemma OpenBetweenShut(t: seq<Map>, os: int -> bool, pages: map<int, Page>, ro: set<int>, size: int, a: int, b: int, c: int)
    requires Guarded(t, pages, ro, size) && PagesPlaced(pages, size) && Agrees(t, os)
    requires a in pages && b in pages && c in pages && a in ro && b !in ro && c in ro
    requires a + Bytes(pages[a].pages) == b && b + Bytes(pages[b].pages) == c
    ensures var nm := Map(false, a, c + Bytes(pages[c].pages) - a);
            && Coalesced([PageMap(pages, a, false), PageMap(pages, b, false), PageMap(pages, c, false)]) == [nm]
            && StrictlyIn(t, nm) && MergeStop(t, nm) == Going && Silent(t, nm) && MergedOs(t, nm, os) == os
            && forall x :: Covers(pages, b, x) ==> os(x) && Overridden(t, nm, Merged(t, nm)) && !Writable(Merged(t, nm), x)
  {
    var (x, y, z) := (PageMap(pages, a, false), PageMap(pages, b, false), PageMap(pages, c, false));
    var nm := Map(false, a, c + Bytes(pages[c].pages) - a);
    CoalesceThree(x, y, z);
    hide Coalesced, Merged, MergeStop;
    PageUniform(t, pages, ro, size, a, false);
    PageUniform(t, pages, ro, size, b, false);
    PageUniform(t, pages, ro, size, c, false);
    assert Writable(t, nm.End() - 1) == false by { assert z.Has(nm.End() - 1); }
    assert Writable(t, b) && nm.Has(b);
    SilentPointwise(t, nm);
    EmptyLeftPointwise(t, nm);
    DefinedExactly(t, nm);
    MergeOverrides(t, nm);
    forall i | Covers(pages, b, i) ensures os(i) && !Writable(Merged(t, nm), i) { assert y.Has(i) && nm.Has(i); }
  }

  /** The protection that keeps the pages ro read-only. */
  ghost function Unshut(pages: map<int, Page>, ro: set<int>): int -> bool {
    x => !Shut(pages, ro, x)
  }

  /** Which merges are silent or abort can be told from the pages that are read-only,
      without the table. */
  lemma ShownUnshut(t: seq<Map>, sp: Space, pages: map<int, Page>, ro: set<int>, ms: seq<Map>)
    requires ReadyFor(t, sp, pages, ro) && WellFormed(t) && AllInRange(t, ms) && AllStrict(t, ms)
    ensures forall x :: Bare(Shown(t), ms, x) <==> Bare(Unshut(pages, ro), ms, x)
    ensures AllFinish(Shown(t), ms) <==> AllFinish(Unshut(pages, ro), ms)
  {
    hide AllFinish, Coalesced, NoneAborts, Shut, Bare;
    var cs := Coalesced(ms);
    CoalescedInRange(t, ms);
    forall i | 0 <= i < |cs| ensures Lo(t) < cs[i].start && cs[i].len > 0 && cs[i].End() <= Hi(t) {
      assert InRange(t, cs[i]) && StrictlyIn(t, cs[i]);
    }
    HeardSame(Shown(t), Unshut(pages, ro), ms, cs, Lo(t), Hi(t));
  }

  lemma HeardSame(p: int -> bool, q: int -> bool, ms: seq<Map>, cs: seq<Map>, lo: int, hi: int)
    requires forall x :: lo <= x < hi ==> p(x) == q(x)
    requires cs == Coalesced(ms) && forall i :: 0 <= i < |cs| ==> lo < cs[i].start && cs[i].len > 0 && cs[i].End() <= hi
    ensures forall x :: Bare(p, ms, x) <==> Bare(q, ms, x)
    ensures AllFinish(p, ms) <==> AllFinish(q, ms)
  {
    SeenSame(p, q, cs, lo, hi);
    hide SilentAt, Coalesced, NoneAborts;
  }

  // ---------------------------------------------------------- table and placement

  /** The nodes are placed and the table guards the pages. */
  ghost predicate ReadyFor(t: seq<Map>, sp: Space, pages: map<int, Page>, ro: set<int>) {
    Placed(sp) && sp.extent == Extents(pages) && Guarded(t, pages, ro, sp.size)
  }

  lemma ReadyGrows(t: seq<Map>, sp: Space, pages: map<int, Page>, ro: set<int>, m: nat)
    requires ReadyFor(t, sp, pages, ro)
    ensures NewSize(sp.size, m) > sp.size
    ensures var size' := NewSize(sp.size, m);
            ReadyFor(Grown(t, size' - sp.size), sp.(size := size'), pages, ro)
  {
    GrowthExact(sp.size, m);
    var size' := NewSize(sp.size, m);
    PlacedPages(sp, pages);
    GrownGuarded(t, pages, ro, sp.size, size' - sp.size);
    GrowKeeps(sp, size');
  }

  lemma ReadyPage(t: seq<Map>, sp: Space, pages: map<int, Page>, ro: set<int>, n: int)
    requires ReadyFor(t, sp, pages, ro) && n >= 1
    ensures sp.lastPage in pages && sp.lastPage in sp.extent
    ensures NextPage(sp) == if sp.lastPage > sp.lastGen then sp.lastPage + Bytes(pages[sp.lastPage].pages) else RoundUp(sp.lastGen + GENERATION)
    ensures NextPage(sp) !in pages && NextPage(sp) !in sp.gens && NextPage(sp) != NULL && forall a :: a in pages ==> a < NextPage(sp)
    ensures NextPage(sp) + Bytes(n) < MAP_START + sp.size ==>
              ReadyFor(t, WithPage(sp, n), pages[NextPage(sp) := FreshPage(NextPage(sp), n)], ro)
  {
    NextPageFresh(sp);
    var next := NextPage(sp);
    forall a | a in pages ensures a < next { assert a in sp.extent; }
    var pages' := pages[next := FreshPage(next, n)];
    if next + Bytes(n) < MAP_START + sp.size {
      NewPagePlaced(sp, n);
      PagesChanged(t, pages, ro, sp.size, pages');
      assert Extents(pages') == WithPage(sp, n).extent;
    }
  }

  lemma ReadyGen(t: seq<Map>, sp: Space, pages: map<int, Page>, ro: set<int>)
    requires ReadyFor(t, sp, pages, ro)
    ensures sp.lastPage in pages && sp.lastPage in sp.extent
    ensures NextGen(sp) == if RoundDown(sp.lastGen) == RoundDown(sp.lastGen + 2 * GENERATION) || sp.lastGen > sp.lastPage
                           then sp.lastGen + GENERATION else sp.lastPage + Bytes(pages[sp.lastPage].pages)
    ensures NextGen(sp) !in sp.gens && NextGen(sp) !in pages && NextGen(sp) != NULL
    ensures NextGen(sp) + GENERATION < MAP_START + sp.size ==> ReadyFor(t, WithGen(sp), pages, ro)
  {
    NextGenFresh(sp);
    assert GenSound(sp, sp.lastGen);
    if NextGen(sp) + GENERATION < MAP_START + sp.size { NewGenPlaced(sp); }
  }

  lemma ReadySize(t: seq<Map>, sp: Space, pages: map<int, Page>, ro: set<int>)
    requires ReadyFor(t, sp, pages, ro)
    ensures sp.size > 0
  {
  }

  lemma ReadyGenReaches(t: seq<Map>, sp: Space, pages: map<int, Page>, ro: set<int>)
    requires ReadyFor(t, sp, pages, ro)
    ensures sp.lastPage in sp.extent && GrowStop(sp.size, NextGen(sp) + GENERATION) == Going
  {
    GenReaches(sp);
  }

  /** Pages rewritten in place, keeping sizes and homes. */
  lemma ReadySame(t: seq<Map>, sp: Space, pages: map<int, Page>, ro: set<int>, pages': map<int, Page>)
    requires ReadyFor(t, sp, pages, ro) && pages'.Keys == pages.Keys
    requires forall a :: a in pages ==> pages'[a].pages == pages[a].pages && pages'[a].realAddr == pages[a].realAddr
    ensures ReadyFor(t, sp, pages', ro)
  {
    PagesChanged(t, pages, ro, sp.size, pages');
    assert Extents(pages') == Extents(pages);
  }

  /** Commit bits do not matter to the placement and the table. */
  lemma ReadyBits(t: seq<Map>, sp: Space, pages: map<int, Page>, ro: set<int>, a: int, copy: int)
    requires ReadyFor(t, sp, pages, ro) && a in pages && copy in pages
    ensures var pages' := pages[copy := pages[copy].(committed := true)][a := pages[a].(committed := false)];
            ReadyFor(t, sp, pages', ro) && Extents(pages') == Extents(pages)
  {
    var pages' := pages[copy := pages[copy].(committed := true)][a := pages[a].(committed := false)];
    ReadySame(t, sp, pages, ro, pages');
    assert Extents(pages') == Extents(pages);
  }

  lemma ReadyOpens(t: seq<Map>, sp: Space, pages: map<int, Page>, ro: set<int>, open: seq<int>, t': seq<Map>)
    requires ReadyFor(t, sp, pages, ro) && WellFormed(t)
    requires forall i :: 0 <= i < |open| ==> open[i] in pages
    requires PaintedBy(t, OpenList(pages, open), t')
    ensures ReadyFor(t', sp, pages, ro - (set a | a in open))
  {
    PlacedPages(sp, pages);
    OpenGuarded(t, pages, ro, sp.size, open, t');
  }

  lemma ReadySteady(t: seq<Map>, sp: Space, pages: map<int, Page>, ro: set<int>, open: seq<int>)
    requires ReadyFor(t, sp, pages, ro) && WellFormed(t)
    requires forall i :: 0 <= i < |open| ==> open[i] in pages
    requires |open| == 1 || (|open| == 2 && open[1] < open[0])
    ensures AllInRange(t, OpenList(pages, open)) && Steady(t, OpenList(pages, open))
  {
    PlacedPages(sp, pages);
    OpenSteady(t, pages, ro, sp.size, open);
  }

  /** Opening one or two pages finds room in the table, unless the heap is crowded. */
  lemma OpenRoom(t: seq<Map>, sp: Space, pages: map<int, Page>, ro: set<int>, open: seq<int>)
    requires ReadyFor(t, sp, pages, ro) && 1 <= |open| <= 2
    requires forall i :: 0 <= i < |open| ==> open[i] in pages
    ensures |t| + 2 * |Coalesced(OpenList(pages, open))| > MAX_MAPS ==> Crowded(|pages|)
  {
    var ms := OpenList(pages, open);
    assert ms[..|ms|] == ms;
    CoalescedLength(ms, |ms|);
    ReadyBound(t, sp, pages, ro);
  }

  /** Opening pages keeps the protection lenient, and nothing new leaks. */
  lemma OpenFaithful(t: seq<Map>, sp: Space, pages: map<int, Page>, ro: set<int>, open: seq<int>, t': seq<Map>,
                     os: int -> bool, os': int -> bool)
    requires ReadyFor(t, sp, pages, ro) && WellFormed(t)
    requires forall i :: 0 <= i < |open| ==> open[i] in pages
    requires |open| == 1 || (|open| == 2 && open[1] < open[0])
    requires PaintedBy(t, OpenList(pages, open), t') && LaidOver(os, t, OpenList(pages, open), os') && Lenient(t, os)
    ensures Lenient(t', os') && Leaking(t', os') <= Leaking(t, os)
  {
    ReadySteady(t, sp, pages, ro, open);
    OpenLeaves(t, OpenList(pages, open), t', os, os');
  }

  /** A byte of the heap that the process cannot write lies in a read-only page. */
  lemma FaultShut(t: seq<Map>, sp: Space, pages: map<int, Page>, ro: set<int>, os: int -> bool, addr: int)
    requires ReadyFor(t, sp, pages, ro) && WellFormed(t) && Lenient(t, os) && !os(addr) && MAP_START <= addr < MAP_START + sp.size
    ensures forall a :: Covers(pages, a, addr) ==> a in ro && pages[a].realAddr == a
  {
    PlacedPages(sp, pages);
    assert Shut(pages, ro, addr);
    var b :| b in ro && Covers(pages, b, addr);
    forall a | Covers(pages, a, addr) ensures a == b { OneCover(pages, sp.size, a, b, addr); }
  }

  lemma ReadyCloses(t: seq<Map>, sp: Space, pages: map<int, Page>, ro: set<int>, ms: seq<Map>)
    requires ReadyFor(t, sp, pages, ro) && WellFormed(t) && HomeList(pages, ms)
    requires forall a :: a in pages ==> pages[a].committed
    ensures AllInRange(t, ms) && AllStrict(t, ms) && AllShut(ms)
    ensures forall t' :: PaintedBy(t, ms, t') ==> ReadyFor(t', sp, pages, Homes(pages)) && Barrier(pages, Homes(pages))
  {
    PlacedPages(sp, pages);
    HomesInRange(t, pages, ro, sp.size, ms);
    forall t' | PaintedBy(t, ms, t') ensures ReadyFor(t', sp, pages, Homes(pages)) && Barrier(pages, Homes(pages)) {
      CloseGuarded(t, pages, ro, sp.size, ms, t');
    }
  }

  /** A page that is not read-only overwritten by a copy of the same size. */
  lemma ReadyCopy(t: seq<Map>, sp: Space, pages: map<int, Page>, ro: set<int>, copy: int, p: Page)
    requires ReadyFor(t, sp, pages, ro) && copy in pages && copy !in ro && p.pages == pages[copy].pages
    ensures ReadyFor(t, sp, pages[copy := p], ro)
  {
    var pages' := pages[copy := p];
    assert Extents(pages') == Extents(pages);
    forall x ensures Shut(pages', ro, x) <==> Shut(pages, ro, x) {
      if Shut(pages', ro, x) {
        var a :| a in ro && Covers(pages', a, x);
        assert Covers(pages, a, x);
      }
      if Shut(pages, ro, x) {
        var a :| a in ro && Covers(pages, a, x);
        assert Covers(pages', a, x);
      }
    }
  }

  lemma ReadyRo(t: seq<Map>, sp: Space, pages: map<int, Page>, ro: set<int>)
    requires ReadyFor(t, sp, pages, ro)
    ensures forall a :: a in ro ==> a in pages
  {
  }

  /** During a mutation the read-only pages are the committed ones at home. */
  lemma BarrierHomes(t: seq<Map>, sp: Space, pages: map<int, Page>, ro: set<int>)
    requires ReadyFor(t, sp, pages, ro) && Barrier(pages, ro)
    ensures ro == Homes(pages)
  {
    forall a ensures a in ro <==> a in Homes(pages) {
      if a in ro { assert a in pages; }
    }
  }

  /** The barrier, but page a has been opened. */
  ghost predicate BarrierBut(pages: map<int, Page>, ro: set<int>, a: int) {
    a !in ro && forall b :: b in pages && b != a ==> (b in ro <==> pages[b].realAddr == b && pages[b].committed)
  }

  lemma BarrierOpened(pages: map<int, Page>, ro: set<int>, a: int)
    requires Barrier(pages, ro)
    ensures BarrierBut(pages, ro - (set b | b in [a]), a)
  {
  }

  /** After a trap the barrier holds again: the hit page is open and uncommitted,
      and its copy is not at home. */
  lemma TrapBarrier(pages: map<int, Page>, ro: set<int>, a: int, copy: int, pages1: map<int, Page>, pages2: map<int, Page>)
    requires BarrierBut(pages, ro, a) && a in pages && copy !in pages && a != copy && pages[a].realAddr == a
    requires pages1 == pages[copy := Moved(pages[a], copy - a)] && (forall b :: b in ro ==> b in pages)
    requires pages2 == pages1[copy := pages1[copy].(committed := true)][a := pages1[a].(committed := false)]
    ensures Barrier(pages2, ro)
  {
  }
}
