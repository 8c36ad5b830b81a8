/** The effect of merge_in_map on a table, as a value: culling the overlapped
    run, then carving the new map into the one or two maps that are left. */
module Carving {
  import opened Layout
  import opened Maps

  /** The protection of a table overridden by one map. */
  ghost predicate Overridden(t: seq<Map>, nm: Map, t': seq<Map>) {
    && WellFormed(t) && WellFormed(t')
    && Lo(t') == Lo(t) && Hi(t') == Hi(t)
    && forall x {:trigger Writable(t', x)} :: Lo(t) <= x < Hi(t) ==>
         Writable(t', x) == if nm.Has(x) then nm.w else Writable(t, x)
  }

  /** Maps of an alternating table agree exactly at even distances. */
  lemma {:induction false} Parity(t: seq<Map>, i: int, j: int)
    requires Alternating(t) && 0 <= i <= j < |t|
    ensures t[i].w == t[j].w <==> (j - i) % 2 == 0
    decreases j - i
  {
    if i < j {
      Parity(t, i, j - 1);
      assert Differs(t, j - 1);
    }
  }

  /** The maps a..b of a table as one map with the protection of the first. */
  function Fused(t: seq<Map>, a: int, b: int): Map
    requires 0 <= a <= b < |t|
  {
    Map(t[a].w, t[a].start, t[b].End() - t[a].start)
  }

  /** What the cull loop leaves of the overlapped run a..b. */
  ghost function CulledRun(t: seq<Map>, a: int, b: int): (r: seq<Map>)
    requires 0 <= a <= b < |t|
    ensures |r| == if (b - a) % 2 == 0 then 1 else 2
  {
    if (b - a) % 2 == 0 then [Fused(t, a, b)] else [Fused(t, a, b - 1), t[b]]
  }

  ghost function Culled(t: seq<Map>, a: int, b: int): seq<Map>
    requires 0 <= a <= b < |t|
  {
    Splice(t, a, CulledRun(t, a, b), b + 1)
  }

  /** One round of the cull loop, on the table and on the hits. */
  lemma CullRound(t: seq<Map>, a: nat, j: nat, b: nat)
    requires WellFormed(t) && a <= j < b < |t|
    ensures var c := Splice(t, a, [Fused(t, a, j)], j + 1);
            var h := [Fused(t, a, j)] + t[j + 1..b + 1];
            && |c| > a + 1 && c[a + 1] == h[1] == t[j + 1] && c[a].start == h[0].start != t[j + 1].start
            && (forall k :: 0 <= k < a + 1 ==> c[k].start != t[j + 1].start)
            && Without(c, a + 1)[a := Widened(c[a], t[j + 1].len)] == Splice(t, a, [Fused(t, a, j + 1)], j + 2)
            && Without(h, 1)[0 := Widened(h[0], t[j + 1].len)] == [Fused(t, a, j + 1)] + t[j + 2..b + 1]
  {
    var c := Splice(t, a, [Fused(t, a, j)], j + 1);
    Ordered(t, a, j + 1);
    assert Meets(t, j);
    forall k | 0 <= k < a + 1 ensures c[k].start != t[j + 1].start {
      if k < a { Ordered(t, k, j + 1); assert c[k] == t[k]; }
    }
  }

  lemma CulledSplices(t: seq<Map>, a: int, b: int)
    requires WellFormed(t) && 0 <= a <= b < |t|
    ensures Splices(t, a, CulledRun(t, a, b), b + 1)
  {
    if a < b { Ordered(t, a, b); }
    if a < b - 1 { Ordered(t, a, b - 1); }
    Parity(t, a, b);
    if a > 0 { assert Differs(t, a - 1); }
    if b > a { assert Differs(t, b - 1) && Meets(t, b - 1); }
    if b < |t| - 1 { assert Differs(t, b); }
  }

  /** Culling changes nothing outside the new map. */
  lemma CulledOutside(t: seq<Map>, nm: Map, x: int)
    requires WellFormed(t) && InRange(t, nm) && Lo(t) <= x < Hi(t) && !nm.Has(x)
    ensures var c := Culled(t, First(t, nm), Last(t, nm));
            WellFormed(c) && Lo(c) == Lo(t) && Hi(c) == Hi(t) && Writable(c, x) == Writable(t, x)
  {
    var a, b := First(t, nm), Last(t, nm);
    var mid := CulledRun(t, a, b);
    CulledSplices(t, a, b);
    SpliceByte(t, a, mid, b + 1, x);
    if Lo(mid) <= x < Hi(mid) {
      Parity(t, a, b);
      if x < nm.start {
        IndexUnique(t, a, x);
        if a < b - 1 { Ordered(t, a, b - 1); }
        IndexUnique(mid, 0, x);
      } else {
        IndexUnique(t, b, x);
        IndexUnique(mid, |mid| - 1, x);
      }
    }
  }

  // ---------------------------------------------------------------- one map

  /** A map nm inside map i of c, with the opposite protection, carved into it:
      the maps i' .. j'-1 are replaced by mid. */
  datatype Carving = Carving(i: int, mid: seq<Map>, j: int)

  ghost function Joined(c: seq<Map>, i: int): Map
    requires 0 < i < |c| - 1
  {
    Widened(c[i - 1], c[i + 1].len + c[i].len)
  }

  ghost function CarveOne(c: seq<Map>, i: int, nm: Map): Carving
    requires 0 <= i < |c|
  {
    var h := c[i];
    if h.start == nm.start && h.len == nm.len then
      if 0 < i < |c| - 1 then
        Carving(i - 1, [Joined(c, i)], i + 2)
      else Carving(i, [h], i + 1)
    else if h.start == nm.start then
      if 0 < i then
        Carving(i - 1, [Widened(c[i - 1], nm.len), Map(h.w, nm.End(), h.len - nm.len)], i + 1)
      else Carving(i, [h], i + 1)
    else if h.End() == nm.End() then
      if i < |c| - 1 then
        Carving(i, [Widened(h, -nm.len), Lowered(c[i + 1], nm.len)], i + 2)
      else Carving(i, [Widened(h, -nm.len), nm], i + 1)
    else
      Carving(i, [Map(h.w, h.start, nm.start - h.start), nm,
                  Map(h.w, nm.End(), h.End() - nm.End())], i + 1)
  }

  ghost predicate Lies(c: seq<Map>, i: int, nm: Map) {
    && 0 <= i < |c| && nm.len > 0
    && c[i].start <= nm.start && nm.End() <= c[i].End() && c[i].w != nm.w
    && (c[i].start == nm.start ==> 0 < i && (c[i].len == nm.len ==> i < |c| - 1))
  }

  lemma CarveOneSplices(c: seq<Map>, i: int, nm: Map)
    requires WellFormed(c) && Lies(c, i, nm)
    ensures var k := CarveOne(c, i, nm);
            Splices(c, k.i, k.mid, k.j) && |k.mid| <= k.j - k.i + 2
  {
    if i > 0 { assert Meets(c, i - 1) && Differs(c, i - 1); }
    if i > 1 { assert Differs(c, i - 2); }
    if i < |c| - 1 { assert Meets(c, i) && Differs(c, i); }
    if i < |c| - 2 { assert Differs(c, i + 1); }
  }

  lemma Neighbours(c: seq<Map>, i: int)
    requires WellFormed(c) && 0 <= i < |c|
    ensures i > 0 ==> c[i - 1].End() == c[i].start && c[i - 1].w != c[i].w
    ensures i < |c| - 1 ==> c[i].End() == c[i + 1].start && c[i].w != c[i + 1].w
  {
    if i > 0 { assert Meets(c, i - 1) && Differs(c, i - 1); }
    if i < |c| - 1 { assert Meets(c, i) && Differs(c, i); }
  }

  lemma CarveOneByte(c: seq<Map>, i: int, nm: Map, x: int)
    requires WellFormed(c) && Lies(c, i, nm) && Lo(c) <= x < Hi(c)
    ensures var k := CarveOne(c, i, nm);
            && Splices(c, k.i, k.mid, k.j)
            && (Lo(k.mid) <= x < Hi(k.mid) ==>
                  Writable(k.mid, x) == if nm.Has(x) then nm.w else Writable(c, x))
            && (nm.Has(x) ==> Lo(k.mid) <= x < Hi(k.mid))
  {
    hide Alternating, IndexAt;
    Neighbours(c, i);
    CarveOneSplices(c, i, nm);
    var k := CarveOne(c, i, nm);
    if Lo(k.mid) <= x < Hi(k.mid) {
      IndexUnique(c, if x < c[i].start then i - 1 else if x < c[i].End() then i else i + 1, x);
      IndexUnique(k.mid, if x < k.mid[0].End() then 0 else if x < k.mid[1].End() then 1 else 2, x);
    }
  }

  ghost function OneStop(c: seq<Map>, i: int, nm: Map): Stop
    requires 0 <= i < |c|
  {
    if c[i].w == nm.w then Going
    else if c[i].start == nm.start && c[i].len == nm.len then
      (if 0 < i < |c| - 1 then Going else NoNeighbour)
    else if c[i].start == nm.start && i == 0 then LeftMost
    else Going
  }

  ghost function OneMerged(c: seq<Map>, i: int, nm: Map): seq<Map>
    requires 0 <= i < |c|
  {
    if c[i].w == nm.w then c
    else var k := CarveOne(c, i, nm); Splice(c, k.i, k.mid, k.j)
  }

  lemma JoinSteps(c: seq<Map>, i: nat)
    requires WellFormed(c) && i < |c|
    ensures forall k :: 0 <= k < i ==> c[k].start != c[i].start
    ensures 0 < i < |c| - 1 ==>
              var c1 := Without(c, i);
              && c1[i] == c[i + 1] && (forall k :: 0 <= k < i ==> c1[k].start != c[i + 1].start)
              && var c2 := Without(c1, i);
              && c2[i - 1] == c[i - 1]
              && c2[i - 1 := Widened(c2[i - 1], c[i + 1].len + c[i].len)] == Splice(c, i - 1, [Joined(c, i)], i + 2)
  {
    FirstMatch(c, i);
    if i < |c| - 1 { FirstMatch(c, i + 1); }
  }

  lemma SplitSteps(c: seq<Map>, i: nat, nm: Map)
    requires WellFormed(c) && i < |c| && c[i].start < nm.start && nm.End() < c[i].End() && nm.len > 0
    ensures var h := c[i];
            var left := Map(h.w, h.start, nm.start - h.start);
            var rest := Map(h.w, nm.start + nm.len, h.len - left.len - nm.len);
            var c1 := c[i := left];
            var c2 := With(c1, i + 1, nm);
            && (forall k :: 0 <= k < i ==> c1[k].start != left.start)
            && c2[i + 1] == nm && (forall k :: 0 <= k < i + 1 ==> c2[k].start != nm.start)
            && With(c2, i + 2, rest)
               == Splice(c, i, [left, nm, Map(h.w, nm.End(), h.End() - nm.End())], i + 1)
  {
    FirstMatch(c, i);
    var left := Map(c[i].w, c[i].start, nm.start - c[i].start);
    var c2 := With(c[i := left], i + 1, nm);
    forall k | 0 <= k < i + 1 ensures c2[k].start != nm.start {
      if k < i { Ordered(c, k, i); assert c2[k] == c[k]; }
    }
  }

  // ---------------------------------------------------------------- two maps

  /** A map nm that starts in map i of c and ends in the next one. */
  ghost function CarveTwo(c: seq<Map>, i: int, nm: Map): Carving
    requires 0 <= i < |c| - 1
  {
    var l, r := c[i], c[i + 1];
    if nm.w == l.w then
      if nm.End() == r.End() then
        if i < |c| - 2 then Carving(i, [Map(l.w, l.start, c[i + 2].End() - l.start)], i + 3)
        else Carving(i, [l, r], i + 2)
      else
        Carving(i, [Map(l.w, l.start, nm.End() - l.start), Map(r.w, nm.End(), r.End() - nm.End())], i + 2)
    else
      Carving(i, [Map(l.w, l.start, nm.start - l.start), Map(r.w, nm.start, r.End() - nm.start)], i + 2)
  }

  ghost predicate Straddles(c: seq<Map>, i: int, nm: Map) {
    && 0 <= i < |c| - 1
    && c[i].Has(nm.start) && c[i + 1].Has(nm.End() - 1)
    && (if nm.w == c[i].w then nm.End() == c[i + 1].End() ==> i < |c| - 2
        else c[i].start < nm.start)
  }

  lemma CarveTwoByte(c: seq<Map>, i: int, nm: Map, x: int)
    requires WellFormed(c) && Straddles(c, i, nm) && Lo(c) <= x < Hi(c)
    ensures var k := CarveTwo(c, i, nm);
            && Splices(c, k.i, k.mid, k.j) && |k.mid| <= k.j - k.i
            && (Lo(k.mid) <= x < Hi(k.mid) ==>
                  Writable(k.mid, x) == if nm.Has(x) then nm.w else Writable(c, x))
            && (nm.Has(x) ==> Lo(k.mid) <= x < Hi(k.mid))
  {
    var k := CarveTwo(c, i, nm);
    var mid := k.mid;
    if i > 0 { assert Differs(c, i - 1); }
    assert Meets(c, i) && Differs(c, i);
    if i < |c| - 2 { assert Meets(c, i + 1) && Differs(c, i + 1); }
    if i < |c| - 3 { assert Differs(c, i + 2); }
    if Lo(mid) <= x < Hi(mid) {
      IndexUnique(c, if x < c[i].End() then i else if x < c[i + 1].End() then i + 1 else i + 2, x);
      IndexUnique(mid, if x < mid[0].End() then 0 else 1, x);
    }
  }

  ghost function TwoStop(c: seq<Map>, i: int, nm: Map): Stop
    requires 0 <= i < |c| - 1
  {
    if nm.w == c[i].w then
      (if nm.End() == c[i + 1].End() && i == |c| - 2 then PastEnd else Going)
    else
      (if c[i].start == nm.start then EmptyLeft else Going)
  }

  ghost function TwoMerged(c: seq<Map>, i: int, nm: Map): seq<Map>
    requires 0 <= i < |c| - 1
  {
    var k := CarveTwo(c, i, nm);
    Splice(c, k.i, k.mid, k.j)
  }

  lemma TwoFacts(c: seq<Map>, i: nat)
    requires WellFormed(c) && i < |c| - 1
    ensures c[i].End() == c[i + 1].start && c[i].w != c[i + 1].w
  {
    assert Meets(c, i) && Differs(c, i);
  }

  /** The table after both assignments of the left expansion. */
  ghost function LeftExpanded(c: seq<Map>, i: nat, nm: Map): seq<Map>
    requires i < |c| - 1
  {
    c[i := Widened(c[i], nm.End() - c[i].End())][i + 1 := Lowered(c[i + 1], c[i].End() - nm.End())]
  }

  lemma ExpandLeftSteps(c: seq<Map>, i: nat, nm: Map)
    requires WellFormed(c) && i < |c| - 1 && c[i].Has(nm.start) && c[i + 1].Has(nm.End() - 1)
    ensures forall k :: 0 <= k < i ==> c[k].start != c[i].start
    ensures forall k :: 0 <= k < i + 1 ==> c[k].start != c[i + 1].start
    ensures LeftExpanded(c, i, nm)
            == c[i := Widened(c[i], nm.start + nm.len - (c[i].start + c[i].len))]
                [i + 1 := Lowered(c[i + 1], -(nm.start + nm.len - (c[i].start + c[i].len)))]
    ensures var c1 := LeftExpanded(c, i, nm);
            && (c1[i + 1].len == 0 <==> nm.End() == c[i + 1].End())
            && (c1[i + 1].len == 0 ==> forall k :: 0 <= k < i + 1 ==> c1[k].start != c1[i + 1].start)
            && (nm.w == c[i].w && c1[i + 1].len != 0 ==> c1 == TwoMerged(c, i, nm))
            && (nm.w == c[i].w && c1[i + 1].len == 0 && i < |c| - 2 ==>
                  var c2 := Without(c1, i + 1);
                  Without(c2[i := Widened(c2[i], c2[i + 1].len)], i + 1) == TwoMerged(c, i, nm))
  {
    assert Meets(c, i);
    FirstMatch(c, i);
    FirstMatch(c, i + 1);
    if nm.End() == c[i + 1].End() && i < |c| - 2 && nm.w == c[i].w { UseUpSteps(c, i, nm); }
    var c1 := LeftExpanded(c, i, nm);
    forall k | 0 <= k < i + 1 && c1[i + 1].len == 0 ensures c1[k].start != c1[i + 1].start {
      if k < i { Ordered(c, k, i); }
    }
    if nm.w == c[i].w && c1[i + 1].len != 0 {
      var k := CarveTwo(c, i, nm);
      assert c1 == Splice(c, k.i, k.mid, k.j);
    }
  }

  /** The right hit is used up: it and the map after it go to the left hit. */
  lemma UseUpSteps(c: seq<Map>, i: nat, nm: Map)
    requires WellFormed(c) && i < |c| - 2 && nm.End() == c[i + 1].End() && nm.w == c[i].w
    ensures var c2 := Without(LeftExpanded(c, i, nm), i + 1);
            Without(c2[i := Widened(c2[i], c2[i + 1].len)], i + 1) == TwoMerged(c, i, nm)
  {
    assert Meets(c, i) && Meets(c, i + 1);
    var c2 := Without(LeftExpanded(c, i, nm), i + 1);
    var k := CarveTwo(c, i, nm);
    assert Without(c2[i := Widened(c2[i], c2[i + 1].len)], i + 1) == Splice(c, k.i, k.mid, k.j);
  }

  lemma ExpandRightSteps(c: seq<Map>, i: nat, nm: Map)
    requires WellFormed(c) && i < |c| - 1 && c[i].Has(nm.start) && c[i + 1].Has(nm.End() - 1)
    ensures nm.w != c[i].w ==>
              var rdiff := c[i + 1].start - nm.start;
              c[i := Widened(c[i], -rdiff)][i + 1 := Lowered(c[i + 1], rdiff)] == TwoMerged(c, i, nm)
  {
    assert Meets(c, i);
    if nm.w != c[i].w {
      var rdiff := c[i + 1].start - nm.start;
      var k := CarveTwo(c, i, nm);
      assert c[i := Widened(c[i], -rdiff)][i + 1 := Lowered(c[i + 1], rdiff)] == Splice(c, k.i, k.mid, k.j);
    }
  }

  // ------------------------------------------------------------ the whole step

  /** How a call of merge_in_map ends. */
  ghost function MergeStop(t: seq<Map>, nm: Map): Stop
    requires WellFormed(t) && InRange(t, nm)
  {
    var r := Run(t, nm);
    var (a, b) := (First(t, nm), Last(t, nm));
    if |r| % 2 == 1 then
      if r[0].w == nm.w then Going
      else if r[0].start == nm.start && t[b].End() == nm.End() then
        (if 0 < a && b < |t| - 1 then Going else NoNeighbour)
      else if r[0].start == nm.start then (if 0 < a then Going else LeftMost)
      else Going
    else if nm.w == r[0].w then
      (if t[b].End() == nm.End() && b == |t| - 1 then PastEnd else Going)
    else
      (if r[0].start == nm.start then EmptyLeft else Going)
  }

  /** The table that merge_in_map leaves when it returns. */
  ghost function Merged(t: seq<Map>, nm: Map): seq<Map>
    requires WellFormed(t) && InRange(t, nm)
  {
    var (a, b) := (First(t, nm), Last(t, nm));
    var c := Culled(t, a, b);
    if (b - a) % 2 == 1 then TwoMerged(c, a, nm) else OneMerged(c, a, nm)
  }

  lemma CulledRunIs(t: seq<Map>, a: int, b: int)
    requires 0 <= a <= b < |t|
    ensures |CulledRun(t, a, b)| == if (b - a) % 2 == 0 then 1 else 2
    ensures var c := Culled(t, a, b);
            && a + |CulledRun(t, a, b)| <= |c| && CulledRun(t, a, b)[0] == c[a]
            && (|CulledRun(t, a, b)| == 2 ==> CulledRun(t, a, b)[1] == c[a + 1])
            && |c| == |t| - (b - a + 1) + |CulledRun(t, a, b)|
    ensures CulledRun(t, a, b)[0] == if (b - a) % 2 == 0 then Fused(t, a, b) else Fused(t, a, b - 1)
    ensures (b - a) % 2 == 1 ==> CulledRun(t, a, b)[1] == t[b]
  {
  }

  lemma FusedIs(t: seq<Map>, a: int, b: int)
    requires 0 <= a <= b < |t|
    ensures Fused(t, a, b).w == t[a].w && Fused(t, a, b).start == t[a].start && Fused(t, a, b).End() == t[b].End()
  {
  }

  /** Where the new map stands in the culled table. */
  lemma CulledPlace(t: seq<Map>, nm: Map)
    requires WellFormed(t) && InRange(t, nm)
    ensures var (a, b) := (First(t, nm), Last(t, nm));
            var c := Culled(t, a, b);
            && WellFormed(c) && Lo(c) == Lo(t) && Hi(c) == Hi(t) && |c| <= |t|
            && if (b - a) % 2 == 1 then
                 a + 1 < |c| && c[a].Has(nm.start) && c[a + 1] == t[b] && c[a].End() == t[b].start && |c| - a - 1 == |t| - b
               else
                 c[a].Has(nm.start) && c[a].End() == t[b].End() && |c| - a == |t| - b
    ensures var c := Culled(t, First(t, nm), Last(t, nm));
            c[First(t, nm)].w == Run(t, nm)[0].w && c[First(t, nm)].start == Run(t, nm)[0].start
  {
    hide Splice, Splices, CulledRun, Fused, Alternating, Differs;
    var a, b := First(t, nm), Last(t, nm);
    CulledRunIs(t, a, b);
    CulledSplices(t, a, b);
    SpliceWellFormed(t, a, CulledRun(t, a, b), b + 1);
    FusedIs(t, a, b);
    if (b - a) % 2 == 1 { FusedIs(t, a, b - 1); }
    if a < b { assert Meets(t, b - 1); }
    if a < b - 1 { Ordered(t, a, b - 1); }
  }

  lemma MergeCarves(t: seq<Map>, nm: Map)
    requires WellFormed(t) && InRange(t, nm) && MergeStop(t, nm) == Going
    ensures var (a, b) := (First(t, nm), Last(t, nm));
            var c := Culled(t, a, b);
            && WellFormed(c)
            && if (b - a) % 2 == 1 then Straddles(c, a, nm) else c[a].w != nm.w ==> Lies(c, a, nm)
  {
    CulledPlace(t, nm);
  }

  lemma TwoMergedByte(c: seq<Map>, i: int, nm: Map, x: int)
    requires WellFormed(c) && Straddles(c, i, nm) && Lo(c) <= x < Hi(c)
    ensures var d := TwoMerged(c, i, nm);
            && WellFormed(d) && Lo(d) == Lo(c) && Hi(d) == Hi(c) && |d| <= |c| + 2
            && Writable(d, x) == if nm.Has(x) then nm.w else Writable(c, x)
  {
    CarveTwoByte(c, i, nm, x);
    var k := CarveTwo(c, i, nm);
    SpliceByte(c, k.i, k.mid, k.j, x);
  }

  lemma OneMergedByte(c: seq<Map>, i: int, nm: Map, x: int)
    requires WellFormed(c) && 0 <= i < |c| && Lo(c) <= x < Hi(c)
    requires if c[i].w == nm.w then nm.Has(x) ==> c[i].Has(x) else Lies(c, i, nm)
    ensures var d := OneMerged(c, i, nm);
            && WellFormed(d) && Lo(d) == Lo(c) && Hi(d) == Hi(c) && |d| <= |c| + 2
            && Writable(d, x) == if nm.Has(x) then nm.w else Writable(c, x)
  {
    if c[i].w == nm.w {
      if nm.Has(x) { IndexUnique(c, i, x); }
    } else {
      CarveOneSplices(c, i, nm);
      CarveOneByte(c, i, nm, x);
      var k := CarveOne(c, i, nm);
      SpliceByte(c, k.i, k.mid, k.j, x);
    }
  }

  lemma MergeByte(t: seq<Map>, nm: Map, x: int)
    requires WellFormed(t) && InRange(t, nm) && MergeStop(t, nm) == Going && Lo(t) <= x < Hi(t)
    ensures var d := Merged(t, nm);
            && WellFormed(d) && Lo(d) == Lo(t) && Hi(d) == Hi(t) && |d| <= |t| + 2
            && Writable(d, x) == if nm.Has(x) then nm.w else Writable(t, x)
  {
    var a, b := First(t, nm), Last(t, nm);
    var c := Culled(t, a, b);
    CulledPlace(t, nm);
    MergeCarves(t, nm);
    if !nm.Has(x) { CulledOutside(t, nm, x); }
    hide CarveOne, CarveTwo, Splice, Straddles, Lies, TwoMerged, OneMerged, MergeStop, CulledRun;
    if (b - a) % 2 == 1 {
      TwoMergedByte(c, a, nm, x);
    } else {
      OneMergedByte(c, a, nm, x);
    }
  }

  /** merge_in_map, whenever it returns, overrides the protection of exactly the
      new map's bytes and leaves a well-formed table over the same range. */
  lemma MergeOverrides(t: seq<Map>, nm: Map)
    requires WellFormed(t) && InRange(t, nm) && MergeStop(t, nm) == Going
    ensures Overridden(t, nm, Merged(t, nm)) && |Merged(t, nm)| <= |t| + 2
  {
    MergeByte(t, nm, nm.start);
    forall x | Lo(t) <= x < Hi(t)
      ensures Writable(Merged(t, nm), x) == if nm.Has(x) then nm.w else Writable(t, x)
    {
      MergeByte(t, nm, x);
    }
  }

  /** The merges that change the table without a call of mprotect: an odd run of
      three or more maps whose outer maps already have the new protection. */
  ghost predicate Silent(t: seq<Map>, nm: Map)
    requires WellFormed(t) && InRange(t, nm)
  {
    var r := Run(t, nm);
    |r| % 2 == 1 && |r| >= 3 && r[0].w == nm.w
  }

  /** Whether merge_in_map calls mprotect on the new map's bytes. */
  ghost predicate Protects(t: seq<Map>, nm: Map)
    requires WellFormed(t) && InRange(t, nm)
  {
    var r := Run(t, nm);
    !(|r| % 2 == 1 && r[0].w == nm.w)
  }

  /** The protection of the process, byte by byte, after an mprotect. */
  function Mprotect(os: int -> bool, nm: Map): int -> bool {
    x => if nm.Has(x) then nm.w else os(x)
  }

  /** The bytes the operating system lets the program write are those that the
      table calls writable. */
  ghost predicate Agrees(t: seq<Map>, os: int -> bool)
    requires WellFormed(t)
  {
    forall x :: Lo(t) <= x < Hi(t) ==> (os(x) <==> Writable(t, x))
  }

  /** The process may write whatever the table calls writable. */
  ghost predicate Lenient(t: seq<Map>, os: int -> bool)
    requires WellFormed(t)
  {
    forall x :: Lo(t) <= x < Hi(t) && Writable(t, x) ==> os(x)
  }

  /** The bytes that the process may write although the table calls them read-only. */
  ghost function Leaking(t: seq<Map>, os: int -> bool): set<int>
    requires WellFormed(t)
  {
    set x | Lo(t) <= x < Hi(t) && os(x) && !Writable(t, x)
  }

  /** Of a lenient protection nothing leaks exactly if it agrees with the table. */
  lemma NoLeaking(t: seq<Map>, os: int -> bool)
    requires WellFormed(t)
    ensures Agrees(t, os) <==> Lenient(t, os) && Leaking(t, os) == {}
  {
    if Lenient(t, os) && Leaking(t, os) == {} {
      forall x | Lo(t) <= x < Hi(t) ensures os(x) <==> Writable(t, x) { assert x !in Leaking(t, os); }
    }
  }

  ghost function MergedOs(t: seq<Map>, nm: Map, os: int -> bool): int -> bool
    requires WellFormed(t) && InRange(t, nm)
  {
    if Protects(t, nm) then Mprotect(os, nm) else os
  }

  lemma ProtectedAgrees(t: seq<Map>, nm: Map, u: seq<Map>, os: int -> bool)
    requires WellFormed(t) && InRange(t, nm) && Overridden(t, nm, u) && Agrees(t, os)
    ensures Agrees(u, Mprotect(os, nm))
  {
  }

  /** The second map of the run lies inside nm and had the other protection. */
  lemma SilentDisagrees(t: seq<Map>, nm: Map, u: seq<Map>, os: int -> bool)
    requires WellFormed(t) && InRange(t, nm) && Overridden(t, nm, u) && Agrees(t, os) && Silent(t, nm)
    ensures !Agrees(u, os)
  {
    var a, b := First(t, nm), Last(t, nm);
    var x := t[a + 1].start;
    assert Meets(t, a) && Differs(t, a);
    Ordered(t, a + 1, b);
    IndexUnique(t, a + 1, x);
    assert nm.Has(x) && Writable(u, x) != Writable(t, x);
  }

  lemma NothingMerged(t: seq<Map>, nm: Map)
    requires WellFormed(t) && InRange(t, nm) && !Silent(t, nm) && !Protects(t, nm)
    ensures Merged(t, nm) == t
  {
    assert First(t, nm) == Last(t, nm);
  }

  /** From agreement, merge_in_map keeps table and operating system in agreement
      exactly when it is not silent. */
  lemma AgreementExact(t: seq<Map>, nm: Map, os: int -> bool)
    requires WellFormed(t) && InRange(t, nm) && MergeStop(t, nm) == Going && Agrees(t, os)
    ensures WellFormed(Merged(t, nm))
    ensures Agrees(Merged(t, nm), MergedOs(t, nm, os)) <==> !Silent(t, nm)
  {
    hide Merged, MergeStop, First, Last, Agrees, Mprotect;
    MergeOverrides(t, nm);
    if Silent(t, nm) {
      SilentDisagrees(t, nm, Merged(t, nm), os);
    } else if Protects(t, nm) {
      ProtectedAgrees(t, nm, Merged(t, nm), os);
    } else {
      NothingMerged(t, nm);
    }
  }

  /** The outcome of the whole call from the outcome on the culled table. */
  lemma MergeParts(t: seq<Map>, nm: Map, os: int -> bool)
    requires WellFormed(t) && InRange(t, nm)
    ensures var (a, b) := (First(t, nm), Last(t, nm));
            var c := Culled(t, a, b);
            && WellFormed(c) && |c| <= |t| && a < |c| && CulledRun(t, a, b)[0] == c[a]
            && (|CulledRun(t, a, b)| == 1 ==>
                  && c[a].start <= nm.start && nm.End() <= c[a].End()
                  && MergeStop(t, nm) == OneStop(c, a, nm) && Merged(t, nm) == OneMerged(c, a, nm)
                  && MergedOs(t, nm, os) == if c[a].w == nm.w then os else Mprotect(os, nm))
            && (|CulledRun(t, a, b)| == 2 ==>
                  && a + 1 < |c| && CulledRun(t, a, b)[1] == c[a + 1]
                  && c[a].Has(nm.start) && c[a + 1].Has(nm.End() - 1)
                  && MergeStop(t, nm) == TwoStop(c, a, nm) && Merged(t, nm) == TwoMerged(c, a, nm)
                  && MergedOs(t, nm, os) == Mprotect(os, nm))
    ensures MergeStop(t, nm) == Going ==> WellFormed(Merged(t, nm)) && Overridden(t, nm, Merged(t, nm)) && |Merged(t, nm)| <= |t| + 2
    ensures MergeStop(t, nm) != TableFull
  {
    hide CarveOne, CarveTwo, Splice, CulledRun, Culled, OneMerged, TwoMerged;
    CulledPlace(t, nm);
    CulledRunIs(t, First(t, nm), Last(t, nm));
    if MergeStop(t, nm) == Going { MergeOverrides(t, nm); }
  }

  lemma CullStart(t: seq<Map>, a: nat, b: nat)
    requires a <= b < |t|
    ensures Splice(t, a, [Fused(t, a, a)], a + 1) == t
    ensures t[a..b + 1] == [Fused(t, a, a)] + t[a + 1..b + 1]
  {
  }

  lemma SpliceLength(t: seq<Map>, i: int, x: Map, j: int)
    requires 0 <= i < j <= |t|
    ensures |Splice(t, i, [x], j)| <= |t|
  {
  }

  lemma CullHead(t: seq<Map>, a: nat, j: nat, b: nat)
    requires a <= j <= b < |t|
    ensures var h := [Fused(t, a, j)] + t[j + 1..b + 1];
            |h| == b - j + 1 && h[0].w == t[a].w && (j < b ==> h[1] == t[j + 1])
  {
  }

  lemma CullEnd(t: seq<Map>, a: nat, j: nat, b: nat)
    requires WellFormed(t) && a <= j <= b < |t|
    requires b - j <= 1 && (j == b <==> t[a].w == t[b].w)
    ensures Splice(t, a, [Fused(t, a, j)], j + 1) == Culled(t, a, b)
    ensures [Fused(t, a, j)] + t[j + 1..b + 1] == CulledRun(t, a, b)
  {
    Parity(t, a, b);
  }

  /** A concrete silent merge: protecting three consecutive pages of which only
      the middle one is writable leaves that page writable for the system while
      the table calls it read-only. */
  lemma SilentMergeExists()
    ensures exists t, nm :: WellFormed(t) && InRange(t, nm) && MergeStop(t, nm) == Going && Silent(t, nm)
  {
    var t := [Map(true, 0, 2 * PAGE_SIZE), Map(false, 2 * PAGE_SIZE, PAGE_SIZE), Map(true, 3 * PAGE_SIZE, PAGE_SIZE),
              Map(false, 4 * PAGE_SIZE, PAGE_SIZE), Map(true, 5 * PAGE_SIZE, PAGE_SIZE)];
    var nm := Map(false, 2 * PAGE_SIZE, 3 * PAGE_SIZE);
    assert WellFormed(t) && InRange(t, nm);
    IndexUnique(t, 1, nm.start);
    IndexUnique(t, 3, nm.End() - 1);
    assert Run(t, nm) == t[1..4];
    assert MergeStop(t, nm) == Going && Silent(t, nm);
  }

  /** A concrete aborted merge: the first of two consecutive pages is writable
      and both are to become read-only. */
  lemma EmptyLeftExists()
    ensures exists t, nm :: WellFormed(t) && InRange(t, nm) && Lo(t) < nm.start && nm.End() < Hi(t)
              && MergeStop(t, nm) == EmptyLeft
  {
    var t := [Map(false, 0, PAGE_SIZE), Map(true, PAGE_SIZE, PAGE_SIZE),
              Map(false, 2 * PAGE_SIZE, PAGE_SIZE), Map(true, 3 * PAGE_SIZE, PAGE_SIZE)];
    var nm := Map(false, PAGE_SIZE, 2 * PAGE_SIZE);
    assert WellFormed(t) && InRange(t, nm);
    IndexUnique(t, 1, nm.start);
    IndexUnique(t, 2, nm.End() - 1);
    assert Run(t, nm) == t[1..3];
  }

  /** For a range strictly inside the table, the only failing merge is the even
      run that starts exactly at the new map with the opposite protection. */
  lemma DefinedExactly(t: seq<Map>, nm: Map)
    requires WellFormed(t) && InRange(t, nm) && Lo(t) < nm.start && nm.End() < Hi(t)
    ensures var r := Run(t, nm);
            var opposite := |r| % 2 == 0 && r[0].start == nm.start && r[0].w != nm.w;
            MergeStop(t, nm) == if opposite then EmptyLeft else Going
  {
    var a, b := First(t, nm), Last(t, nm);
    assert Lo(t) == t[0].start && Hi(t) == t[|t| - 1].End() && Run(t, nm)[0] == t[a];
    hide Positive, Contiguous, Alternating, First, Last;
  }

  /** The outer maps of the run, by the first and the last byte of the new map. */
  lemma RunEnds(t: seq<Map>, nm: Map)
    requires WellFormed(t) && InRange(t, nm)
    ensures var r := Run(t, nm);
            && |r| >= 1 && r[0].w == Writable(t, nm.start) && r[|r| - 1].w == Writable(t, nm.End() - 1)
            && (|r| % 2 == 1 <==> Writable(t, nm.start) == Writable(t, nm.End() - 1))
  {
    Parity(t, First(t, nm), Last(t, nm));
  }

  /** A merge is silent exactly if the first and the last byte of the new map have
      the new protection already and some byte between them does not. */
  lemma SilentPointwise(t: seq<Map>, nm: Map)
    requires WellFormed(t) && InRange(t, nm)
    ensures Silent(t, nm) <==> Writable(t, nm.start) == nm.w == Writable(t, nm.End() - 1) && !Uniform(t, nm, nm.w)
  {
    RunEnds(t, nm);
    var a, b := First(t, nm), Last(t, nm);
    if Silent(t, nm) {
      var x := t[a + 1].start;
      assert Meets(t, a) && Differs(t, a);
      Ordered(t, a + 1, b);
      IndexUnique(t, a + 1, x);
      assert nm.Has(x);
    } else if a == b {
      forall x | nm.Has(x) ensures Writable(t, x) == t[a].w { IndexUnique(t, a, x); }
    }
  }

  /** A merge strictly inside the table aborts exactly if the first byte of the new
      map gets another protection, while the byte before it and the last byte have
      the new one already. */
  lemma EmptyLeftPointwise(t: seq<Map>, nm: Map)
    requires WellFormed(t) && InRange(t, nm) && Lo(t) < nm.start && nm.End() < Hi(t)
    ensures MergeStop(t, nm) == EmptyLeft
       <==> Writable(t, nm.start - 1) == nm.w && Writable(t, nm.start) != nm.w && Writable(t, nm.End() - 1) == nm.w
  {
    RunEnds(t, nm);
    DefinedExactly(t, nm);
    var a := First(t, nm);
    if t[a].start == nm.start {
      assert a > 0 && Meets(t, a - 1) && Differs(t, a - 1);
      IndexUnique(t, a - 1, nm.start - 1);
    } else {
      IndexUnique(t, a, nm.start - 1);
    }
  }

  ghost predicate Uniform(t: seq<Map>, nm: Map, w: bool)
    requires WellFormed(t) && InRange(t, nm)
  {
    forall x :: nm.Has(x) ==> Writable(t, x) == w
  }

  /** A range of one protection strictly inside the table lies in one map, and
      merging it in always returns and is never silent. */
  lemma UniformMerge(t: seq<Map>, nm: Map, w: bool)
    requires WellFormed(t) && InRange(t, nm) && Lo(t) < nm.start && nm.End() < Hi(t)
    requires Uniform(t, nm, w)
    ensures MergeStop(t, nm) == Going && !Silent(t, nm)
  {
    var a, b := First(t, nm), Last(t, nm);
    if a < b {
      assert Meets(t, a) && Differs(t, a);
      if a + 1 < b { Ordered(t, a + 1, b); }
      IndexUnique(t, a, nm.start);
      IndexUnique(t, a + 1, t[a + 1].start);
      assert nm.Has(nm.start) && nm.Has(t[a + 1].start);
      assert false;
    }
  }

  ghost predicate SameSpan(t: seq<Map>, u: seq<Map>) {
    |t| > 0 && |u| > 0 && Lo(u) == Lo(t) && Hi(u) == Hi(t)
  }

  ghost predicate StrictlyIn(t: seq<Map>, nm: Map) {
    InRange(t, nm) && Lo(t) < nm.start && nm.End() < Hi(t)
  }

  // ------------------------------------------------------------ growing the table

  ghost function Grown(t: seq<Map>, more: int): seq<Map>
    requires |t| > 0
  {
    t[|t| - 1 := Widened(t[|t| - 1], more)]
  }

  lemma GrownByte(t: seq<Map>, more: int, x: int)
    requires WellFormed(t) && more >= 0 && Lo(t) <= x < Hi(t) + more
    ensures WellFormed(Grown(t, more)) && Lo(Grown(t, more)) == Lo(t) && Hi(Grown(t, more)) == Hi(t) + more
    ensures Writable(Grown(t, more), x) == if x < Hi(t) then Writable(t, x) else t[|t| - 1].w
  {
    var u := Grown(t, more);
    forall i | 0 <= i < |u| - 1 ensures Meets(u, i) && Differs(u, i) { assert Meets(t, i) && Differs(t, i); }
    IndexUnique(u, if x < Hi(t) then IndexAt(t, x) else |t| - 1, x);
  }

  /** A grown table, with the new bytes protected like its last map, leaks what it
      leaked. */
  lemma GrownLeaks(t: seq<Map>, more: nat, os: int -> bool)
    requires WellFormed(t)
    ensures WellFormed(Grown(t, more))
    ensures var (u, os') := (Grown(t, more), Mprotect(os, Map(t[|t| - 1].w, Hi(t), more)));
            && Leaking(u, os') == Leaking(t, os) && (Lenient(t, os) ==> Lenient(u, os'))
  {
    IndexUnique(t, 0, Lo(t));
    GrownByte(t, more, Lo(t));
    forall x | Lo(t) <= x < Hi(t) + more
      ensures Writable(Grown(t, more), x) == if x < Hi(t) then Writable(t, x) else t[|t| - 1].w
    {
      GrownByte(t, more, x);
    }
    var (u, os') := (Grown(t, more), Mprotect(os, Map(t[|t| - 1].w, Hi(t), more)));
    if Lenient(t, os) {
      forall x | Lo(u) <= x < Hi(u) && Writable(u, x) ensures os'(x) {
        GrownByte(t, more, x);
        if x < Hi(t) { assert Writable(t, x) && os(x); } else { assert t[|t| - 1].w && Map(t[|t| - 1].w, Hi(t), more).Has(x); }
      }
    }
  }
}
