/** The runtime state's active_map and the page protection of the process. */
module Protections {
  import opened Layout
  import opened Maps
  import opened Carving
  import opened Layers
  import opened Tables

  class Protection {
    const active: Table
    var os: int -> bool   // whether the operating system lets the program write a byte

    ghost predicate Valid()
      reads this, active, active.m
    {
      active.Valid() && WellFormed(active.Contents())
    }

    ghost function Maps(): (t: seq<Map>)
      requires active.Valid()
      reads this, active, active.m
    {
      active.Contents()
    }

    ghost predicate Agreed()
      requires Valid()
      reads this, active, active.m
    {
      Agrees(Maps(), os)
    }

    /** The bytes that the process may write although the table calls them read-only. */
    ghost function Leaks(): set<int>
      requires Valid()
      reads this, active, active.m
    {
      Leaking(Maps(), os)
    }

    /** The heap as it is mapped at first: one writable map. */
    constructor (size: int)
      requires size > 0
      ensures Valid() && fresh(active) && fresh(active.m) && Lenient(Maps(), os) && Leaks() == {}
      ensures Maps() == [Map(true, MAP_START, size)]
    {
      active := new Table();
      os := Mprotect(_ => false, Map(true, MAP_START, size));
      new;
      active.InsertMap(Map(true, MAP_START, size), 0);
      assert active.Contents() == [Map(true, MAP_START, size)];
      forall x | MAP_START <= x < MAP_START + size ensures Writable(Maps(), x) {
        IndexUnique(Maps(), 0, x);
      }
    }

    /** mprotect over the bytes of nm. */
    method ProtectPages(nm: Map)
      modifies this`os
      ensures os == Mprotect(old(os), nm)
    {
      os := Mprotect(os, nm);
    }

    /** find_map, for the map that stands at index i. */
    method FindMap(x: Map, ghost i: nat) returns (at: int)
      requires active.Valid() && i < active.len && active.Contents()[i].start == x.start && active.Contents()[i].len == x.len
      requires forall k :: 0 <= k < i ==> active.Contents()[k].start != x.start || active.Contents()[k].len != x.len
      ensures at == i
    {
      at := active.MapIndex(x);
    }

    /** One round of the cull loop: the second hit is removed from both tables
        and its length goes to the map before it. */
    method CullSecond(hits: Table, ghost t: seq<Map>, ghost a: nat, ghost j: nat, ghost b: nat)
      requires active.Valid() && hits.Valid() && hits != active && hits.m != active.m
      requires WellFormed(t) && a <= j < b < |t| && active.len < MAX_MAPS && hits.len < MAX_MAPS
      requires active.Contents() == Splice(t, a, [Fused(t, a, j)], j + 1)
      requires hits.Contents() == [Fused(t, a, j)] + t[j + 1..b + 1]
      modifies active`len, active.m, hits`len, hits.m
      ensures active.Valid() && hits.Valid()
      ensures active.Contents() == Splice(t, a, [Fused(t, a, j + 1)], j + 2)
      ensures hits.Contents() == [Fused(t, a, j + 1)] + t[j + 2..b + 1]
    {
      ghost var c, h := active.Contents(), hits.Contents();
      CullRound(t, a, j, b);
      hide *;
      var sec := hits.At(1);
      var ai := FindMap(sec, a + 1);
      var hi := hits.MapIndex(sec);
      assert h[0].start != sec.start && h[1] == sec;
      hits.RemoveMap(hi);
      active.RemoveMap(ai);
      var before := active.At(ai - 1);
      active.Put(ai - 1, Widened(before, sec.len));
      before := hits.At(hi - 1);
      hits.Put(hi - 1, Widened(before, sec.len));
    }

    /** The loop that leaves one or two hits. */
    method CullHits(hits: Table, ghost t: seq<Map>, ghost a: nat, ghost b: nat)
      requires active.Valid() && hits.Valid() && hits != active && hits.m != active.m
      requires WellFormed(t) && a <= b < |t| < MAX_MAPS
      requires active.Contents() == t && hits.Contents() == t[a..b + 1]
      modifies active`len, active.m, hits`len, hits.m
      ensures active.Valid() && hits.Valid()
      ensures active.Contents() == Culled(t, a, b) && hits.Contents() == CulledRun(t, a, b)
    {
      hide Splice, Fused, Culled, CulledRun, WellFormed, Table.Contents;
      ghost var j := a;
      CullStart(t, a, b);
      CullHead(t, a, a, b);
      var again := CullAgain(hits);
      while again
        invariant active.Valid() && hits.Valid() && a <= j <= b < |t| < MAX_MAPS
        invariant active.Contents() == Splice(t, a, [Fused(t, a, j)], j + 1)
        invariant hits.Contents() == [Fused(t, a, j)] + t[j + 1..b + 1]
        invariant again == (b - j > 1 || (b - j == 1 && t[a].w == t[b].w))
        invariant j == b ==> t[a].w == t[b].w
        decreases b - j
      {
        SpliceLength(t, a, Fused(t, a, j), j + 1);
        CullSecond(hits, t, a, j, b);
        j := j + 1;
        CullHead(t, a, j, b);
        again := CullAgain(hits);
      }
      CullEnd(t, a, j, b);
    }

    method CullAgain(hits: Table) returns (again: bool)
      requires hits.Valid()
      ensures again == (hits.len > 2 || (hits.len == 2 && hits.Contents()[0].w == hits.Contents()[1].w))
    {
      again := hits.len > 2 || (hits.len == 2 && hits.m[0].w == hits.m[1].w);
    }

    /** One hit is left: nm lies inside it. */
    method MergeIntoOne(nm: Map, hit: Map, ghost i: nat) returns (stop: Stop)
      requires Valid() && i < active.len && hit == Maps()[i] && nm.len > 0
      requires hit.start <= nm.start && nm.End() <= hit.End()
      requires active.len + 2 <= MAX_MAPS
      modifies this`os, active`len, active.m
      ensures active.Valid()
      ensures stop == OneStop(old(Maps()), i, nm)
      ensures stop == Going ==> active.Contents() == OneMerged(old(Maps()), i, nm)
      ensures stop == Going ==> os == if hit.w == nm.w then old(os) else Mprotect(old(os), nm)
    {
      ghost var c := Maps();
      if hit.w == nm.w {
        stop := Going;
        return;
      }
      if hit.start == nm.start && hit.len == nm.len {
        stop := JoinNeighbours(hit, i, c);
      } else if hit.start == nm.start {
        stop := MoveStart(nm, hit, i, c);
      } else if hit.start + hit.len == nm.start + nm.len {
        MoveEnd(nm, hit, i, c);
        stop := Going;
      } else {
        SplitHit(nm, hit, i, c);
        stop := Going;
      }
      if stop == Going { ProtectPages(nm); }
    }

    method JoinNeighbours(hit: Map, ghost i: nat, ghost c: seq<Map>) returns (stop: Stop)
      requires active.Valid() && active.Contents() == c && WellFormed(c) && i < |c| < MAX_MAPS && hit == c[i]
      modifies active`len, active.m
      ensures active.Valid()
      ensures stop == if 0 < i < |c| - 1 then Going else NoNeighbour
      ensures stop == Going ==> active.Contents() == Splice(c, i - 1, [Joined(c, i)], i + 2)
    {
      JoinSteps(c, i);
      hide *;
      var at := FindMap(hit, i);
      if at == 0 || at == active.len - 1 { return NoNeighbour; }
      var after := active.At(at + 1);
      active.RemoveMap(at);
      var next := FindMap(after, i);
      active.RemoveMap(next);
      var before := active.At(at - 1);
      active.Put(at - 1, Widened(before, after.len + hit.len));
      stop := Going;
    }

    method MoveStart(nm: Map, hit: Map, ghost i: nat, ghost c: seq<Map>) returns (stop: Stop)
      requires active.Valid() && active.Contents() == c && WellFormed(c) && i < |c| && hit == c[i]
      requires hit.start == nm.start
      modifies active.m
      ensures active.Valid()
      ensures stop == if 0 < i then Going else LeftMost
      ensures stop == Going ==>
                active.Contents() == Splice(c, i - 1, [Widened(c[i - 1], nm.len), Map(hit.w, nm.End(), hit.len - nm.len)], i + 1)
    {
      FirstMatch(c, i);
      var at := FindMap(hit, i);
      if at == 0 { return LeftMost; }
      active.Put(at, Map(hit.w, nm.start + nm.len, hit.len - nm.len));
      var before := active.At(at - 1);
      active.Put(at - 1, Widened(before, nm.len));
      stop := Going;
      assert active.Contents() == Splice(c, i - 1, [Widened(c[i - 1], nm.len), Map(hit.w, nm.End(), hit.len - nm.len)], i + 1);
    }

    method MoveEnd(nm: Map, hit: Map, ghost i: nat, ghost c: seq<Map>)
      requires active.Valid() && active.Contents() == c && WellFormed(c) && i < |c| < MAX_MAPS && hit == c[i]
      modifies active`len, active.m
      ensures active.Valid()
      ensures i < |c| - 1 ==>
                active.Contents() == Splice(c, i, [Widened(hit, -nm.len), Lowered(c[i + 1], nm.len)], i + 2)
      ensures i == |c| - 1 ==>
                active.Contents() == Splice(c, i, [Widened(hit, -nm.len), nm], i + 1)
    {
      FirstMatch(c, i);
      var at := FindMap(hit, i);
      if at == active.len - 1 {
        active.InsertMap(nm, at + 1);
        active.Put(at, Widened(hit, -nm.len));
        assert active.Contents() == Splice(c, i, [Widened(hit, -nm.len), nm], i + 1);
      } else {
        var after := active.At(at + 1);
        active.Put(at + 1, Lowered(after, nm.len));
        active.Put(at, Widened(hit, -nm.len));
        assert active.Contents() == Splice(c, i, [Widened(hit, -nm.len), Lowered(c[i + 1], nm.len)], i + 2);
      }
    }

    method SplitHit(nm: Map, hit: Map, ghost i: nat, ghost c: seq<Map>)
      requires active.Valid() && active.Contents() == c && WellFormed(c) && i < |c| && |c| + 2 <= MAX_MAPS && hit == c[i]
      requires hit.start < nm.start && nm.End() < hit.End() && nm.len > 0
      modifies active`len, active.m
      ensures active.Valid()
      ensures active.Contents() == Splice(c, i, [Map(hit.w, hit.start, nm.start - hit.start), nm,
                                                 Map(hit.w, nm.End(), hit.End() - nm.End())], i + 1)
    {
      hide Splice, Table.Contents;
      SplitSteps(c, i, nm);
      FirstMatch(c, i);
      var left := Map(hit.w, hit.start, nm.start - hit.start);
      var rest := Map(hit.w, nm.start + nm.len, hit.len - left.len - nm.len);
      var at := FindMap(hit, i);
      active.Put(at, left);
      InsertAfter(nm, left, i);
      InsertAfter(rest, nm, i + 1);
    }

    /** insert_after, where after is the map at index i. */
    method InsertAfter(x: Map, after: Map, ghost i: nat)
      requires active.Valid() && i < active.len < MAX_MAPS && active.Contents()[i] == after
      requires forall n :: 0 <= n < i ==> active.Contents()[n].start != after.start || active.Contents()[n].len != after.len
      modifies active`len, active.m
      ensures active.Valid()
      ensures active.Contents() == With(old(active.Contents()), i + 1, x)
    {
      var at := FindMap(after, i);
      active.InsertMap(x, at + 1);
    }

    /** Two hits of opposite protection are left: nm starts in the first and ends
        in the second. */
    method MergeAcrossTwo(nm: Map, hl: Map, hr: Map, ghost i: nat) returns (stop: Stop)
      requires Valid() && i < active.len - 1 && hl == Maps()[i] && hr == Maps()[i + 1]
      requires hl.Has(nm.start) && hr.Has(nm.End() - 1)
      requires active.len + 2 <= MAX_MAPS
      modifies this`os, active`len, active.m
      ensures active.Valid()
      ensures stop == TwoStop(old(Maps()), i, nm)
      ensures stop == Going ==> active.Contents() == TwoMerged(old(Maps()), i, nm) && os == Mprotect(old(os), nm)
    {
      ghost var c := Maps();
      TwoFacts(c, i);
      if nm.w == hl.w {
        stop := ExpandLeft(nm, hl, hr, i, c);
      } else {
        stop := ExpandRight(nm, hl, hr, i, c);
      }
      if stop == Going { ProtectPages(nm); }
    }

    method ExpandLeft(nm: Map, hl: Map, hr: Map, ghost i: nat, ghost c: seq<Map>) returns (stop: Stop)
      requires active.Valid() && active.Contents() == c && WellFormed(c) && i < |c| - 1 && |c| < MAX_MAPS
      requires hl == c[i] && hr == c[i + 1] && hl.Has(nm.start) && hr.Has(nm.End() - 1)
      modifies active`len, active.m
      ensures active.Valid()
      ensures stop == if nm.End() == hr.End() && i == |c| - 2 then PastEnd else Going
      ensures stop == Going ==> nm.w == hl.w ==> active.Contents() == TwoMerged(c, i, nm)
    {
      ExpandLeftSteps(c, i, nm);
      hide *;
      var l := FindMap(hl, i);
      var r := FindMap(hr, i + 1);
      var ldiff := (nm.start + nm.len) - (hl.start + hl.len);
      active.Put(l, Widened(hl, ldiff));
      active.Put(r, Lowered(hr, -ldiff));
      var shrunk := active.At(r);
      stop := Going;
      if shrunk.len == 0 { stop := UseUp(l, shrunk); }
    }

    /** The map behind the one at l is empty: it is removed, and so is the one that
        then follows, whose bytes go to the map at l. */
    method UseUp(l: nat, shrunk: Map) returns (stop: Stop)
      requires active.Valid() && l + 1 < active.len < MAX_MAPS && shrunk == active.Contents()[l + 1]
      requires forall k :: 0 <= k < l + 1 ==> active.Contents()[k].start != shrunk.start
      modifies active`len, active.m
      ensures active.Valid()
      ensures stop == if l + 2 == old(active.len) then PastEnd else Going
      ensures stop == Going ==>
                var c := Without(old(active.Contents()), l + 1);
                active.Contents() == Without(c[l := Widened(c[l], c[l + 1].len)], l + 1)
    {
      var empty := FindMap(shrunk, l + 1);
      active.RemoveMap(empty);
      if empty == active.len { return PastEnd; }
      var left := active.At(l);
      var next := active.At(empty);
      active.Put(l, Widened(left, next.len));
      active.RemoveMap(empty);
      stop := Going;
    }

    method ExpandRight(nm: Map, hl: Map, hr: Map, ghost i: nat, ghost c: seq<Map>) returns (stop: Stop)
      requires active.Valid() && active.Contents() == c && WellFormed(c) && i < |c| - 1
      requires hl == c[i] && hr == c[i + 1] && hl.Has(nm.start) && hr.Has(nm.End() - 1)
      modifies active.m
      ensures active.Valid()
      ensures stop == if hl.start == nm.start then EmptyLeft else Going
      ensures stop == Going ==> nm.w != hl.w ==> active.Contents() == TwoMerged(c, i, nm)
    {
      FirstMatch(c, i);
      FirstMatch(c, i + 1);
      assert Meets(c, i);
      var l := FindMap(hl, i);
      var r := FindMap(hr, i + 1);
      var rdiff := hr.start - nm.start;
      active.Put(l, Widened(hl, -rdiff));
      if hl.len - rdiff == 0 { return EmptyLeft; }
      active.Put(r, Lowered(hr, rdiff));
      stop := Going;
      ExpandRightSteps(c, i, nm);
    }

    method MergeInMap(nm: Map) returns (stop: Stop)
      requires Valid() && InRange(Maps(), nm)
      requires active.len + 2 <= MAX_MAPS
      modifies this`os, active`len, active.m
      ensures stop == MergeStop(old(Maps()), nm) != TableFull
      ensures stop == Going ==>
                && Valid() && Maps() == Merged(old(Maps()), nm) && |Maps()| <= |old(Maps())| + 2
                && Overridden(old(Maps()), nm, Maps())
                && os == MergedOs(old(Maps()), nm, old(os))
    {
      ghost var t := Maps();
      ghost var i := First(t, nm);
      var hits := new Table();
      active.Overlaps(nm, hits);
      CullHits(hits, t, i, Last(t, nm));
      CulledPlace(t, nm);
      MergeParts(t, nm, os);
      hide *;
      var first := hits.At(0);
      if hits.len == 1 {
        stop := MergeIntoOne(nm, first, i);
      } else {
        var second := hits.At(1);
        stop := MergeAcrossTwo(nm, first, second, i);
      }
    }

    /** Coalesces consecutive contiguous maps of one protection. */
    method Coalesce(news: Table) returns (merged: Table)
      requires news.Valid() && news.len > 0
      ensures fresh(merged) && fresh(merged.m) && merged.Valid()
      ensures merged.Contents() == Coalesced(news.Contents())
    {
      hide Coalesced, With, Table.Contents;
      ghost var ms := news.Contents();
      CoalescedStart(ms);
      CoalescedLength(ms, 1);
      var first := news.At(0);
      merged := new Table();
      merged.InsertMap(first, 0);
      var i := 1;
      while i < news.len
        invariant 1 <= i <= news.len == |ms| <= MAX_MAPS && news.Valid() && news.Contents() == ms
        invariant fresh(merged) && fresh(merged.m) && merged.Valid() && 1 <= merged.len <= i
        invariant merged.Contents() == Coalesced(ms[..i])
      {
        CoalescedNext(ms, i);
        CoalescedLength(ms, i + 1);
        var x := news.At(i);
        var last := merged.At(merged.len - 1);
        if last.w == x.w && last.start + last.len == x.start {
          merged.Put(merged.len - 1, Widened(last, x.len));
        } else {
          merged.InsertMap(x, merged.len);
        }
        i := i + 1;
      }
      assert ms[..i] == ms;
    }

    /** Merges the coalesced maps in order. */
    method MergeInTable(news: Table) returns (stop: Stop)
      requires Valid() && news.Valid() && news.len > 0 && news != active && news.m != active.m
      requires AllInRange(Maps(), news.Contents())
      modifies this`os, active`len, active.m
      ensures stop == Going ==> Valid() && PaintedBy(old(Maps()), news.Contents(), Maps())
      ensures stop == Going ==> LaidOver(old(os), old(Maps()), news.Contents(), os)
      ensures AllStrict(old(Maps()), news.Contents()) ==> Finishes(stop, Shown(old(Maps())), news.Contents())
      ensures Steady(old(Maps()), news.Contents()) ==> stop in {Going, TableFull}
      ensures stop == TableFull ==> |old(Maps())| + 2 * |Coalesced(news.Contents())| > MAX_MAPS
      ensures stop == Going && old(Agreed()) && Separate(news.Contents()) ==> (Agreed() <==> AllHeard(Shown(old(Maps())), news.Contents()))
    {
      hide Agrees, Separate, AllHeard, Coalesced, Round, PaintedBy, LaidOver, Steady, AllInRange, AllStrict, WellFormed,
        MergeStop, Merged, MergedOs,
        InRange, Overridden, Painted, Table.Contents, NoneAborts, AbortsAt, Shown;
      ghost var t, ms, os0 := Maps(), news.Contents(), os;
      FirstRound(t, os0, ms);
      var merged := Coalesce(news);
      stop := Going;
      var i := 0;
      while i < merged.len
        invariant 0 <= i <= merged.len && merged.Valid() && merged.Contents() == Coalesced(ms) && fresh(merged) && fresh(merged.m)
        invariant Valid() && Round(t, os0, ms, i, Maps(), os) && |Maps()| <= |t| + 2 * i
        invariant stop == Going
      {
        if active.len + 2 > MAX_MAPS {
          stop := TableFull;
          return;
        }
        NextRound(t, os0, ms, i, Maps(), os);
        var nm := merged.At(i);
        stop := MergeInMap(nm);
        if stop == EmptyLeft && AllStrict(t, ms) { NotFinished(Shown(t), ms, i); }
        if stop != Going { return; }
        i := i + 1;
      }
      LastRound(t, os0, ms, i, Maps(), os);
      if Agrees(t, os0) && Separate(ms) { ListAgreement(t, ms, Maps(), os0, os); }
    }

    /** The last map of the table, and with it the mapping, grows by `more`. */
    method GrowLast(more: nat)
      requires Valid()
      modifies this`os, active.m
      ensures Valid() && Maps() == Grown(old(Maps()), more)
      ensures old(Lenient(Maps(), os)) ==> Lenient(Maps(), os) && Leaks() == old(Leaks())
    {
      ghost var t, os0 := Maps(), os;
      var last := active.At(active.len - 1);
      os := Mprotect(os, Map(last.w, last.start + last.len, more));
      active.Put(active.len - 1, Widened(last, more));
      assert Maps() == Grown(t, more);
      GrownLeaks(t, more, os0);
    }
  }
}
