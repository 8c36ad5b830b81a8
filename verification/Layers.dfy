/** merge_in_table: a list of maps laid over the table, coalesced first, and what it
    leaves of the protection that the process has. */
module Layers {
  import opened Layout
  import opened Maps
  import opened Carving

  function Extended(acc: seq<Map>, x: Map): seq<Map> {
    if |acc| > 0 && acc[|acc| - 1].w == x.w && acc[|acc| - 1].End() == x.start then
      acc[|acc| - 1 := Widened(acc[|acc| - 1], x.len)]
    else acc + [x]
  }

  /** Consecutive contiguous maps of one protection made one. */
  function Coalesced(ms: seq<Map>): seq<Map> {
    if ms == [] then [] else Extended(Coalesced(ms[..|ms| - 1]), ms[|ms| - 1])
  }

  /** The naive fold: the protection of byte x after overriding with each map in
      order. */
  ghost function Painted(ms: seq<Map>, x: int, base: bool): bool {
    if ms == [] then base
    else if ms[|ms| - 1].Has(x) then ms[|ms| - 1].w
    else Painted(ms[..|ms| - 1], x, base)
  }

  lemma {:induction false} CoalescedShape(ms: seq<Map>)
    requires Positive(ms) && |ms| > 0
    ensures |Coalesced(ms)| > 0 && Positive(Coalesced(ms))
    ensures Coalesced(ms)[|Coalesced(ms)| - 1].End() == ms[|ms| - 1].End()
  {
    if |ms| > 1 { CoalescedShape(ms[..|ms| - 1]); }
  }

  /** Coalescing first changes nothing of what the list paints. */
  lemma {:induction false} CoalescedPaints(ms: seq<Map>, x: int, base: bool)
    requires Positive(ms)
    ensures Painted(Coalesced(ms), x, base) == Painted(ms, x, base)
  {
    if ms != [] {
      var front, last := ms[..|ms| - 1], ms[|ms| - 1];
      CoalescedPaints(front, x, base);
      var c, d := Coalesced(front), Coalesced(ms);
      if front != [] { CoalescedShape(front); }
      if |d| == |c| {
        assert d[..|d| - 1] == c[..|c| - 1];
      } else {
        assert d[..|d| - 1] == c;
      }
    }
  }

  /** Every coalesced map starts with one of the list's maps and ends with one. */
  lemma {:induction false} CoalescedInRange(t: seq<Map>, ms: seq<Map>)
    requires |t| > 0 && forall i :: 0 <= i < |ms| ==> InRange(t, ms[i])
    ensures forall i :: 0 <= i < |Coalesced(ms)| ==> InRange(t, Coalesced(ms)[i])
    ensures (forall i :: 0 <= i < |ms| ==> StrictlyIn(t, ms[i])) ==>
              forall i :: 0 <= i < |Coalesced(ms)| ==> StrictlyIn(t, Coalesced(ms)[i])
  {
    if ms != [] {
      var front, last := ms[..|ms| - 1], ms[|ms| - 1];
      assert forall i :: 0 <= i < |front| ==> front[i] == ms[i];
      CoalescedInRange(t, front);
      assert InRange(t, last);
    }
  }

  /** No two maps of the list share a byte. */
  ghost predicate Separate(ms: seq<Map>) {
    forall i, j, x :: 0 <= i < j < |ms| && ms[i].Has(x) ==> !ms[j].Has(x)
  }

  /** Maps strictly inside the table, apart from each other, each of one
      protection in the table, and none contiguous with the next. */
  ghost predicate Steady(t: seq<Map>, ms: seq<Map>)
    requires WellFormed(t)
  {
    && Coalesced(ms) == ms
    && (forall i :: 0 <= i < |ms| ==> StrictlyIn(t, ms[i]) && Uniform(t, ms[i], Writable(t, ms[i].start)))
    && Separate(ms)
  }

  ghost predicate AllInRange(t: seq<Map>, ms: seq<Map>) {
    forall i :: 0 <= i < |ms| ==> InRange(t, ms[i])
  }

  ghost predicate AllStrict(t: seq<Map>, ms: seq<Map>) {
    forall i :: 0 <= i < |ms| ==> StrictlyIn(t, ms[i])
  }

  /** u covers what t covers, and says of each byte what the maps of ms, laid
      over t in order, say. */
  ghost predicate PaintedBy(t: seq<Map>, ms: seq<Map>, u: seq<Map>)
    requires WellFormed(t)
  {
    && WellFormed(u) && SameSpan(t, u)
    && forall x :: Lo(t) <= x < Hi(t) ==> Writable(u, x) == Painted(ms, x, Writable(t, x))
  }

  /** What a table says, byte by byte. */
  ghost function Shown(t: seq<Map>): int -> bool
    requires WellFormed(t)
  {
    x => Lo(t) <= x < Hi(t) && Writable(t, x)
  }

  /** The protection of byte x when the first i maps have been laid over p. */
  ghost predicate Seen(p: int -> bool, cs: seq<Map>, i: nat, x: int)
    requires i <= |cs|
  {
    Painted(cs[..i], x, p(x))
  }

  /** The merge of map i is silent: its first and its last byte have its protection
      by then, and some byte between them does not. */
  ghost predicate SilentAt(p: int -> bool, cs: seq<Map>, i: nat)
    requires i < |cs|
  {
    && Seen(p, cs, i, cs[i].start) == cs[i].w == Seen(p, cs, i, cs[i].End() - 1)
    && exists x :: cs[i].Has(x) && Seen(p, cs, i, x) != cs[i].w
  }

  /** The merge of map i aborts: it changes the first byte, while the byte before it
      and the last byte have its protection by then. */
  ghost predicate AbortsAt(p: int -> bool, cs: seq<Map>, i: nat)
    requires i < |cs|
  {
    && Seen(p, cs, i, cs[i].start - 1) == cs[i].w != Seen(p, cs, i, cs[i].start)
    && Seen(p, cs, i, cs[i].End() - 1) == cs[i].w
  }

  /** mprotect is called for map i: not both its first and its last byte have its
      protection by then. */
  ghost predicate ProtectsAt(p: int -> bool, cs: seq<Map>, i: nat)
    requires i < |cs|
  {
    !(Seen(p, cs, i, cs[i].start) == cs[i].w == Seen(p, cs, i, cs[i].End() - 1))
  }

  /** The protection that the process has of byte x after the first n merges, where
      the table said p before and the process had os. */
  ghost function Left(os: int -> bool, p: int -> bool, cs: seq<Map>, n: nat, x: int): bool
    requires n <= |cs|
  {
    if n == 0 then os(x)
    else if cs[n - 1].Has(x) && ProtectsAt(p, cs, n - 1) then cs[n - 1].w
    else Left(os, p, cs, n - 1, x)
  }

  /** The protection of the process is what n merges of the coalesced list leave. */
  ghost predicate LeftBy(os: int -> bool, p: int -> bool, cs: seq<Map>, n: nat, os': int -> bool) {
    n <= |cs| && forall x :: os'(x) == Left(os, p, cs, n, x)
  }

  ghost predicate NoneSilent(p: int -> bool, cs: seq<Map>, n: nat) {
    forall i: nat :: i < n && i < |cs| ==> !SilentAt(p, cs, i)
  }

  ghost predicate NoneAborts(p: int -> bool, cs: seq<Map>, n: nat) {
    forall i: nat :: i < n && i < |cs| ==> !AbortsAt(p, cs, i)
  }

  /** No merge of the coalesced list is silent. */
  ghost predicate AllHeard(p: int -> bool, ms: seq<Map>) { NoneSilent(p, Coalesced(ms), |Coalesced(ms)|) }

  /** No merge of the coalesced list aborts. */
  ghost predicate AllFinish(p: int -> bool, ms: seq<Map>) { NoneAborts(p, Coalesced(ms), |Coalesced(ms)|) }

  /** How laying a list over a table that shows p ends: it is aborted only if one of
      the merges aborts, and returns only if none does. */
  ghost predicate Finishes(stop: Stop, p: int -> bool, ms: seq<Map>) {
    && stop in {Going, EmptyLeft, TableFull}
    && (stop == Going ==> AllFinish(p, ms)) && (stop == EmptyLeft ==> !AllFinish(p, ms))
  }

  /** What laying the list over table t has left of the protection of the process. */
  ghost predicate LaidOver(os: int -> bool, t: seq<Map>, ms: seq<Map>, os': int -> bool)
    requires WellFormed(t)
  {
    LeftBy(os, Shown(t), Coalesced(ms), |Coalesced(ms)|, os')
  }

  lemma NotFinished(p: int -> bool, ms: seq<Map>, i: nat)
    requires i < |Coalesced(ms)| && AbortsAt(p, Coalesced(ms), i)
    ensures !AllFinish(p, ms)
  {
  }

  lemma SeenHere(t: seq<Map>, cs: seq<Map>, i: nat, u: seq<Map>)
    requires WellFormed(t) && i < |cs| && PaintedBy(t, cs[..i], u) && InRange(t, cs[i])
    ensures Silent(u, cs[i]) <==> SilentAt(Shown(t), cs, i)
    ensures Protects(u, cs[i]) <==> ProtectsAt(Shown(t), cs, i)
    ensures StrictlyIn(t, cs[i]) ==> (MergeStop(u, cs[i]) == EmptyLeft <==> AbortsAt(Shown(t), cs, i))
  {
    var nm := cs[i];
    SilentPointwise(u, nm);
    RunEnds(u, nm);
    if StrictlyIn(t, nm) { EmptyLeftPointwise(u, nm); }
    hide Silent, MergeStop, Painted;
    forall x | Lo(t) <= x < Hi(t) ensures Seen(Shown(t), cs, i, x) == Writable(u, x) {}
    if !Uniform(u, nm, nm.w) {
      var x :| nm.Has(x) && Writable(u, x) != nm.w;
      assert Seen(Shown(t), cs, i, x) != nm.w;
    }
  }

  /** What lies outside the listed maps' reach does not matter. */
  lemma SeenSame(p: int -> bool, q: int -> bool, cs: seq<Map>, lo: int, hi: int)
    requires forall x :: lo <= x < hi ==> p(x) == q(x)
    requires forall i :: 0 <= i < |cs| ==> lo < cs[i].start && cs[i].len > 0 && cs[i].End() <= hi
    ensures forall i: nat :: i < |cs| ==> SilentAt(p, cs, i) == SilentAt(q, cs, i)
    ensures NoneAborts(p, cs, |cs|) <==> NoneAborts(q, cs, |cs|)
  {
    forall i: nat, x | i < |cs| && lo <= x < hi ensures Seen(p, cs, i, x) == Seen(q, cs, i, x) {}
    forall i: nat | i < |cs| ensures SilentAt(p, cs, i) == SilentAt(q, cs, i) && AbortsAt(p, cs, i) == AbortsAt(q, cs, i) {
      if x :| cs[i].Has(x) && Seen(p, cs, i, x) != cs[i].w { assert Seen(q, cs, i, x) != cs[i].w; }
      if x :| cs[i].Has(x) && Seen(q, cs, i, x) != cs[i].w { assert Seen(p, cs, i, x) != cs[i].w; }
    }
  }

  /** The state of merge_in_table after i of the coalesced maps. */
  ghost predicate Round(t: seq<Map>, os0: int -> bool, ms: seq<Map>, i: nat, u: seq<Map>, os: int -> bool)
    requires WellFormed(t)
  {
    && AllInRange(t, ms) && i <= |Coalesced(ms)|
    && PaintedBy(t, Coalesced(ms)[..i], u)
    && LeftBy(os0, Shown(t), Coalesced(ms), i, os)
    && (AllStrict(t, ms) ==> NoneAborts(Shown(t), Coalesced(ms), i))
  }

  lemma FirstRound(t: seq<Map>, os: int -> bool, ms: seq<Map>)
    requires WellFormed(t) && AllInRange(t, ms)
    ensures Round(t, os, ms, 0, t, os)
  {
  }

  lemma NextRound(t: seq<Map>, os0: int -> bool, ms: seq<Map>, i: nat, u: seq<Map>, os: int -> bool)
    requires WellFormed(t) && Round(t, os0, ms, i, u, os) && i < |Coalesced(ms)|
    ensures var nm := Coalesced(ms)[i];
            && WellFormed(u) && InRange(u, nm)
            && (AllStrict(t, ms) ==> MergeStop(u, nm) == if AbortsAt(Shown(t), Coalesced(ms), i) then EmptyLeft else Going)
            && (Steady(t, ms) ==> MergeStop(u, nm) == Going)
            && (MergeStop(u, nm) == Going ==> Round(t, os0, ms, i + 1, Merged(u, nm), MergedOs(u, nm, os)))
  {
    hide Merged, MergeStop, MergedOs, AbortsAt, Painted, Coalesced, Uniform, PaintedBy, Overridden, LeftBy, ProtectsAt, Protects;
    var cs := Coalesced(ms);
    var nm := cs[i];
    CoalescedInRange(t, ms);
    assert InRange(t, nm);
    PaintedSame(t, cs[..i], u);
    SeenHere(t, cs, i, u);
    if AllStrict(t, ms) { assert StrictlyIn(t, nm); DefinedExactly(u, nm); }
    if Steady(t, ms) { SteadyHere(t, ms, i, u); }
    if MergeStop(u, nm) == Going {
      PaintedNext(t, cs, i, u);
      LeftNext(t, os0, cs, i, u, os);
    }
  }

  lemma LeftNext(t: seq<Map>, os0: int -> bool, cs: seq<Map>, i: nat, u: seq<Map>, os: int -> bool)
    requires WellFormed(t) && WellFormed(u) && i < |cs| && InRange(u, cs[i])
    requires LeftBy(os0, Shown(t), cs, i, os) && (Protects(u, cs[i]) <==> ProtectsAt(Shown(t), cs, i))
    ensures LeftBy(os0, Shown(t), cs, i + 1, MergedOs(u, cs[i], os))
  {
    hide Protects, ProtectsAt, Shown;
  }

  lemma PaintedSame(t: seq<Map>, ms: seq<Map>, u: seq<Map>)
    requires WellFormed(t) && PaintedBy(t, ms, u)
    ensures WellFormed(u) && SameSpan(t, u)
  {
  }

  lemma SteadyHere(t: seq<Map>, ms: seq<Map>, i: nat, u: seq<Map>)
    requires WellFormed(t) && Steady(t, ms) && i < |ms| && PaintedBy(t, Coalesced(ms)[..i], u)
    ensures InRange(u, ms[i]) && Coalesced(ms) == ms && MergeStop(u, ms[i]) == Going
  {
    SteadyNext(t, ms, i, u);
    UniformMerge(u, ms[i], Writable(t, ms[i].start));
  }

  lemma PaintedNext(t: seq<Map>, cs: seq<Map>, i: nat, u: seq<Map>)
    requires WellFormed(t) && i < |cs| && PaintedBy(t, cs[..i], u) && InRange(u, cs[i]) && MergeStop(u, cs[i]) == Going
    ensures PaintedBy(t, cs[..i + 1], Merged(u, cs[i]))
  {
    hide Merged, MergeStop;
    MergeOverrides(u, cs[i]);
    assert cs[..i + 1][..i] == cs[..i];
    var d := Merged(u, cs[i]);
    forall x | Lo(t) <= x < Hi(t) ensures Writable(d, x) == Painted(cs[..i + 1], x, Writable(t, x)) {
      assert Writable(u, x) == Painted(cs[..i], x, Writable(t, x));
    }
  }

  lemma LastRound(t: seq<Map>, os0: int -> bool, ms: seq<Map>, i: nat, u: seq<Map>, os: int -> bool)
    requires WellFormed(t) && Round(t, os0, ms, i, u, os)
    ensures i == |Coalesced(ms)| ==> PaintedBy(t, ms, u) && LaidOver(os0, t, ms, os)
    ensures i == |Coalesced(ms)| && AllStrict(t, ms) ==> AllFinish(Shown(t), ms)
    ensures WellFormed(u)
  {
    hide LeftBy, NoneAborts;
    if i == |Coalesced(ms)| {
      assert Coalesced(ms)[..i] == Coalesced(ms);
      forall x | Lo(t) <= x < Hi(t) ensures Writable(u, x) == Painted(ms, x, Writable(t, x)) {
        CoalescedPaints(ms, x, Writable(t, x));
      }
    }
  }

  lemma {:induction false} CoalescedLength(ms: seq<Map>, i: nat)
    requires 0 < i <= |ms|
    ensures 0 < |Coalesced(ms[..i])| <= i
  {
    assert ms[..i][..i - 1] == ms[..i - 1];
    if i > 1 { CoalescedLength(ms, i - 1); }
  }

  lemma CoalescedStart(ms: seq<Map>)
    requires |ms| > 0
    ensures Coalesced(ms[..1]) == With([], 0, ms[0])
  {
    assert ms[..1][..0] == [];
    assert With([], 0, ms[0]) == [ms[0]];
  }

  lemma CoalescedNext(ms: seq<Map>, i: nat)
    requires i < |ms|
    ensures var (c, x) := (Coalesced(ms[..i]), ms[i]);
            && (|c| > 0 && c[|c| - 1].w == x.w && c[|c| - 1].start + c[|c| - 1].len == x.start ==>
                  Coalesced(ms[..i + 1]) == c[|c| - 1 := Widened(c[|c| - 1], x.len)])
            && (!(|c| > 0 && c[|c| - 1].w == x.w && c[|c| - 1].start + c[|c| - 1].len == x.start) ==>
                  Coalesced(ms[..i + 1]) == With(c, |c|, x))
  {
    assert ms[..i + 1][..i] == ms[..i];
    var c := Coalesced(ms[..i]);
    assert With(c, |c|, ms[i]) == c + [ms[i]];
  }

  lemma {:induction false} Unpainted(ms: seq<Map>, x: int, base: bool)
    requires forall i :: 0 <= i < |ms| ==> !ms[i].Has(x)
    ensures Painted(ms, x, base) == base
  {
    if ms != [] { Unpainted(ms[..|ms| - 1], x, base); }
  }

  /** After the first i maps of a steady list the next one still has one
      protection. */
  lemma SteadyNext(t: seq<Map>, ms: seq<Map>, i: nat, u: seq<Map>)
    requires WellFormed(t) && WellFormed(u) && SameSpan(t, u) && Steady(t, ms) && i < |ms|
    requires forall x :: Lo(t) <= x < Hi(t) ==> Writable(u, x) == Painted(ms[..i], x, Writable(t, x))
    ensures StrictlyIn(u, ms[i]) && Uniform(u, ms[i], Writable(t, ms[i].start))
  {
    var nm := ms[i];
    assert StrictlyIn(t, nm) && Uniform(t, nm, Writable(t, nm.start));
    forall x | nm.Has(x) ensures Writable(u, x) == Writable(t, nm.start) {
      Unpainted(ms[..i], x, Writable(t, x));
      assert Writable(t, x) == Writable(t, nm.start);
    }
  }

  // ------------------------------------------------------------ agreement after a list

  ghost predicate Listed(ms: seq<Map>, x: int) {
    exists i :: 0 <= i < |ms| && ms[i].Has(x)
  }

  /** Coalescing changes neither the bytes of a list nor that its maps are separate. */
  lemma {:induction false} CoalescedBytes(ms: seq<Map>)
    requires Positive(ms)
    ensures forall x :: Listed(Coalesced(ms), x) <==> Listed(ms, x)
    ensures Separate(ms) ==> Separate(Coalesced(ms))
  {
    if ms != [] {
      var front, last := ms[..|ms| - 1], ms[|ms| - 1];
      CoalescedBytes(front);
      var c, d := Coalesced(front), Coalesced(ms);
      if front != [] { CoalescedShape(front); }
      assert forall x :: Listed(ms, x) <==> Listed(front, x) || last.Has(x) by {
        forall x | Listed(front, x) || last.Has(x) ensures Listed(ms, x) {
          if Listed(front, x) {
            var i :| 0 <= i < |front| && front[i].Has(x);
            assert ms[i].Has(x);
          } else {
            assert ms[|ms| - 1].Has(x);
          }
        }
        forall x | Listed(ms, x) ensures Listed(front, x) || last.Has(x) {
          var i :| 0 <= i < |ms| && ms[i].Has(x);
          if i < |front| { assert front[i].Has(x); }
        }
      }
      ExtendedBytes(c, last);
      if Separate(ms) {
        assert Separate(front) by {
          forall i, j, x | 0 <= i < j < |front| && front[i].Has(x) ensures !front[j].Has(x) { assert ms[i].Has(x) && !ms[j].Has(x); }
        }
        forall x | Listed(c, x) ensures !last.Has(x) {
          var i :| 0 <= i < |front| && front[i].Has(x);
          assert ms[i].Has(x) && !ms[|ms| - 1].Has(x);
        }
      }
    }
  }

  lemma ExtendedBytes(c: seq<Map>, x: Map)
    requires Positive(c) && x.len > 0
    ensures forall y :: Listed(Extended(c, x), y) <==> Listed(c, y) || x.Has(y)
    ensures Separate(c) && (forall y :: Listed(c, y) ==> !x.Has(y)) ==> Separate(Extended(c, x))
  {
    var d := Extended(c, x);
    forall y ensures Listed(d, y) <==> Listed(c, y) || x.Has(y) {
      if Listed(c, y) {
        var i :| 0 <= i < |c| && c[i].Has(y);
        assert d[i].Has(y);
      }
      if x.Has(y) { assert d[|d| - 1].Has(y); }
      if Listed(d, y) {
        var i :| 0 <= i < |d| && d[i].Has(y);
        if i < |c| && c[i].Has(y) { assert Listed(c, y); }
      }
    }
    if Separate(c) && (forall y :: Listed(c, y) ==> !x.Has(y)) {
      forall i, j, y | 0 <= i < j < |d| && d[i].Has(y) ensures !d[j].Has(y) {
        assert c[i].Has(y) && Listed(c, y);
        if j < |c| { assert !c[j].Has(y); }
      }
    }
  }

  lemma {:induction false} CoalescedKind(ms: seq<Map>, w: bool)
    requires forall i :: 0 <= i < |ms| ==> ms[i].w == w
    ensures forall i :: 0 <= i < |Coalesced(ms)| ==> Coalesced(ms)[i].w == w
  {
    if ms != [] { CoalescedKind(ms[..|ms| - 1], w); }
  }

  /** In a separate list the one map that has a byte decides. */
  lemma {:induction false} PaintedOnce(cs: seq<Map>, n: nat, i: nat, x: int, base: bool)
    requires Separate(cs) && i < n <= |cs| && cs[i].Has(x)
    ensures Painted(cs[..n], x, base) == cs[i].w
  {
    assert cs[..n][..n - 1] == cs[..n - 1];
    if i < n - 1 {
      assert !cs[n - 1].Has(x);
      PaintedOnce(cs, n - 1, i, x, base);
    }
  }

  lemma SeenFresh(p: int -> bool, cs: seq<Map>, i: nat, x: int)
    requires Separate(cs) && i < |cs| && cs[i].Has(x)
    ensures Seen(p, cs, i, x) == p(x)
  {
    forall k | 0 <= k < |cs[..i]| ensures !cs[..i][k].Has(x) { assert cs[..i][k] == cs[k]; }
    Unpainted(cs[..i], x, p(x));
  }

  /** Without a silent merge the process follows the table. */
  lemma {:induction false} LeftFollows(os: int -> bool, p: int -> bool, cs: seq<Map>, n: nat, x: int)
    requires n <= |cs| && NoneSilent(p, cs, n) && os(x) == p(x)
    ensures Left(os, p, cs, n, x) == Seen(p, cs, n, x)
    decreases n
  {
    if n > 0 {
      assert cs[..n][..n - 1] == cs[..n - 1];
      LeftFollows(os, p, cs, n - 1, x);
      assert !SilentAt(p, cs, n - 1);
    }
  }

  lemma {:induction false} LeftAlone(os: int -> bool, p: int -> bool, cs: seq<Map>, n: nat, x: int)
    requires n <= |cs| && forall i: nat :: i < n ==> !(cs[i].Has(x) && ProtectsAt(p, cs, i))
    ensures Left(os, p, cs, n, x) == os(x)
    decreases n
  {
    if n > 0 { LeftAlone(os, p, cs, n - 1, x); }
  }

  /** Agreement after a whole list: from agreement, and for maps that share no byte,
      table and process agree exactly if no merge was silent. */
  lemma ListAgreement(t: seq<Map>, ms: seq<Map>, u: seq<Map>, os: int -> bool, os': int -> bool)
    requires WellFormed(t) && AllInRange(t, ms) && Separate(ms) && PaintedBy(t, ms, u)
    requires LaidOver(os, t, ms, os') && Agrees(t, os)
    ensures Agrees(u, os') <==> AllHeard(Shown(t), ms)
  {
    var cs, p := Coalesced(ms), Shown(t);
    CoalescedBytes(ms);
    CoalescedInRange(t, ms);
    assert cs[..|cs|] == cs;
    forall x | Lo(t) <= x < Hi(t) ensures Writable(u, x) == Seen(p, cs, |cs|, x) { CoalescedPaints(ms, x, p(x)); }
    if AllHeard(p, ms) {
      forall x | Lo(t) <= x < Hi(t) ensures os'(x) <==> Writable(u, x) { LeftFollows(os, p, cs, |cs|, x); }
    } else {
      var i: nat :| i < |cs| && SilentAt(p, cs, i);
      var x :| cs[i].Has(x) && Seen(p, cs, i, x) != cs[i].w;
      assert InRange(t, cs[i]);
      SeenFresh(p, cs, i, x);
      PaintedOnce(cs, |cs|, i, x, p(x));
      forall j: nat | j < |cs| ensures !(cs[j].Has(x) && ProtectsAt(p, cs, j)) { assert j < i || j == i || i < j; }
      LeftAlone(os, p, cs, |cs|, x);
      assert os'(x) != Writable(u, x);
    }
  }

  /** A list of maps that make bytes read-only. */
  ghost predicate AllShut(ms: seq<Map>) { forall i :: 0 <= i < |ms| ==> !ms[i].w }

  ghost predicate AllOpen(ms: seq<Map>) { forall i :: 0 <= i < |ms| ==> ms[i].w }

  /** Byte x is writable in p and lies in a silent merge of the list. */
  ghost predicate Bare(p: int -> bool, ms: seq<Map>, x: int) {
    p(x) && exists i: nat :: i < |Coalesced(ms)| && Coalesced(ms)[i].Has(x) && SilentAt(p, Coalesced(ms), i)
  }

  lemma {:induction false} ShutPaints(ms: seq<Map>, x: int, base: bool)
    requires AllShut(ms)
    ensures Painted(ms, x, base) == (base && !Listed(ms, x))
  {
    if ms != [] {
      var n := |ms| - 1;
      ShutPaints(ms[..n], x, base);
      if i :| 0 <= i < |ms| && ms[i].Has(x) { if i < n { assert ms[..n][i].Has(x); } }
      if i :| 0 <= i < n && ms[..n][i].Has(x) { assert ms[i].Has(x); }
    }
  }

  lemma {:induction false} OpenPaintsAll(ms: seq<Map>, x: int, base: bool)
    requires AllOpen(ms)
    ensures Painted(ms, x, base) == (base || Listed(ms, x))
  {
    if ms != [] {
      var n := |ms| - 1;
      OpenPaintsAll(ms[..n], x, base);
      if i :| 0 <= i < |ms| && ms[i].Has(x) { if i < n { assert ms[..n][i].Has(x); } }
      if i :| 0 <= i < n && ms[..n][i].Has(x) { assert ms[i].Has(x); }
    }
  }

  ghost predicate Guarding(p: int -> bool, cs: seq<Map>, n: nat, x: int) {
    exists i: nat :: i < n && i < |cs| && cs[i].Has(x) && ProtectsAt(p, cs, i)
  }

  lemma {:induction false} LeftShut(os: int -> bool, p: int -> bool, cs: seq<Map>, n: nat, x: int)
    requires n <= |cs| && AllShut(cs)
    ensures Left(os, p, cs, n, x) == (os(x) && !Guarding(p, cs, n, x))
    decreases n
  {
    if n > 0 { LeftShut(os, p, cs, n - 1, x); }
  }

  lemma {:induction false} LeftOpen(os: int -> bool, p: int -> bool, cs: seq<Map>, n: nat, x: int)
    requires n <= |cs| && AllOpen(cs)
    ensures Left(os, p, cs, n, x) == (os(x) || Guarding(p, cs, n, x))
    decreases n
  {
    if n > 0 { LeftOpen(os, p, cs, n - 1, x); }
  }

  /** Some merge of a list that shuts bytes is silent exactly if some byte is left bare. */
  lemma HeardBare(p: int -> bool, ms: seq<Map>)
    requires AllShut(ms)
    ensures AllHeard(p, ms) <==> forall x :: !Bare(p, ms, x)
  {
    var cs := Coalesced(ms);
    CoalescedKind(ms, false);
    if !AllHeard(p, ms) {
      var i: nat :| i < |cs| && SilentAt(p, cs, i);
      var x :| cs[i].Has(x) && Seen(p, cs, i, x) != cs[i].w;
      ShutPaints(cs[..i], x, p(x));
      assert Bare(p, ms, x);
    }
  }

  /** Shutting bytes keeps the protection lenient; what leaks afterwards leaked
      before or was left bare, and what was left bare leaks. */
  lemma ShutLeaves(t: seq<Map>, ms: seq<Map>, u: seq<Map>, os: int -> bool, os': int -> bool)
    requires WellFormed(t) && AllInRange(t, ms) && Separate(ms) && AllShut(ms) && PaintedBy(t, ms, u)
    requires LaidOver(os, t, ms, os') && Lenient(t, os)
    ensures Lenient(u, os')
    ensures forall x :: x in Leaking(u, os') ==> x in Leaking(t, os) || Bare(Shown(t), ms, x)
    ensures forall x :: Bare(Shown(t), ms, x) ==> x in Leaking(u, os')
  {
    var cs, p := Coalesced(ms), Shown(t);
    CoalescedBytes(ms);
    CoalescedKind(ms, false);
    forall x | Lo(t) <= x < Hi(t)
      ensures Writable(u, x) == (Writable(t, x) && !Listed(cs, x))
      ensures os'(x) == (os(x) && !Guarding(p, cs, |cs|, x))
    {
      ShutPaints(ms, x, Writable(t, x));
      LeftShut(os, p, cs, |cs|, x);
    }
    forall x | x in Leaking(u, os') && x !in Leaking(t, os) ensures Bare(p, ms, x) {
      var i :| 0 <= i < |cs| && cs[i].Has(x);
      SeenFresh(p, cs, i, x);
      assert !ProtectsAt(p, cs, i) && SilentAt(p, cs, i);
    }
    forall x | Bare(p, ms, x) ensures x in Leaking(u, os') {
      var i: nat :| i < |cs| && cs[i].Has(x) && SilentAt(p, cs, i);
      forall j: nat | j < |cs| && cs[j].Has(x) ensures j == i {}
      assert !ProtectsAt(p, cs, i);
    }
  }

  /** Opening a steady list keeps the protection lenient, and nothing new leaks. */
  lemma OpenLeaves(t: seq<Map>, ms: seq<Map>, u: seq<Map>, os: int -> bool, os': int -> bool)
    requires WellFormed(t) && Steady(t, ms) && AllOpen(ms) && PaintedBy(t, ms, u)
    requires LaidOver(os, t, ms, os') && Lenient(t, os)
    ensures Lenient(u, os') && Leaking(u, os') <= Leaking(t, os)
  {
    var p := Shown(t);
    assert Separate(ms);
    forall x | Lo(t) <= x < Hi(t)
      ensures Writable(u, x) == (Writable(t, x) || Listed(ms, x))
      ensures os'(x) == (os(x) || Guarding(p, ms, |ms|, x))
      ensures Guarding(p, ms, |ms|, x) ==> Listed(ms, x)
    {
      OpenPaintsAll(ms, x, Writable(t, x));
      LeftOpen(os, p, ms, |ms|, x);
    }
    forall x | Lo(t) <= x < Hi(t) && Writable(u, x) && !Writable(t, x) ensures os'(x) {
      var i: nat :| i < |ms| && ms[i].Has(x);
      SeenFresh(p, ms, i, ms[i].start);
      assert Uniform(t, ms[i], Writable(t, ms[i].start));
      assert ProtectsAt(p, ms, i);
    }
  }
}
