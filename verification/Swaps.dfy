/** The loop of snap_checkout over the selected pages: swaps for different pages do
    not interfere, and at the end every selected version stands at home. */
module Swaps {
  import opened Layout
  import opened Pages
  import opened VersionStore
  import opened Selection

  function RealOf(mem: map<int, Page>): int -> int {
    loc => if loc in mem then mem[loc].realAddr else loc
  }

  /** The locations among sel whose page is not at home: those are swapped. */
  function Away(mem: map<int, Page>, sel: seq<int>): (r: seq<int>) {
    if sel == [] then []
    else
      var x := sel[|sel| - 1];
      Away(mem, sel[..|sel| - 1]) + if RealOf(mem)(x) != x then [x] else []
  }

  /** Where the loop has brought the version that stood at loc, one of the selected,
      when it has passed the first i of them. */
  function Brought(s: Store, sel: seq<int>, i: int, j: int): int
    requires 0 <= j < |sel|
  {
    if j < i then RealOf(s.mem)(sel[j]) else sel[j]
  }

  /** One location per page, all of them in use. */
  ghost predicate Chosen(s: Store, sel: seq<int>) {
    && (forall i :: 0 <= i < |sel| ==> sel[i] in s.mem)
    && (forall i, j :: 0 <= i < j < |sel| ==> RealOf(s.mem)(sel[i]) != RealOf(s.mem)(sel[j]))
  }

  /** After i rounds every page has the real address it had, and the selected
      versions passed so far stand at home while the others have not moved. */
  ghost predicate Passed(s: Store, sel: seq<int>, i: int, s': Store) {
    && s'.mem.Keys == s.mem.Keys && (forall b :: b in s.mem ==> s'.mem[b].realAddr == s.mem[b].realAddr)
    && |s'.order| == |s.order| && (forall e :: 0 <= e < |s.order| ==> s'.order[e].gen == s.order[e].gen)
    && (forall e, j :: 0 <= e < |s.order| && 0 <= j < |sel| && s.order[e].loc == sel[j] ==> s'.order[e].loc == Brought(s, sel, i, j))
  }

  /** Swaps for different pages do not interfere. */
  lemma PassNext(s: Store, sel: seq<int>, i: int, s1: Store)
    requires Inv(s) && Chosen(s, sel) && 0 <= i < |sel| && Passed(s, sel, i, s1)
    ensures Passed(s, sel, i + 1, if RealOf(s.mem)(sel[i]) != sel[i] then SwapHome(s1, sel[i]) else s1)
  {
    var x := sel[i];
    var r := RealOf(s.mem)(x);
    if r != x {
      var s' := SwapHome(s1, x);
      assert s1.mem[x].realAddr == r && r in s1.mem && s1.mem[r].realAddr == r;
      forall e, j | 0 <= e < |s.order| && 0 <= j < |sel| && s.order[e].loc == sel[j]
        ensures s'.order[e].loc == Brought(s, sel, i + 1, j)
      {
        var y := Brought(s, sel, i, j);
        assert s1.order[e].loc == y && s'.order[e].loc == Other(y, x, r);
        assert y in s.mem && RealOf(s.mem)(y) == RealOf(s.mem)(sel[j]);
        if j != i {
          assert RealOf(s.mem)(sel[j]) != r by { assert RealOf(s.mem)(sel[i]) == r; }
        }
      }
    }
  }

  lemma AwayNext(s: Store, mem: map<int, Page>, sel: seq<int>, i: int)
    requires 0 <= i < |sel|
    ensures SwapsHome(s, Away(mem, sel[..i + 1]))
         == var s1 := SwapsHome(s, Away(mem, sel[..i])); if RealOf(mem)(sel[i]) != sel[i] then SwapHome(s1, sel[i]) else s1
  {
    var (w, x) := (Away(mem, sel[..i]), sel[i]);
    assert sel[..i + 1][..i] == sel[..i];
    assert (w + [x])[..|w|] == w && w + [] == w;
  }

  lemma {:induction false} AllPassed(s: Store, sel: seq<int>, i: int)
    requires Inv(s) && Chosen(s, sel) && 0 <= i <= |sel|
    ensures Passed(s, sel, i, SwapsHome(s, Away(s.mem, sel[..i])))
  {
    if i > 0 {
      AllPassed(s, sel, i - 1);
      PassNext(s, sel, i - 1, SwapsHome(s, Away(s.mem, sel[..i - 1])));
      AwayNext(s, s.mem, sel, i - 1);
    }
  }

  /** The selected version of its page is among the picked ones. */
  lemma SelectedIsPicked(s: Store, k: int, sel: seq<int>, e: int) returns (i: int)
    requires Located(s.order, s.mem) && Picked(s.order, RealOf(s.mem), |s.order|, k, sel) && Selected(s, k, e)
    ensures 0 <= i < |sel| && sel[i] == s.order[e].loc
  {
    var home := RealOf(s.mem);
    assert Lists(sel, home, home(s.order[e].loc));
    i :| 0 <= i < |sel| && home(sel[i]) == home(s.order[e].loc);
    assert Stands(s.order, home, |s.order|, k, sel[i]);
    var d :| LastAmong(s.order, home, |s.order|, k, d) && s.order[d].loc == sel[i];
    assert Real(s, d) == Real(s, e);
  }

  /** At the end every version selected for k stands at its real address. */
  lemma SwapsStand(s: Store, k: int, sel: seq<int>)
    requires Inv(s) && !Mutating(s) && Picked(s.order, RealOf(s.mem), |s.order|, k, sel)
    ensures var s' := SwapsHome(s, Away(s.mem, sel)); Located(s'.order, s'.mem) && StandsHome(s', k)
  {
    var s' := SwapsHome(s, Away(s.mem, sel));
    PickedChosen(s, k, sel);
    AllPassed(s, sel, |sel|);
    assert sel[..|sel|] == sel;
    SwapsHomeKeep(s, Away(s.mem, sel));
    forall e | Selected(s', k, e) ensures s'.order[e].loc == Real(s', e) {
      assert Selected(s, k, e) by {
        forall j | e < j < |s.order| && s.order[j].gen <= k ensures Real(s, j) != Real(s, e) { assert Real(s', j) == Real(s, j); }
      }
      var i := SelectedIsPicked(s, k, sel, e);
      assert s'.order[e].loc == Brought(s, sel, |sel|, i);
    }
  }

  lemma PickedChosen(s: Store, k: int, sel: seq<int>)
    requires Inv(s) && Picked(s.order, RealOf(s.mem), |s.order|, k, sel)
    ensures Chosen(s, sel)
  {
    forall i | 0 <= i < |sel| ensures sel[i] in s.mem {
      assert Stands(s.order, RealOf(s.mem), |s.order|, k, sel[i]);
    }
  }

  /** The loop makes a checkout step. */
  lemma SwapsCheckOut(s: Store, k: int, sel: seq<int>)
    requires Inv(s) && !Mutating(s) && Picked(s.order, RealOf(s.mem), |s.order|, k, sel) && k <= s.last && k != s.committed
    ensures Taken(s, Checkout(k, Away(s.mem, sel)), SwapsHome(s, Away(s.mem, sel)).(working := k, committed := k))
  {
    SwapsStand(s, k, sel);
    StandsSame(SwapsHome(s, Away(s.mem, sel)), k);
  }

  lemma StandsSame(s: Store, k: int)
    requires Located(s.order, s.mem) && StandsHome(s, k)
    ensures StandsHome(s.(working := k, committed := k), k)
  {
    var s' := s.(working := k, committed := k);
    forall i | Selected(s', k, i) ensures s'.order[i].loc == Real(s', i) {
      forall j | i < j < |s.order| && s.order[j].gen <= k ensures Real(s, j) != Real(s, i) { assert Real(s', j) != Real(s', i); }
      assert Selected(s, k, i);
    }
  }
}
