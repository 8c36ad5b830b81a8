/** What the two passes of pages_up_to_gen leave in to_swap. */
module Selection {
  import opened Layout
  import opened VersionStore
  import opened Walks

  /** The first pass counts, the second one picks. */
  function Count(n: nat, loc: int): nat { n + 1 }

  function Picker(home: int -> int): (seq<int>, int) -> seq<int> {
    (sel: seq<int>, loc: int) => Pick(sel, home, loc)
  }

  /** Entry e is the last version of its page among the first n entries. */
  ghost predicate LastAmong(order: seq<Entry>, home: int -> int, n: nat, k: int, e: int) {
    && 0 <= e < n <= |order| && order[e].gen <= k
    && forall j :: e < j < n && order[j].gen <= k ==> home(order[j].loc) != home(order[e].loc)
  }

  /** loc holds the last version of its page among the first n entries. */
  ghost predicate Stands(order: seq<Entry>, home: int -> int, n: nat, k: int, loc: int) {
    exists e :: LastAmong(order, home, n, k, e) && order[e].loc == loc
  }

  ghost predicate Lists(sel: seq<int>, home: int -> int, x: int) {
    exists i :: 0 <= i < |sel| && home(sel[i]) == x
  }

  /** sel has, for the first n entries, exactly one location per page: that of the
      page's last version. */
  ghost predicate Picked(order: seq<Entry>, home: int -> int, n: nat, k: int, sel: seq<int>) {
    && n <= |order|
    && (forall i, j :: 0 <= i < j < |sel| ==> home(sel[i]) != home(sel[j]))
    && (forall i :: 0 <= i < |sel| ==> Stands(order, home, n, k, sel[i]))
    && (forall e :: 0 <= e < n && order[e].gen <= k ==> Lists(sel, home, home(order[e].loc)))
  }

  lemma PickNext(order: seq<Entry>, home: int -> int, n: nat, k: int, sel: seq<int>)
    requires n < |order| && order[n].gen <= k && Picked(order, home, n, k, sel)
    ensures Picked(order, home, n + 1, k, Pick(sel, home, order[n].loc))
  {
    var loc := order[n].loc;
    var p := Position(sel, home, loc, 0);
    var sel' := Pick(sel, home, loc);
    assert LastAmong(order, home, n + 1, k, n);
    assert sel'[p] == loc;
    forall i, j | 0 <= i < j < |sel'| ensures home(sel'[i]) != home(sel'[j]) {}
    forall i | 0 <= i < |sel'| ensures Stands(order, home, n + 1, k, sel'[i]) {
      if i != p {
        assert sel'[i] == sel[i] && Stands(order, home, n, k, sel[i]);
        var e :| LastAmong(order, home, n, k, e) && order[e].loc == sel[i];
        assert home(sel[i]) != home(loc);
        assert LastAmong(order, home, n + 1, k, e);
      }
    }
    forall e | 0 <= e < n + 1 && order[e].gen <= k ensures Lists(sel', home, home(order[e].loc)) {
      if e == n {
        assert home(sel'[p]) == home(loc);
      } else {
        assert Lists(sel, home, home(order[e].loc));
        var i :| 0 <= i < |sel| && home(sel[i]) == home(order[e].loc);
        assert home(sel'[i]) == home(order[e].loc);
      }
    }
  }

  lemma PickNot(order: seq<Entry>, home: int -> int, n: nat, k: int, sel: seq<int>)
    requires n < |order| && order[n].gen > k && Picked(order, home, n, k, sel)
    ensures Picked(order, home, n + 1, k, sel)
  {
    forall i | 0 <= i < |sel| ensures Stands(order, home, n + 1, k, sel[i]) {
      assert Stands(order, home, n, k, sel[i]);
      var e :| LastAmong(order, home, n, k, e) && order[e].loc == sel[i];
      assert LastAmong(order, home, n + 1, k, e);
    }
  }

  /** Version selection: one entry per page among the generations up to k, the
      last one in tree order, and no more entries than the first pass counted. */
  lemma {:induction false} SelectionExact(order: seq<Entry>, home: int -> int, n: nat, k: int)
    requires n <= |order|
    ensures Picked(order, home, n, k, Fold(order[..n], k, Picker(home), []))
    ensures |Fold(order[..n], k, Picker(home), [])| <= Fold(order[..n], k, Count, 0)
  {
    if n > 0 {
      var front, x := order[..n - 1], [order[n - 1]];
      assert order[..n] == front + x && x[1..] == [];
      FoldConcat(front, x, k, Picker(home), []);
      FoldConcat(front, x, k, Count, 0);
      SelectionExact(order, home, n - 1, k);
      var sel := Fold(front, k, Picker(home), []);
      if order[n - 1].gen <= k {
        PickNext(order, home, n - 1, k, sel);
      } else {
        PickNot(order, home, n - 1, k, sel);
      }
    }
  }

  /** The entries of generations up to k among the first n ones. */
  function UpTo(order: seq<Entry>, n: nat, k: int): set<int>
    requires n <= |order|
  {
    set e | 0 <= e < n && order[e].gen <= k
  }

  /** The first pass counts the entries of generations up to k. */
  lemma {:induction false} CountExact(order: seq<Entry>, n: nat, k: int)
    requires n <= |order|
    ensures Fold(order[..n], k, Count, 0) == |UpTo(order, n, k)|
  {
    if n > 0 {
      var front, x := order[..n - 1], [order[n - 1]];
      assert order[..n] == front + x && x[1..] == [];
      FoldConcat(front, x, k, Count, 0);
      CountExact(order, n - 1, k);
      assert UpTo(order, n, k) == UpTo(order, n - 1, k) + if order[n - 1].gen <= k then {n - 1} else {};
    }
  }
}
