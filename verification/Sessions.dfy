/** Sessions of the server: what the driver does with the lines of its input, and
    what a session does to the versions of the heap. */
module Sessions {
  import opened Layout
  import opened Maps
  import opened Pages
  import opened VersionStore
  import opened History
  import opened LinearHistory
  import opened Walks
  import opened Placement
  import opened Guards
  import opened HeapStates
  import opened Trees
  import opened Forest
  import opened Evolution
  import opened Sights
  import opened Evaluator
  import opened Shields
  import opened Breaches

  /** A line of input: no object, or a generation that is no number; an object
      without arguments or code; or a query. `from` is the generation asked for. */
  datatype Input =
    | Bad
    | Incomplete(from: Option<int>)
    | Query(from: Option<int>, ops: seq<Op>, fails: bool, readonly: bool)

  datatype Reply = Reply(error: bool, gen: int, parent: int)

  // ------------------------------------------------------------ replies

  function WorksFrom(head: int, x: Input): int
    requires x.Query?
  {
    if x.from.Some? then x.from.value else head
  }

  /** The committed generation after a query that got generation r. */
  function HeadAfter(head: int, r: int, x: Input): int
    requires x.Query?
  {
    if x.fails || x.readonly then WorksFrom(head, x) else r
  }

  /** The replies of a session: the loop ends at the first line that is no query. */
  function Replies(head: int, last: int, xs: seq<Input>): seq<Reply>
    decreases xs
  {
    if xs == [] || !xs[0].Query? then []
    else [Reply(xs[0].fails, last + 1, WorksFrom(head, xs[0]))] + Replies(HeadAfter(head, last + 1, xs[0]), last + 1, xs[1..])
  }

  /** The result generations strictly increase, one by one; a query without an
      explicit generation works from the result of the one before if that was
      neither in error nor read-only, and else from what that one worked from. */
  lemma {:induction false} RepliesIncrease(head: int, last: int, xs: seq<Input>, j: nat)
    requires j < |Replies(head, last, xs)|
    ensures j < |xs| && xs[j].Query? && (j > 0 ==> xs[j - 1].Query?) && Replies(head, last, xs)[j].gen == last + 1 + j
    ensures xs[j].from.Some? ==> Replies(head, last, xs)[j].parent == xs[j].from.value
    ensures xs[j].from.None? && j > 0 && (xs[j - 1].fails || xs[j - 1].readonly) ==>
              Replies(head, last, xs)[j].parent == Replies(head, last, xs)[j - 1].parent
    ensures xs[j].from.None? && j > 0 && !(xs[j - 1].fails || xs[j - 1].readonly) ==>
              Replies(head, last, xs)[j].parent == Replies(head, last, xs)[j - 1].gen
    decreases xs
  {
    if j > 0 {
      var rest := Replies(HeadAfter(head, last + 1, xs[0]), last + 1, xs[1..]);
      RepliesIncrease(HeadAfter(head, last + 1, xs[0]), last + 1, xs[1..], j - 1);
      assert Replies(head, last, xs)[j] == rest[j - 1] && xs[j] == xs[1..][j - 1];
      if j > 1 { assert xs[j - 1] == xs[1..][j - 2]; }
    }
  }

  /** Every query of the session works from the generation that is the newest then. */
  predicate Straight(head: int, last: int, xs: seq<Input>)
    decreases xs
  {
    xs == [] || !xs[0].Query?
    || (WorksFrom(head, xs[0]) == last && Straight(HeadAfter(head, last + 1, xs[0]), last + 1, xs[1..]))
  }

  lemma SessionNext(head: int, last: int, x: Input, xs: seq<Input>)
    ensures x.Query? ==> Replies(head, last, [x] + xs) == Replies(head, last, [x]) + Replies(HeadAfter(head, last + 1, x), last + 1, xs)
    ensures !x.Query? ==> Replies(head, last, [x] + xs) == Replies(head, last, [x]) == []
    ensures |Replies(head, last, [x])| == if x.Query? then 1 else 0
    ensures Replies(head, last, []) == []
    ensures Straight(head, last, [x] + xs) ==>
              Straight(head, last, [x]) && (x.Query? ==> Straight(HeadAfter(head, last + 1, x), last + 1, xs))
  {
    assert ([x] + xs)[1..] == xs && [x][1..] == [];
  }

  // ------------------------------------------------------------ transactions

  ghost predicate Newest(st: State) { Id(st, st.committed) == st.last }

  lemma WorkDone(st0: State, st1: State, evaluation: seq<Step>, st2: State, st3: State)
    requires Done(st0, Begin, st1) && Evaluated(st1, evaluation, st2) && Done(st2, Commit, st3)
    ensures Evaluates(evaluation) && Travelled(st0, Newest(st0), Worked(evaluation), st3)
  {
    hide Done, Travelled;
    TravelledOne(st0, Begin, st1);
    TravelledOne(st2, Commit, st3);
    TravelledThen(st0, Newest(st0), [Begin], st1, true, evaluation, st2);
    TravelledThen(st0, Newest(st0), [Begin] + evaluation, st2, true, [Commit], st3);
  }

  /** A transaction of steps ls that was rolled back led from s to s'. The heap is
      coherent for the parent now; and if all writes into committed pages were trapped,
      every page of the parent is byte for byte as before exactly if the heap was
      coherent for it before. */
  ghost predicate Undone(s: Store, ls: seq<Step>, s': Store) {
    && Located(s.order, s.mem) && Located(s'.order, s'.mem)
    && s'.committed == s.committed && Coherent(s', s.committed)
    && (Sealed(ls) ==> (Restored(s, s', s.committed) <==> Coherent(s, s.committed)))
  }

  lemma WorkUndone(st0: State, evaluation: seq<Step>, st3: State, p: int, swaps: seq<int>, st': State)
    requires Sane(st0, {}) && !Mut(st0) && p == View(st0).committed
    requires Evaluates(evaluation) && Travelled(st0, Newest(st0), Worked(evaluation), st3) && Done(st3, Checkout(p, swaps), st')
    ensures Travelled(st0, Newest(st0), Worked(evaluation) + [Checkout(p, swaps)], st')
    ensures Undone(View(st0), Worked(evaluation) + [Checkout(p, swaps)], View(st'))
  {
    hide Inv, Shaped, Headed, Tail, Taken, View, Coherent, Restored, Done, Sealed;
    SaneTop(st0, {});
    HeadIds(st0);
    TravelledOne(st3, Checkout(p, swaps), st');
    TravelledThen(st0, Newest(st0), Worked(evaluation), st3, true, [Checkout(p, swaps)], st');
    Rollback(View(st0), evaluation, p, swaps, View(st'));
    WorkSealed(evaluation, p, swaps);
  }

  lemma WorkSealed(evaluation: seq<Step>, p: int, swaps: seq<int>)
    ensures Sealed(Worked(evaluation)) ==> Sealed(evaluation)
    ensures Sealed(Worked(evaluation) + [Checkout(p, swaps)]) ==> Sealed(evaluation)
  {
    var ls := Worked(evaluation);
    assert forall i :: 0 <= i < |evaluation| ==> evaluation[i] == ls[i + 1] == (ls + [Checkout(p, swaps)])[i + 1];
  }

  // ------------------------------------------------------------ what a query does

  /** The operations of a query took effect on what the interpreter sees, and the pages
      that they changed or added are those of a new committed generation. */
  ghost predicate Works(st: State, ops: seq<Op>, st': State) {
    && (exists st1, evaluation, st2 :: WorksBy(st, ops, st1, evaluation, st2, st'))
    && Performed(Sight(st.pages), ops, Sight(st'.pages)) && |st'.pages| <= |st.pages| + 2 * |ops|
    && Lands(st, st') && !Mut(st') && st'.last == st.last + 1 && Id(st', st'.committed) == st'.last
  }

  /** What happens between: a new generation begins, nothing but the operations is done in
      it, and it is committed. */
  ghost predicate WorksBy(st: State, ops: seq<Op>, st1: State, evaluation: seq<Step>, st2: State, st': State) {
    Done(st, Begin, st1) && Hangs(st, st1) && ActedAll(st1, ops, evaluation, st2) && Done(st2, Commit, st')
  }

  /** The same, and then the generation before is checked out if the query failed or only
      read. */
  ghost predicate Answers(st: State, ops: seq<Op>, back: bool, st': State) {
    exists m :: Works(st, ops, m) && if back then Returns(st, m, st') else st' == m
  }

  /** The heap in m goes back to the generation that was committed in st. */
  ghost predicate Returns(st: State, m: State, st': State) {
    Leaves(m, Id(st, st.committed), st') && st'.committed == st.committed
  }

  /** The heap checks out generation k. */
  ghost predicate Leaves(m: State, k: int, st': State) {
    Done(m, Checkout(k, SwapsTo(View(m), k)), st') && Id(st', st'.committed) == k && !Mut(st') && |st'.pages| == |m.pages|
  }

  /** What a line of input does before its operations, if it asks for a generation. */
  ghost predicate Goes(st: State, from: Option<int>, st': State) {
    if from.None? then st' == st else Leaves(st, from.value, st')
  }

  /** What a line of input does. */
  ghost predicate Serves(st: State, x: Input, st': State) {
    if x.Bad? then st' == st
    else exists m :: Goes(st, x.from, m) && if x.Query? then Answers(m, x.ops, x.fails || x.readonly, st') else st' == m
  }

  /** What a session does: the lines one after the other, to the first that is no query. */
  ghost predicate Session(st: State, xs: seq<Input>, st': State)
    decreases xs
  {
    if xs == [] then st' == st
    else exists m :: Serves(st, xs[0], m) && if xs[0].Query? then Session(m, xs[1..], st') else st' == m
  }

  predicate AllQueries(xs: seq<Input>) { forall i :: 0 <= i < |xs| ==> xs[i].Query? }

  lemma {:induction false} SessionJoin(st: State, xs: seq<Input>, m: State, ys: seq<Input>, st': State)
    requires AllQueries(xs) && Session(st, xs, m) && Session(m, ys, st')
    ensures Session(st, xs + ys, st')
    decreases xs
  {
    hide Serves;
    if xs == [] {
      assert xs + ys == ys;
    } else {
      assert (xs + ys)[0] == xs[0] && (xs + ys)[1..] == xs[1..] + ys;
      var n :| Serves(st, xs[0], n) && if xs[0].Query? then Session(n, xs[1..], m) else m == n;
      SessionJoin(n, xs[1..], m, ys, st');
    }
  }

  /** One more line, and whatever follows if it is no query. */
  lemma SessionOne(st: State, xs: seq<Input>, m: State, x: Input, ys: seq<Input>, st': State)
    requires AllQueries(xs) && Session(st, xs, m) && Serves(m, x, st') && (x.Query? ==> ys == [])
    ensures Session(st, xs + [x] + ys, st')
  {
    hide Serves;
    assert ([x] + ys)[0] == x && ([x] + ys)[1..] == ys;
    assert Session(m, [x] + ys, st');
    SessionJoin(st, xs, m, [x] + ys, st');
    assert xs + [x] + ys == xs + ([x] + ys);
  }

  /** A query that goes on from where the session stands and changes it. */
  predicate Plain(x: Input) { x.Query? && x.from.None? && !x.fails && !x.readonly }

  function Asked(x: Input): seq<Op> { if x.Query? then x.ops else [] }

  function Operations(xs: seq<Input>): seq<Op>
    decreases xs
  {
    if xs == [] then [] else Asked(xs[0]) + Operations(xs[1..])
  }

  lemma NonePerformed(m: map<int, Page>)
    ensures Performed(m, [], m)
  {
  }

  lemma PlainServes(st: State, x: Input, st': State)
    requires Plain(x) && Serves(st, x, st')
    ensures Performed(Sight(st.pages), x.ops, Sight(st'.pages))
  {
    hide Sight, Performed, Lands, WorksBy, Returns, Leaves;
    var m :| Goes(st, x.from, m) && Answers(m, x.ops, false, st');
  }

  /** A session of plain queries takes the interpreter through all their operations: what
      one query leaves, the next one finds. */
  lemma {:induction false} SessionPerforms(st: State, xs: seq<Input>, st': State)
    requires (forall i :: 0 <= i < |xs| ==> Plain(xs[i])) && Session(st, xs, st')
    ensures Performed(Sight(st.pages), Operations(xs), Sight(st'.pages))
    decreases xs
  {
    hide Sight, Serves, Performed;
    if xs == [] {
      assert Performed(Sight(st.pages), [], Sight(st'.pages)) by { NonePerformed(Sight(st.pages)); }
    } else {
      var n :| Serves(st, xs[0], n) && if xs[0].Query? then Session(n, xs[1..], st') else st' == n;
      assert Plain(xs[0]);
      PlainServes(st, xs[0], n);
      SessionPerforms(n, xs[1..], st');
      PerformedJoin(Sight(st.pages), xs[0].ops, Sight(n.pages), Operations(xs[1..]), Sight(st'.pages));
    }
  }

  /** A session adds at most two pages per operation. */
  lemma {:induction false} SessionCount(st: State, xs: seq<Input>, st': State)
    requires AllQueries(xs) && Session(st, xs, st')
    ensures |st'.pages| <= |st.pages| + 2 * |Operations(xs)|
    decreases xs
  {
    hide Performed, Lands, Done;
    if xs != [] {
      var n :| Serves(st, xs[0], n) && if xs[0].Query? then Session(n, xs[1..], st') else st' == n;
      assert xs[0].Query?;
      SessionCount(n, xs[1..], st');
    }
  }

  // ------------------------------------------------------------ what does not return

  /** Why a query does not return: the protection is left with an empty map, an operation
      fails, or there are too many pages. */
  ghost predicate QueryFails(stop: Stop, st: State, ro: set<int>, size: int, ops: seq<Op>) {
    || (stop == EmptyLeft && !Completes(View(st), ro))
    || (stop == TableFull && Crowded(|st.pages| + 2 * |ops|))
    || Fails(stop, Sight(st.pages), |st.pages|, size, ops)
  }

  /** Why a line of input does not return. */
  ghost predicate LineFails(stop: Stop, st: State, ro: set<int>, size: int, x: Input) {
    && !x.Bad?
    && ((stop == NoGeneration && x.from.Some? && !(0 <= x.from.value <= st.last))
        || (stop == TableFull && x.from.Some? && Crowded(|st.pages|))
        || (x.Query? && exists m, ro' :: Goes(st, x.from, m) && RoLeft(st, ro, x.from, ro') && QueryFails(stop, m, ro', size, x.ops)))
  }

  ghost predicate RoLeft(st: State, ro: set<int>, from: Option<int>, ro': set<int>) {
    ro' == if from.None? then ro else RoAfter(View(st), ro, Checkout(from.value, SwapsTo(View(st), from.value)))
  }

  /** Why a session does not return, at line k after the steps ls. */
  ghost predicate SessionFails(stop: Stop, st: State, ro: set<int>, size: int, xs: seq<Input>, ls: seq<Step>, k: int) {
    exists m, size' :: SessionFailsAt(stop, st, ro, size, xs, ls, k, m, size')
  }

  ghost predicate SessionFailsAt(stop: Stop, st: State, ro: set<int>, size: int, xs: seq<Input>, ls: seq<Step>, k: int,
                                 m: State, size': int)
  {
    && 0 <= k < |xs| && AllQueries(xs[..k]) && Session(st, xs[..k], m) && VersionStore.Run(View(st), ls, View(m)) && size' >= size
    && LineFails(stop, m, RoEnd(View(st), ro, ls), size', xs[k])
  }

  lemma {:induction false} AskedSplit(xs: seq<Input>, k: nat)
    requires k < |xs| && AllQueries(xs[..k])
    ensures |Operations(xs[..k])| + |Asked(xs[k])| <= |Operations(xs)|
    decreases xs
  {
    if k > 0 {
      assert xs[..k][0] == xs[0] && xs[..k][1..] == xs[1..][..k - 1];
      AskedSplit(xs[1..], k - 1);
    }
  }

  /** A session runs out of the table of maps only if the heap has, or its operations may
      have added, too many pages. */
  lemma SessionRoom(st: State, ro: set<int>, size: int, xs: seq<Input>, ls: seq<Step>, k: int)
    requires SessionFails(TableFull, st, ro, size, xs, ls, k)
    ensures Crowded(|st.pages| + 2 * |Operations(xs)|)
  {
    hide Performed, Session, Completes, Done, RoAfter, RoEnd, VersionStore.Run, Sight, Fails;
    var m, size' :| SessionFailsAt(TableFull, st, ro, size, xs, ls, k, m, size');
    AskedSplit(xs, k);
    SessionCount(st, xs[..k], m);
    if !(xs[k].from.Some? && Crowded(|m.pages|)) {
      var m1, ro' :| Goes(m, xs[k].from, m1) && RoLeft(m, RoEnd(View(st), ro, ls), xs[k].from, ro')
                     && QueryFails(TableFull, m1, ro', size', xs[k].ops);
      if !Crowded(|m1.pages| + 2 * |xs[k].ops|) { FailsCrowded(Sight(m1.pages), |m1.pages|, size', xs[k].ops); }
    }
  }

  // ------------------------------------------------------------ where a query lands

  lemma WorkLands(st0: State, st1: State, evaluation: seq<Step>, st2: State, st3: State)
    requires Sane(st0, {}) && !Mut(st0) && Done(st0, Begin, st1) && Hangs(st0, st1)
    requires Evaluated(st1, evaluation, st2) && Done(st2, Commit, st3)
    ensures Lands(st0, st3)
  {
    var g, t1 :| Hosts(st0.tree, st0.committed, g, t1) && HangsAt(st0, g, t1, st1);
    var e, e' := TipEnd(st1), TipEnd(st2);
    PlaceIn(st0, g);
    SaneTop(st0, {});
    HeadIds(st0);
    RunLands(View(st0), View(st1), evaluation, e, e', View(st2), View(st3));
    assert LandsAt(st0, g, t1, e' - e, st3);
  }

  lemma PlaceIn(st: State, g: int)
    requires Sane(st, {}) && g in Gens(st.tree)
    ensures EndOf(st.tree, g) <= |View(st).order|
  {
    AddLeafOrder(st.tree, g, NULL);
  }

  lemma RunLands(s0: Store, s1: Store, evaluation: seq<Step>, e: int, e': int, s2: Store, s3: Store)
    requires Inv(s0) && Taken(s0, Begin, s1) && VersionStore.Run(s1, evaluation, s2) && Evaluates(evaluation) && Taken(s2, Commit, s3)
    requires Stacked(e, evaluation, e') && 0 <= e <= |s0.order|
    ensures Spliced(s0, e, e' - e, s0.last + 1, s3)
  {
    StepKeeps(s0, Begin, s1);
    RunSplices(s1, evaluation, e, e', s2);
    assert forall i :: 0 <= i < |s2.order| ==> Real(s3, i) == Real(s2, i);
  }

  // ------------------------------------------------------------ whole sessions

  /** A session of steps ls. Versions committed before keep their order and their
      pages, and one changes only if a write into its page was not trapped. If all were
      trapped, none changes; and if every mutation began at the newest generation, all
      pages are as they were when that generation was committed, whenever it is
      committed again. */
  ghost predicate Ran(st: State, newest: bool, ls: seq<Step>, st': State) {
    && Travelled(st, newest, ls, st') && Confined(View(st), ls, View(st'))
    && (Sealed(ls) ==> Unchanged(View(st), View(st')))
    && (Sealed(ls) && newest && Tail(st) && TipHome(View(st)) ==> Tail(st') && TimeTravels(View(st), View(st')))
  }

  ghost predicate TimeTravels(s: Store, s': Store) {
    && TipHome(s') && Located(s.order, s.mem)
    && (s'.committed == s.committed ==> Restored(s, s', s.committed))
  }

  ghost predicate Unchanged(s: Store, s': Store) {
    && Located(s.order, s.mem) && Located(s'.order, s'.mem)
    && forall k :: k <= s.last ==> Versions(s', k) == Versions(s, k)
  }

  ghost predicate Confined(s: Store, ls: seq<Step>, s': Store) {
    && Located(s.order, s.mem) && Located(s'.order, s'.mem)
    && (forall k :: k <= s.last ==> SameVersions(s, s', k))
    && (forall k, n, x :: k <= s.last && Altered(s, s', k, n, x) ==> LeaksTo(ls, x))
  }

  lemma SessionRan(st: State, newest: bool, ls: seq<Step>, st': State, straight: bool)
    requires Sane(st, {}) && !Mut(st) && !Mut(st') && Travelled(st, newest, ls, st') && (straight ==> newest)
    ensures Ran(st, straight, ls, st')
  {
    hide Inv, Shaped, Headed, Tail, VersionStore.Run, LinearRun, TipHome, Unchanged, TimeTravels, Confined, Sealed;
    SaneTop(st, {});
    HeadIds(st);
    VersionsConfined(View(st), ls, View(st'));
    if Sealed(ls) {
      VersionsStay(View(st), ls, View(st'));
      if straight && Tail(st) && TipHome(View(st)) { StraightTravels(View(st), ls, View(st')); }
    }
  }

  lemma VersionsConfined(s: Store, ls: seq<Step>, s': Store)
    requires Inv(s) && !Mutating(s) && VersionStore.Run(s, ls, s')
    ensures Confined(s, ls, s')
  {
    RunConfined(s, ls, s', s.last);
    forall k | k <= s.last ensures SameVersions(s, s', k) { RunConfined(s, ls, s', k); }
    forall k, n, x | k <= s.last && Altered(s, s', k, n, x) ensures LeaksTo(ls, x) { RunConfined(s, ls, s', k); }
  }

  lemma VersionsStay(s: Store, ls: seq<Step>, s': Store)
    requires Inv(s) && !Mutating(s) && VersionStore.Run(s, ls, s') && Sealed(ls)
    ensures Unchanged(s, s')
  {
    RunFrozen(s, ls, s', s.last);
    forall k | k <= s.last ensures Versions(s', k) == Versions(s, k) { RunFrozen(s, ls, s', k); }
  }

  lemma StraightTravels(s: Store, ls: seq<Step>, s': Store)
    requires Inv(s) && !Mutating(s) && !Mutating(s') && TipHome(s) && LinearRun(s, ls, s') && Sealed(ls)
    ensures TimeTravels(s, s')
  {
    LinearRunKeeps(s, ls, s');
    if s'.committed == s.committed { LinearTimeTravel(s, ls, s'); }
  }

  // ------------------------------------------------------------ straight sessions

  /** Every page of a sane heap is an entry of the version order. */
  lemma AllEntered(st: State)
    requires Sane(st, {})
    ensures Entered(View(st))
  {
    forall a | a in st.pages ensures exists i :: 0 <= i < |View(st).order| && View(st).order[i].loc == a {
      PageHasEntry(st, {}, a);
      var k :| PageItem(a, k) in Items(st.tree, 0) && Entry(k, a) in View(st).order;
    }
  }

  /** A transaction that begins at the newest generation leaves the heap settled. */
  lemma TransactionSettles(st: State, ro: set<int>, was: set<int>, evaluation: seq<Step>, st3: State, ro3: set<int>, now: set<int>)
    requires Sane(st3, {}) && Tail(st) && Settled(View(st), ro) && Evaluates(evaluation)
    requires Travelled(st, true, Worked(evaluation), st3) && Watched(View(st), ro, was, Worked(evaluation), ro3, now)
    ensures Settled(View(st3), ro3)
  {
    hide Quietly, LeaksFrom, Calm, RoEnd, Sane, Tail, Settled, LinearRun, Evaluates, Entered;
    AllEntered(st3);
    WorkSettles(View(st), ro, evaluation, View(st3));
  }

  // ------------------------------------------------------------ what stays guarded

  /** What a transaction leaves read-only, and which of its writes were not trapped. */
  lemma WorkGuards(st: State, ro: set<int>, st1: State, evaluation: seq<Step>, st2: State, ro2: set<int>, st3: State,
                   was: set<int>, bytes: set<int>, now: set<int>)
    requires Sane(st, {}) && Done(st, Begin, st1) && Evaluated(st1, evaluation, st2) && Done(st2, Commit, st3)
    requires Shielded(View(st), ro, was, bytes) && LeaksIn(evaluation, bytes) && now <= bytes && ro2 == Homes(st2.pages)
    ensures Watched(View(st), ro, was, Worked(evaluation), ro2, now)
  {
    hide Inv, Shaped, Headed, Tail, Taken, Completes, Bared, Homes, RoEnd, Quietly, LinearRun;
    SaneTop(st, {});
    WorkRo(View(st), ro, View(st1), evaluation, View(st2), View(st3));
    WorkLeaks(View(st), ro, evaluation, was, bytes);
    if was == {} && Quiet(View(st), ro) {
      QuietSealed(Worked(evaluation), View(st), ro);
      assert forall x :: x !in bytes;
    }
  }

  lemma WorkLeaks(s: Store, ro: set<int>, evaluation: seq<Step>, was: set<int>, bytes: set<int>)
    requires LeaksIn(evaluation, bytes) && forall x :: x in bytes ==> x in was || Bared(s, ro, x)
    ensures LeaksFrom(Worked(evaluation), s, ro, was)
  {
    hide Bared;
    var ls := Worked(evaluation);
    forall i | 0 <= i < |ls| ensures LeakFrom(ls[i], s, ro, was) {
      if ls[i].Leak? { assert ls[i] == evaluation[i - 1] && LeakIn(evaluation[i - 1], bytes); }
    }
  }

  /** The checkout of the parent opens pages and leaks nothing. */
  lemma BackGuards(st: State, ro: set<int>, was: set<int>, ls: seq<Step>, st3: State, ro3: set<int>, mid: set<int>, p: int,
                   st': State, ro': set<int>, now: set<int>)
    requires var l := Checkout(p, SwapsTo(View(st3), p));
             Travelled(st, Newest(st), ls, st3) && Done(st3, l, st') && ro' == RoAfter(View(st3), ro3, l)
    requires Watched(View(st), ro, was, ls, ro3, mid) && now <= mid
    ensures Watched(View(st), ro, was, ls + [Checkout(p, SwapsTo(View(st3), p))], ro', now)
    ensures p == st.last == st3.last - 1 && Settled(View(st3), ro3) ==> Settled(View(st'), ro')
  {
    hide Sane, Tail, Taken, Bared, Settled, RoEnd, RoAfter, Quietly, LinearRun, SwapsTo, Quiet;
    var l := Checkout(p, SwapsTo(View(st3), p));
    RoOne(View(st3), ro3, l);
    RoJoin(View(st), ro, ls, View(st3), [l]);
    CalmNot(View(st3), ro3, mid, [l], now);
    CalmThen(View(st), ro, was, ls, View(st3), mid, [l], now);
    forall i | 0 <= i < |ls + [l]| ensures LeakFrom((ls + [l])[i], View(st), ro, was) {
      if i < |ls| { assert LeakFrom(ls[i], View(st), ro, was); }
    }
    if p == st.last == st3.last - 1 && Settled(View(st3), ro3) { SettledCheckout(View(st3), ro3, p, View(st')); }
  }

  lemma StaysSettled(st: State, ro: set<int>, k: int, st': State)
    requires Settled(View(st), ro) && k >= st.last - 1 && Done(st, Checkout(k, SwapsTo(View(st), k)), st')
    ensures Settled(View(st'), RoAfter(View(st), ro, Checkout(k, SwapsTo(View(st), k))))
  {
    hide Settled, RoAfter, SwapsTo, Sane, Tail, Taken;
    SettledCheckout(View(st), ro, k, View(st'));
  }

  /** A settled heap whose newest generation is committed begins quietly, and no merge
      aborts. */
  lemma QueryBegins(st: State, t: seq<Map>, sp: Space, ro: set<int>)
    requires ReadyFor(t, sp, st.pages, ro)
    ensures Settled(View(st), ro) && Newest(st) ==> Quiet(View(st), ro) && Completes(View(st), ro)
  {
    PlacedPages(sp, st.pages);
    if Settled(View(st), ro) && Newest(st) { SettledQuiet(View(st), ro, sp.size); }
  }

  lemma NoneSealed()
    ensures Sealed([])
  {
  }

  lemma QuerySealed(s: Store, ro: set<int>, a: seq<Step>, was: set<int>, b: seq<Step>, ro': set<int>, now: set<int>)
    requires Sealed(a) && Watched(s, ro, was, b, ro', now)
    ensures was == {} && Quiet(s, ro) ==> Sealed(a + b) && now == {}
  {
  }

  lemma TravelledTail(st: State, newest: bool, ls: seq<Step>, st': State)
    requires Travelled(st, newest, ls, st')
    ensures newest && Tail(st) ==> Tail(st')
  {
  }

  lemma CalmJoin(st: State, ro: set<int>, was: set<int>, newest: bool, a: seq<Step>, m: State, mid: set<int>, newest': bool,
                 b: seq<Step>, st': State, now: set<int>)
    requires Travelled(st, newest, a, m) && Travelled(m, newest', b, st')
    requires Calm(View(st), ro, was, a, mid) && Calm(View(m), RoEnd(View(st), ro, a), mid, b, now)
    ensures Calm(View(st), ro, was, a + b, now)
    ensures RoEnd(View(st), ro, a + b) == RoEnd(View(m), RoEnd(View(st), ro, a), b)
  {
    hide Tail, LinearRun, Calm, RoEnd;
    CalmThen(View(st), ro, was, a, View(m), mid, b, now);
    RoJoin(View(st), ro, a, View(m), b);
  }

  lemma SealedJoin(a: seq<Step>, b: seq<Step>)
    ensures Sealed(a) && Sealed(b) ==> Sealed(a + b)
  {
  }

  /** A query after a checkout. */
  lemma QueryCalm(st: State, ro: set<int>, was: set<int>, a: seq<Step>, m: State, mro: set<int>, mid: set<int>,
                  b: seq<Step>, st': State, ro': set<int>, now: set<int>)
    requires Travelled(st, true, a, m) && mro == RoEnd(View(st), ro, a) && Calm(View(st), ro, was, a, mid)
    requires Watched(View(m), mro, mid, b, ro', now)
    ensures Calm(View(st), ro, was, a + b, now) && ro' == RoEnd(View(st), ro, a + b)
  {
    hide Tail, LinearRun, Calm, RoEnd, Quietly, Quiet, LeaksFrom;
    CalmThen(View(st), ro, was, a, View(m), mid, b, now);
    RoJoin(View(st), ro, a, View(m), b);
  }

  /** The history starts linear: what the interpreter sees after the first commit is
      the newest generation, and the heap is settled. */
  lemma FirstTip(first: Page)
    requires Tiled(first, FIRST_PAGE) && first.realAddr == FIRST_PAGE && first.committed
    ensures var st := FirstState(first);
            Sane(st, {}) && !Mut(st) && Tail(st) && Newest(st) && TipHome(View(st)) && Settled(View(st), {})
  {
    FirstSane(first);
    FirstItems();
    var s := View(FirstState(first));
    assert s.order == [Entry(0, FIRST_PAGE)] && Real(s, 0) == FIRST_PAGE;
  }

  /** The first heap of the failing runs is such a heap. */
  lemma FirstIs()
    ensures Started() == View(FirstState(Block(P0, 0, P0, true)))
  {
    FirstItems();
  }
}
