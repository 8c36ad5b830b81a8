/** Tables of maps as values: what a table says of each byte, and what it means
    to be well formed. */
module Maps {
  import opened Layout

  /** An interval of bytes, writable or read-only. */
  datatype Map = Map(w: bool, start: int, len: int) {
    function End(): int { start + len }

    predicate Has(x: int) { start <= x < start + len }
  }

  ghost predicate Meets(t: seq<Map>, i: int)
    requires 0 <= i < |t| - 1
  {
    t[i].End() == t[i + 1].start
  }

  ghost predicate Differs(t: seq<Map>, i: int)
    requires 0 <= i < |t| - 1
  {
    t[i].w != t[i + 1].w
  }

  ghost predicate Contiguous(t: seq<Map>) {
    forall i :: 0 <= i < |t| - 1 ==> Meets(t, i)
  }

  ghost predicate Positive(t: seq<Map>) {
    forall i :: 0 <= i < |t| ==> t[i].len > 0
  }

  ghost predicate Alternating(t: seq<Map>) {
    forall i :: 0 <= i < |t| - 1 ==> Differs(t, i)
  }

  /** What full_verify asserts of active_map. */
  ghost predicate WellFormed(t: seq<Map>) {
    |t| > 0 && Positive(t) && Contiguous(t) && Alternating(t)
  }

  function Lo(t: seq<Map>): int
    requires |t| > 0
  {
    t[0].start
  }

  function Hi(t: seq<Map>): int
    requires |t| > 0
  {
    t[|t| - 1].End()
  }

  ghost predicate InRange(t: seq<Map>, nm: Map) {
    |t| > 0 && nm.len > 0 && Lo(t) <= nm.start && nm.End() <= Hi(t)
  }

  lemma {:induction false} Ordered(t: seq<Map>, i: int, j: int)
    requires Positive(t) && Contiguous(t)
    requires 0 <= i < j < |t|
    ensures t[i].End() <= t[j].start
    decreases j - i
  {
    if j > i + 1 {
      Ordered(t, i, j - 1);
      assert Meets(t, j - 1);
    } else {
      assert Meets(t, i);
    }
  }

  lemma {:induction false} HoldsByte(t: seq<Map>, x: int)
    requires |t| > 0 && Positive(t) && Contiguous(t)
    requires Lo(t) <= x < Hi(t)
    ensures exists i :: 0 <= i < |t| && t[i].Has(x)
  {
    if x >= t[0].End() {
      assert Meets(t, 0);
      var u := t[1..];
      forall i | 0 <= i < |u| - 1 ensures Meets(u, i) { assert Meets(t, i + 1); }
      HoldsByte(u, x);
      var i :| 0 <= i < |u| && u[i].Has(x);
      assert t[i + 1].Has(x);
    } else {
      assert t[0].Has(x);
    }
  }

  /** The index of the map that holds byte x. */
  ghost function IndexAt(t: seq<Map>, x: int): (i: int)
    requires |t| > 0 && Positive(t) && Contiguous(t)
    requires Lo(t) <= x < Hi(t)
    ensures 0 <= i < |t| && t[i].Has(x)
  {
    HoldsByte(t, x);
    var i :| 0 <= i < |t| && t[i].Has(x);
    i
  }

  /** What the table says of byte x. */
  ghost function Writable(t: seq<Map>, x: int): bool
    requires |t| > 0 && Positive(t) && Contiguous(t)
    requires Lo(t) <= x < Hi(t)
  {
    t[IndexAt(t, x)].w
  }

  lemma IndexUnique(t: seq<Map>, i: int, x: int)
    requires |t| > 0 && Positive(t) && Contiguous(t)
    requires 0 <= i < |t| && t[i].Has(x)
    ensures Lo(t) <= x < Hi(t) && IndexAt(t, x) == i
  {
    if i > 0 { Ordered(t, 0, i); }
    if i < |t| - 1 { Ordered(t, i, |t| - 1); }
    var j := IndexAt(t, x);
    if j < i { Ordered(t, j, i); }
    if i < j { Ordered(t, i, j); }
  }

  /** The maps of t that share a byte with nm: t[First..Last+1]. */
  ghost function First(t: seq<Map>, nm: Map): (i: int)
    requires WellFormed(t) && InRange(t, nm)
    ensures 0 <= i < |t| && t[i].Has(nm.start)
  {
    IndexAt(t, nm.start)
  }

  ghost function Last(t: seq<Map>, nm: Map): (i: int)
    requires WellFormed(t) && InRange(t, nm)
    ensures First(t, nm) <= i < |t| && t[i].Has(nm.End() - 1)
  {
    var j := IndexAt(t, nm.End() - 1);
    assert First(t, nm) <= j by { if j < First(t, nm) { Ordered(t, j, First(t, nm)); } }
    j
  }

  ghost function Run(t: seq<Map>, nm: Map): (r: seq<Map>)
    requires WellFormed(t) && InRange(t, nm)
    ensures |r| > 0
  {
    t[First(t, nm)..Last(t, nm) + 1]
  }

  ghost function Without(t: seq<Map>, i: int): seq<Map>
    requires 0 <= i < |t|
  {
    t[..i] + t[i + 1..]
  }

  ghost function With(t: seq<Map>, i: int, x: Map): seq<Map>
    requires 0 <= i <= |t|
  {
    t[..i] + [x] + t[i..]
  }

  /** A map that grows at its end. */
  function Widened(h: Map, more: int): Map {
    Map(h.w, h.start, h.len + more)
  }

  /** A map that grows at its start. */
  function Lowered(h: Map, more: int): Map {
    Map(h.w, h.start - more, h.len + more)
  }

  /** No earlier map of the table starts like map i. */
  lemma FirstMatch(t: seq<Map>, i: nat)
    requires Positive(t) && Contiguous(t) && i < |t|
    ensures forall k :: 0 <= k < i ==> t[k].start != t[i].start
  {
    forall k | 0 <= k < i ensures t[k].start != t[i].start { Ordered(t, k, i); }
  }

  /** A table whose maps i..j-1 are replaced by the maps of mid. */
  ghost function Splice(t: seq<Map>, i: int, mid: seq<Map>, j: int): seq<Map>
    requires 0 <= i <= j <= |t|
  {
    t[..i] + mid + t[j..]
  }

  /** mid covers the range of the maps i..j-1 and alternates with its neighbours. */
  ghost predicate Splices(t: seq<Map>, i: int, mid: seq<Map>, j: int) {
    && WellFormed(t) && WellFormed(mid)
    && 0 <= i < j <= |t|
    && Lo(mid) == t[i].start && Hi(mid) == t[j - 1].End()
    && (i > 0 ==> t[i - 1].w != mid[0].w)
    && (j < |t| ==> mid[|mid| - 1].w != t[j].w)
  }

  lemma SpliceWellFormed(t: seq<Map>, i: int, mid: seq<Map>, j: int)
    requires Splices(t, i, mid, j)
    ensures WellFormed(Splice(t, i, mid, j))
    ensures Lo(Splice(t, i, mid, j)) == Lo(t) && Hi(Splice(t, i, mid, j)) == Hi(t)
  {
    var d := Splice(t, i, mid, j);
    var shift := |t| - |d|;
    forall k | 0 <= k < |d| - 1 ensures Meets(d, k) && Differs(d, k) {
      if k < i {
        assert Meets(t, k) && Differs(t, k);
      } else if k < i + |mid| - 1 {
        assert Meets(mid, k - i) && Differs(mid, k - i);
      } else {
        assert Meets(t, k + shift) && Differs(t, k + shift);
      }
    }
  }

  lemma SpliceByte(t: seq<Map>, i: int, mid: seq<Map>, j: int, x: int)
    requires Splices(t, i, mid, j) && Lo(t) <= x < Hi(t)
    ensures WellFormed(Splice(t, i, mid, j))
    ensures Lo(Splice(t, i, mid, j)) == Lo(t) && Hi(Splice(t, i, mid, j)) == Hi(t)
    ensures Writable(Splice(t, i, mid, j), x)
         == if Lo(mid) <= x < Hi(mid) then Writable(mid, x) else Writable(t, x)
  {
    SpliceWellFormed(t, i, mid, j);
    var d := Splice(t, i, mid, j);
    if Lo(mid) <= x < Hi(mid) {
      var k := IndexAt(mid, x);
      assert d[i + k] == mid[k];
      IndexUnique(d, i + k, x);
    } else {
      var k := IndexAt(t, x);
      if i < k { Ordered(t, i, k); }
      if k < j - 1 { Ordered(t, k, j - 1); }
      assert k < i || k >= j;
      IndexUnique(d, if k < i then k else k - |t| + |d|, x);
    }
  }
}
