/** struct table: a fixed array of maps with a length, edited in place. */
module Tables {
  import opened Layout
  import opened Maps

  class Table {
    var len: nat
    const m: array<Map>

    ghost predicate Valid()
      reads this
    {
      m.Length == MAX_MAPS && len <= MAX_MAPS
    }

    ghost function Contents(): (s: seq<Map>)
      requires Valid()
      reads this, m
      ensures |s| == len
    {
      m[..len]
    }

    constructor ()
      ensures Valid() && fresh(m) && Contents() == []
    {
      len := 0;
      m := new Map[MAX_MAPS](_ => Map(false, 0, 0));
    }

    method At(i: nat) returns (x: Map)
      requires Valid() && i < len
      ensures x == Contents()[i]
    {
      x := m[i];
    }

    /** An assignment through a pointer into the table. */
    method Put(i: nat, x: Map)
      requires Valid() && i < len
      modifies m
      ensures Valid() && Contents() == old(Contents())[i := x]
    {
      m[i] := x;
      assert Contents() == old(Contents())[i := x];
    }

    /** The countdown is over an unsigned index: index 0 of a non-empty table
        would never end it, and no caller passes it. */
    method InsertMap(x: Map, index: nat)
      requires Valid() && index <= len < MAX_MAPS
      requires index == 0 ==> len == 0
      modifies this`len, m
      ensures Valid()
      ensures Contents() == With(old(Contents()), index, x)
    {
      if len == index {
        m[index] := x;
        len := len + 1;
        assert Contents() == With(old(Contents()), index, x);
        return;
      }
      var i := len - 1;
      while i >= index
        invariant index - 1 <= i < len
        invariant len == old(len)
        invariant forall k :: 0 <= k <= i ==> m[k] == old(m[k])
        invariant forall k :: i + 1 < k <= len ==> m[k] == old(m[k - 1])
        invariant i + 1 < len ==> m[i + 1] == old(m[i + 1])
      {
        m[i + 1] := m[i];
        i := i - 1;
      }
      m[index] := x;
      len := len + 1;
      assert Contents() == With(old(Contents()), index, x);
    }

    method RemoveMap(index: nat)
      requires Valid() && index < len < MAX_MAPS
      modifies this`len, m
      ensures Valid()
      ensures Contents() == Without(old(Contents()), index)
    {
      var i := index;
      while i < len
        invariant index <= i <= len
        invariant len == old(len)
        invariant forall k :: 0 <= k < index ==> m[k] == old(m[k])
        invariant forall k :: index <= k < i ==> m[k] == old(m[k + 1])
        invariant forall k :: i <= k < MAX_MAPS ==> m[k] == old(m[k])
      {
        m[i] := m[i + 1];
        i := i + 1;
      }
      len := len - 1;
      m[len] := Map(false, 0, 0);
      assert Contents() == Without(old(Contents()), index);
    }

    /** The first map that starts and ends like x, or -1. */
    method MapIndex(x: Map) returns (i: int)
      requires Valid()
      ensures -1 <= i < len
      ensures i >= 0 ==> Contents()[i].start == x.start && Contents()[i].len == x.len
      ensures forall k :: 0 <= k < (if i >= 0 then i else len) ==>
                Contents()[k].start != x.start || Contents()[k].len != x.len
    {
      i := 0;
      while i < len
        invariant 0 <= i <= len
        invariant forall k :: 0 <= k < i ==> m[k].start != x.start || m[k].len != x.len
      {
        if m[i].len == x.len && m[i].start == x.start { return; }
        i := i + 1;
      }
      i := -1;
    }

    /** Collects the maps that share a byte with nm. */
    method Overlaps(nm: Map, hits: Table)
      requires Valid() && WellFormed(Contents()) && InRange(Contents(), nm)
      requires hits != this && hits.m != m && hits.Valid() && hits.len == 0
      modifies hits`len, hits.m
      ensures hits.Valid() && hits.Contents() == Run(Contents(), nm)
    {
      hide First, Last, Alternating, IndexAt;
      ghost var t := Contents();
      ghost var a, b := First(t, nm), Last(t, nm);
      var i := 0;
      while i < len
        invariant 0 <= i <= len && Contents() == t
        invariant hits.Valid() && hits.len <= i <= b + 1
        invariant hits.Contents() == if i <= a then [] else t[a..i]
      {
        if i < a { Ordered(t, i, a); }
        if a < i { Ordered(t, a, i); }
        if i < b { Ordered(t, i, b); }
        if b < i { Ordered(t, b, i); }
        if nm.start >= m[i].start + m[i].len {
          i := i + 1;
          continue;
        } else if nm.start + nm.len <= m[i].start {
          break;
        }
        assert a <= i <= b;
        ghost var found := hits.Contents();
        hits.m[hits.len] := m[i];
        hits.len := hits.len + 1;
        assert hits.Contents() == found + [t[i]] && t[a..i + 1] == t[a..i] + [t[i]];
        i := i + 1;
      }
    }
  }
}
