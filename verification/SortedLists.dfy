/** The sorted lists behind rows, columns and headers (sparse_int.h, rows.c, cols.c). */
module SortedLists {

  ghost predicate Sorted(s: seq<nat>) {
    forall i, j :: 0 <= i < j < |s| ==> s[i] < s[j]
  }

  ghost function Elems(s: seq<nat>): set<nat> {
    set x | x in s
  }

  lemma {:induction false} SortedLength(s: seq<nat>)
    requires Sorted(s)
    ensures |Elems(s)| == |s|
  {
    if s != [] {
      var n := |s| - 1;
      SortedLength(s[..n]);
      assert Elems(s) == Elems(s[..n]) + {s[n]};
      assert s[n] !in s[..n];
    }
  }

  /** A sorted list is determined by its elements. */
  lemma {:induction false} SortedUnique(s: seq<nat>, t: seq<nat>)
    requires Sorted(s) && Sorted(t) && Elems(s) == Elems(t)
    ensures s == t
  {
    SortedLength(s);
    SortedLength(t);
    if s != [] {
      var n := |s| - 1;
      assert s[n] in Elems(t) && t[n] in Elems(s);
      assert s[n] == t[n];
      assert forall x :: x in Elems(s[..n]) <==> x in Elems(s) && x != s[n];
      assert forall x :: x in Elems(t[..n]) <==> x in Elems(t) && x != t[n];
      SortedUnique(s[..n], t[..n]);
    }
  }

  /** The list without x (`dll_unlink`). */
  function Without(s: seq<nat>, x: nat): (r: seq<nat>)
    ensures forall y :: y in r <==> y in s && y != x
    ensures |r| <= |s|
    ensures Sorted(s) ==> Sorted(r)
  {
    if s == [] then [] else
      var n := |s| - 1;
      var w := Without(s[..n], x);
      assert Sorted(s) ==> forall i :: 0 <= i < |w| ==> w[i] in s[..n] && w[i] < s[n];
      w + (if s[n] == x then [] else [s[n]])
  }

  /** sorted_insert -- the list with newval in its place, and whether it had to be added. */
  method SortedInsert(s: seq<nat>, newval: nat) returns (r: seq<nat>, added: bool)
    requires Sorted(s)
    ensures Sorted(r)
    ensures forall x :: x in r <==> x in s || x == newval
    ensures added <==> newval !in s
    ensures |r| == |s| + if added then 1 else 0
  {
    if s == [] {
      r, added := [newval], true;
    } else if s[|s| - 1] < newval {
      r, added := s + [newval], true;
    } else if s[0] > newval {
      r, added := [newval] + s, true;
    } else {
      var p := 0;
      while s[p] < newval
        invariant 0 <= p < |s|
        invariant forall i :: 0 <= i < p ==> s[i] < newval
        decreases |s| - p
      {
        p := p + 1;
      }
      if s[p] > newval {
        r, added := s[..p] + [newval] + s[p..], true;
      } else {
        r, added := s, false;
      }
    }
  }

  /** sm_row_contains, sm_col_contains -- list p2 contains list p1. */
  method ListContains(p1: seq<nat>, p2: seq<nat>) returns (yes: bool)
    requires Sorted(p1) && Sorted(p2)
    ensures yes <==> forall x :: x in p1 ==> x in p2
  {
    var q1, q2 := 0, 0;
    while q1 < |p1|
      invariant 0 <= q1 <= |p1| && 0 <= q2 <= |p2|
      invariant forall i :: 0 <= i < q1 ==> p1[i] in p2
      invariant forall i, j :: q1 <= i < |p1| && 0 <= j < q2 ==> p2[j] < p1[i]
      decreases |p1| - q1 + |p2| - q2
    {
      if q2 == |p2| || p1[q1] < p2[q2] {
        assert p1[q1] !in p2;
        return false;
      } else if p1[q1] == p2[q2] {
        q1, q2 := q1 + 1, q2 + 1;
      } else {
        q2 := q2 + 1;
      }
    }
    return true;
  }

  /** sm_row_intersects -- the lists share an element. */
  method ListIntersects(p1: seq<nat>, p2: seq<nat>) returns (yes: bool)
    requires Sorted(p1) && Sorted(p2)
    ensures yes <==> exists x :: x in p1 && x in p2
  {
    var q1, q2 := 0, 0;
    if p1 == [] || p2 == [] {
      return false;
    }
    while true
      invariant 0 <= q1 < |p1| && 0 <= q2 < |p2|
      invariant forall i :: 0 <= i < q1 ==> p1[i] !in p2
      invariant forall j :: 0 <= j < q2 ==> p2[j] !in p1
      decreases |p1| - q1 + |p2| - q2
    {
      if p1[q1] < p2[q2] {
        assert p1[q1] !in p2;
        q1 := q1 + 1;
        if q1 == |p1| {
          return false;
        }
      } else if p1[q1] > p2[q2] {
        assert p2[q2] !in p1;
        q2 := q2 + 1;
        if q2 == |p2| {
          return false;
        }
      } else {
        assert p1[q1] in p1 && p1[q1] in p2;
        return true;
      }
    }
  }
}
