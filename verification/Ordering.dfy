/** cvrm.c: mini_sort and sort_reduce, the orders in which cubes are expanded and reduced. */
module Ordering {
  import opened Cubes
  import opened SetOps

  /** A cube with key a may precede one with key b. */
  predicate Precedes(a: int, b: int, descending: bool) {
    if descending then a >= b else a <= b
  }

  ghost predicate Ordered(s: seq<Cube>, key: Cube -> int, descending: bool) {
    forall i, j :: 0 <= i < j < |s| ==> Precedes(key(s[i]), key(s[j]), descending)
  }

  lemma InsertedOrdered(s: seq<Cube>, k: nat, p: Cube, key: Cube -> int, descending: bool)
    requires k <= |s| && Ordered(s, key, descending)
    requires forall i :: 0 <= i < k ==> Precedes(key(s[i]), key(p), descending)
    requires k < |s| ==> Precedes(key(p), key(s[k]), descending)
    ensures Ordered(s[..k] + [p] + s[k..], key, descending)
  {
    var r := s[..k] + [p] + s[k..];
    forall i | k <= i < |s| ensures Precedes(key(p), key(s[i]), descending) {
      assert i > k ==> Precedes(key(s[k]), key(s[i]), descending);
    }
    forall i, j | 0 <= i < j < |r| ensures Precedes(key(r[i]), key(r[j]), descending) {
      assert i < k || i == k || r[i] == s[i - 1];
      assert j < k || j == k || r[j] == s[j - 1];
    }
  }

  /** Insert p behind the cubes that may precede it. */
  method InsertByKey(s: seq<Cube>, p: Cube, key: Cube -> int, descending: bool) returns (r: seq<Cube>)
    requires Ordered(s, key, descending)
    ensures Ordered(r, key, descending) && multiset(r) == multiset(s) + multiset{p}
  {
    var k := 0;
    while k < |s| && Precedes(key(s[k]), key(p), descending)
      invariant 0 <= k <= |s|
      invariant forall i :: 0 <= i < k ==> Precedes(key(s[i]), key(p), descending)
    {
      k := k + 1;
    }
    InsertedOrdered(s, k, p, key, descending);
    r := s[..k] + [p] + s[k..];
    assert s == s[..k] + s[k..];
  }

  /** The sort itself is the C library's; cubes with equal keys may come in any order. */
  method SortByKey(s: seq<Cube>, key: Cube -> int, descending: bool) returns (r: seq<Cube>)
    ensures Ordered(r, key, descending) && multiset(r) == multiset(s)
  {
    r := [];
    for k := 0 to |s|
      invariant Ordered(r, key, descending) && multiset(r) == multiset(s[..k])
    {
      assert s[..k + 1] == s[..k] + [s[k]];
      r := InsertByKey(r, s[k], key, descending);
    }
    assert s[..|s|] == s;
  }

  /** How many cubes have part i (`sf_count`). */
  ghost function ColumnSum(s: seq<Cube>, i: nat): nat {
    if s == [] then 0 else ColumnSum(s[..|s| - 1], i) + if i in s[|s| - 1].parts then 1 else 0
  }

  method ColumnSums(cs: Shape, s: seq<Cube>) returns (count: seq<nat>)
    ensures |count| == cs.size && forall i :: 0 <= i < cs.size ==> count[i] == ColumnSum(s, i)
  {
    count := seq(cs.size, _ => 0);
    for k := 0 to |s|
      invariant |count| == cs.size && forall i :: 0 <= i < cs.size ==> count[i] == ColumnSum(s[..k], i)
    {
      assert s[..k + 1][..k] == s[..k];
      count := seq(cs.size, i requires 0 <= i < cs.size && |count| == cs.size =>
        count[i] + if i in s[k].parts then 1 else 0);
    }
    assert s[..|s|] == s;
  }

  /** The inner product of a cube and the column sums, over the parts below n. */
  function InnerProduct(count: seq<nat>, p: set<nat>, n: nat): nat {
    if n == 0 then 0 else
      InnerProduct(count, p, n - 1) + if n - 1 in p && n - 1 < |count| then count[n - 1] else 0
  }

  /** mini_sort */
  method MiniSort(cs: Shape, F: Cover, descending: bool) returns (ghost count: seq<nat>)
    modifies F
    ensures multiset(F.cubes) == multiset(old(F.cubes))
    ensures |count| == cs.size && forall i :: 0 <= i < cs.size ==> count[i] == ColumnSum(old(F.cubes), i)
    ensures Ordered(F.cubes, (c: Cube) => InnerProduct(count, c.parts, cs.size), descending)
  {
    var sums := ColumnSums(cs, F.cubes);
    count := sums;
    F.cubes := SortByKey(F.cubes, (c: Cube) => InnerProduct(sums, c.parts, cs.size), descending);
  }

  /** The first largest cube. */
  method FindLargest(s: seq<Cube>) returns (largest: set<nat>)
    requires s != []
    ensures exists k :: 0 <= k < |s| && s[k].parts == largest
    ensures forall k :: 0 <= k < |s| ==> |s[k].parts| <= |largest|
  {
    largest := s[0].parts;
    var bestsize := -1;
    for k := 0 to |s|
      invariant bestsize == -1 <==> k == 0
      invariant k > 0 ==> bestsize == |largest|
      invariant exists j :: 0 <= j < |s| && s[j].parts == largest
      invariant forall j :: 0 <= j < k ==> |s[j].parts| <= bestsize
    {
      if |s[k].parts| > bestsize {
        largest, bestsize := s[k].parts, |s[k].parts|;
      }
    }
  }

  /** Nearness to the largest cube, then size. */
  function ReduceKey(cs: Shape, largest: set<nat>, p: set<nat>): int {
    (cs.numVars - Distance(cs, largest, p, cs.numVars)) * 128 + if |p| < 127 then |p| else 127
  }

  /** sort_reduce */
  method SortReduce(cs: Shape, F: Cover) returns (ghost largest: set<nat>)
    modifies F
    ensures multiset(F.cubes) == multiset(old(F.cubes))
    ensures Ordered(F.cubes, (c: Cube) => ReduceKey(cs, largest, c.parts), true)
  {
    largest := {};
    if |F.cubes| > 0 {
      var big := FindLargest(F.cubes);
      largest := big;
      F.cubes := SortByKey(F.cubes, (c: Cube) => ReduceKey(cs, big, c.parts), true);
    }
  }

  lemma SameMembers(a: seq<Cube>, b: seq<Cube>)
    requires multiset(a) == multiset(b)
    ensures |a| == |b| && forall c :: c in a <==> c in b
  {
    assert |multiset(a)| == |a| && |multiset(b)| == |b|;
    forall c ensures c in a <==> c in b {
      assert c in a <==> c in multiset(a);
      assert c in b <==> c in multiset(b);
    }
  }
}
