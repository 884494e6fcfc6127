/** unate.c: the complement of a unate family, that is, all minimal ways to meet every set of it. */
module Unate {
  import opened Containment
  import opened Cubes
  import opened Sets

  // ---------- transversals ----------

  /** S meets every set of A. */
  ghost predicate HitsAll(A: seq<set<nat>>, S: set<nat>) {
    forall k :: 0 <= k < |A| ==> A[k] * S != {}
  }

  /** Some set of B lies within S. */
  ghost predicate HasSubset(B: seq<set<nat>>, S: set<nat>) {
    exists k :: 0 <= k < |B| && B[k] <= S
  }

  /** Every set of B meets all of A, and every set that meets all of A contains one of B. */
  ghost predicate Transversals(A: seq<set<nat>>, B: seq<set<nat>>) {
    && (forall k :: 0 <= k < |B| ==> HitsAll(A, B[k]))
    && (forall S {:trigger HasSubset(B, S)} :: HitsAll(A, S) ==> HasSubset(B, S))
  }

  /** All elements are columns below n. */
  ghost predicate Columns(A: seq<set<nat>>, n: nat) {
    forall k, i :: 0 <= k < |A| && i in A[k] ==> i < n
  }

  /** S meets every set of A, and no proper subset does. */
  ghost predicate MinimalTransversal(A: seq<set<nat>>, S: set<nat>) {
    HitsAll(A, S) && forall T :: T < S ==> !HitsAll(A, T)
  }

  lemma SubsetHits(A: seq<set<nat>>, S: set<nat>, T: set<nat>)
    requires HitsAll(A, S) && S <= T
    ensures HitsAll(A, T)
  {
    forall k | 0 <= k < |A| ensures A[k] * T != {} {
      var i :| i in A[k] * S;
      assert i in A[k] * T;
    }
  }

  // ---------- containment ----------

  ghost predicate NoneInside(B: seq<set<nat>>) {
    forall i, j :: 0 <= i < |B| && 0 <= j < |B| && i != j ==> !(B[i] <= B[j])
  }

  /** Smaller sets first. */
  ghost predicate BySize(s: seq<set<nat>>) {
    forall i, j :: 0 <= i < j < |s| ==> |s[i]| <= |s[j]|
  }

  /** sf_sort with `ascend`: the sort itself is the C library's. */
  method SortSets(A: seq<set<nat>>) returns (r: seq<set<nat>>)
    ensures BySize(r) && multiset(r) == multiset(A) && |r| == |A| && forall p :: p in r <==> p in A
  {
    r := [];
    for k := 0 to |A|
      invariant BySize(r) && multiset(r) == multiset(A[..k]) && |r| == k
    {
      assert A[..k + 1] == A[..k] + [A[k]];
      r := InsertSorted(r, A[k]);
    }
    assert A[..|A|] == A;
    forall p ensures p in r <==> p in A {
      assert p in multiset(r) <==> p in multiset(A);
    }
  }

  method InsertSorted(s: seq<set<nat>>, p: set<nat>) returns (r: seq<set<nat>>)
    requires BySize(s)
    ensures BySize(r) && multiset(r) == multiset(s) + multiset{p} && |r| == |s| + 1
  {
    var j := 0;
    while j < |s| && |s[j]| <= |p|
      invariant 0 <= j <= |s|
      invariant forall i :: 0 <= i < j ==> |s[i]| <= |p|
    {
      j := j + 1;
    }
    InsertedBySize(s, j, p);
    r := s[..j] + [p] + s[j..];
    assert s == s[..j] + s[j..];
  }

  lemma InsertedBySize(s: seq<set<nat>>, k: nat, p: set<nat>)
    requires k <= |s| && BySize(s)
    requires forall i :: 0 <= i < k ==> |s[i]| <= |p|
    requires k < |s| ==> |s[k]| >= |p|
    ensures BySize(s[..k] + [p] + s[k..])
  {
    var r := s[..k] + [p] + s[k..];
    forall i, j | 0 <= i < j < |r| ensures |r[i]| <= |r[j]| {
      var x := if i <= k then i else i - 1;
      var y := if j <= k then j else j - 1;
      assert i != k ==> r[i] == s[x];
      assert j != k ==> r[j] == s[y];
    }
  }

  lemma NoneInsideAppend(B: seq<set<nat>>, p: set<nat>)
    requires NoneInside(B) && !HasSubset(B, p) && forall k :: 0 <= k < |B| ==> |B[k]| <= |p|
    ensures NoneInside(B + [p])
  {
    forall k | 0 <= k < |B| ensures !(p <= B[k]) {
      if p <= B[k] {
        SubsetCard(p, B[k]);
      }
    }
  }

  /** sf_rev_contain -- delete the sets that contain some smaller set. */
  method SfRevContain(A: seq<set<nat>>) returns (B: seq<set<nat>>)
    ensures forall p :: p in B ==> p in A
    ensures NoneInside(B) && BySize(B) && |B| <= |A|
    ensures forall p {:trigger HasSubset(B, p)} :: p in A ==> HasSubset(B, p)
  {
    var A1 := SortSets(A);
    B := [];
    for k := 0 to |A1|
      invariant forall p :: p in B ==> p in A1[..k]
      invariant NoneInside(B) && BySize(B) && |B| <= k
      invariant forall p {:trigger HasSubset(B, p)} :: p in A1[..k] ==> HasSubset(B, p)
    {
      assert A1[..k + 1] == A1[..k] + [A1[k]];
      ghost var before := B;
      if !exists j :: 0 <= j < |B| && B[j] <= A1[k] {
        forall j | 0 <= j < |B| ensures |B[j]| <= |A1[k]| {
          assert B[j] in A1[..k];
        }
        NoneInsideAppend(B, A1[k]);
        B := B + [A1[k]];
        assert B[|B| - 1] <= A1[k];
      }
      forall p | p in A1[..k + 1] ensures HasSubset(B, p) {
        if p in A1[..k] {
          assert HasSubset(before, p);
          var j :| 0 <= j < |before| && before[j] <= p;
          assert B[j] <= p;
        }
      }
    }
    assert A1[..|A1|] == A1;
    forall p | p in A ensures HasSubset(B, p) {
      assert p in A1;
    }
  }

  // ---------- unate_complement ----------

  /** The rows of A that do not meet pick (`abs_covered`, `abs_covered_many`). */
  ghost function Left(A: seq<set<nat>>, pick: set<nat>): (r: seq<set<nat>>)
    ensures |r| <= |A| && Size(r) <= Size(A)
    ensures (exists k :: 0 <= k < |A| && A[k] * pick != {}) ==> |r| < |A|
    ensures forall p :: p in r <==> p in A && p * pick == {}
  {
    if A == [] then [] else
      var n := |A| - 1;
      var l := Left(A[..n], pick);
      assert (l + [A[n]])[..|l|] == l;
      if A[n] * pick == {} then l + [A[n]] else l
  }

  /** The total number of elements. */
  ghost function Size(A: seq<set<nat>>): nat {
    if A == [] then 0 else Size(A[..|A| - 1]) + |A[|A| - 1]|
  }

  method AbsCovered(A: seq<set<nat>>, pick: set<nat>) returns (r: seq<set<nat>>)
    ensures r == Left(A, pick)
  {
    r := [];
    for k := 0 to |A|
      invariant r == Left(A[..k], pick)
    {
      assert A[..k + 1][..k] == A[..k];
      if A[k] * pick == {} {
        r := r + [A[k]];
      }
    }
    assert A[..|A|] == A;
  }

  /** A with column i removed from every set. */
  ghost function Dropped(A: seq<set<nat>>, i: nat): (r: seq<set<nat>>)
    ensures |r| == |A| && forall k :: 0 <= k < |A| ==> r[k] == A[k] - {i}
  {
    seq(|A|, k requires 0 <= k < |A| => A[k] - {i})
  }

  lemma {:induction false} DroppedSmaller(A: seq<set<nat>>, i: nat)
    ensures Size(Dropped(A, i)) <= Size(A)
    ensures (exists k :: 0 <= k < |A| && i in A[k]) ==> Size(Dropped(A, i)) < Size(A)
  {
    if A != [] {
      var n := |A| - 1;
      DroppedSmaller(A[..n], i);
      assert Dropped(A, i)[..n] == Dropped(A[..n], i);
      SubsetCard(A[n] - {i}, A[n]);
    }
  }

  /** Transversals of the rows without a pick, with the pick added. */
  lemma PickedTransversals(A: seq<set<nat>>, pick: set<nat>, B: seq<set<nat>>, B': seq<set<nat>>, S: set<nat>)
    requires Transversals(Left(A, pick), B)
    requires |B'| == |B| && forall k :: 0 <= k < |B| ==> B'[k] == B[k] + pick
    ensures forall k :: 0 <= k < |B'| ==> HitsAll(A, B'[k])
    ensures HitsAll(A, S) && pick <= S ==> HasSubset(B', S)
  {
    var L := Left(A, pick);
    forall k | 0 <= k < |B'| ensures HitsAll(A, B'[k]) {
      forall j | 0 <= j < |A| ensures A[j] * B'[k] != {} {
        if A[j] * pick == {} {
          assert A[j] in L;
          var l :| 0 <= l < |L| && L[l] == A[j];
          assert HitsAll(L, B[k]);
          var i :| i in A[j] * B[k];
          assert i in A[j] * B'[k];
        } else {
          var i :| i in A[j] * pick;
          assert i in A[j] * B'[k];
        }
      }
    }
    if HitsAll(A, S) && pick <= S {
      forall l | 0 <= l < |L| ensures L[l] * S != {} {
        assert L[l] in L;
        var j :| 0 <= j < |A| && A[j] == L[l];
      }
      assert HitsAll(L, S);
      assert HasSubset(B, S);
      var k :| 0 <= k < |B| && B[k] <= S;
      assert B'[k] <= S;
    }
  }

  /** Splitting on column i: with it, or without it. */
  lemma SplitTransversals(A: seq<set<nat>>, i: nat, B1: seq<set<nat>>, B1': seq<set<nat>>, B2: seq<set<nat>>)
    requires Transversals(Left(A, {i}), B1) && Transversals(Dropped(A, i), B2)
    requires |B1'| == |B1| && forall k :: 0 <= k < |B1| ==> B1'[k] == B1[k] + {i}
    ensures Transversals(A, B1' + B2)
  {
    var B := B1' + B2;
    PickedTransversals(A, {i}, B1, B1', {});
    forall k | 0 <= k < |B| ensures HitsAll(A, B[k]) {
      if k >= |B1'| {
        var b := B2[k - |B1'|];
        assert HitsAll(Dropped(A, i), b);
        forall j | 0 <= j < |A| ensures A[j] * b != {} {
          assert Dropped(A, i)[j] == A[j] - {i};
          var x :| x in (A[j] - {i}) * b;
          assert x in A[j] * b;
        }
      }
    }
    forall S | HitsAll(A, S) ensures HasSubset(B, S) {
      if i in S {
        PickedTransversals(A, {i}, B1, B1', S);
        var k :| 0 <= k < |B1'| && B1'[k] <= S;
        assert B[k] <= S;
      } else {
        forall j | 0 <= j < |A| ensures Dropped(A, i)[j] * S != {} {
          var x :| x in A[j] * S;
          assert x in (A[j] - {i}) * S;
        }
        assert HasSubset(B2, S);
        var k :| 0 <= k < |B2| && B2[k] <= S;
        assert B[|B1'| + k] <= S;
      }
    }
  }

  /** Columns that are alone in a row belong to every transversal. */
  lemma EssentialTransversals(A: seq<set<nat>>, pick: set<nat>, B: seq<set<nat>>, B': seq<set<nat>>)
    requires forall i :: i in pick ==> exists k :: 0 <= k < |A| && A[k] == {i}
    requires Transversals(Left(A, pick), B)
    requires |B'| == |B| && forall k :: 0 <= k < |B| ==> B'[k] == B[k] + pick
    ensures Transversals(A, B')
  {
    PickedTransversals(A, pick, B, B', {});
    forall S | HitsAll(A, S) ensures HasSubset(B', S) {
      forall i | i in pick ensures i in S {
        var k :| 0 <= k < |A| && A[k] == {i};
        assert A[k] * S != {};
      }
      PickedTransversals(A, pick, B, B', S);
    }
  }

  /** The smallest rows: their size, and their union. */
  method SmallestRows(A: seq<set<nat>>) returns (ord: nat, restricted: set<nat>)
    requires A != []
    ensures forall k :: 0 <= k < |A| ==> |A[k]| >= ord
    ensures exists k :: 0 <= k < |A| && |A[k]| == ord && A[k] <= restricted
    ensures forall i :: i in restricted ==> exists k :: 0 <= k < |A| && |A[k]| == ord && i in A[k]
  {
    restricted, ord := A[0], |A[0]|;
    for k := 1 to |A|
      invariant forall j :: 0 <= j < k ==> |A[j]| >= ord
      invariant exists j :: 0 <= j < k && |A[j]| == ord && A[j] <= restricted
      invariant forall i :: i in restricted ==> exists j :: 0 <= j < k && |A[j]| == ord && i in A[j]
    {
      if |A[k]| < ord {
        restricted, ord := A[k], |A[k]|;
      } else if |A[k]| == ord {
        restricted := restricted + A[k];
      }
    }
  }

  // ---------- the choice of a column ----------

  /** What row p adds to the weight of its columns. */
  function RowWeight(p: set<nat>): nat
    requires |p| >= 2
  {
    1024 / (|p| - 1)
  }

  /** The weight of column i, summed over the rows that have it. */
  ghost function Weight(A: seq<set<nat>>, i: nat): nat
    requires forall k :: 0 <= k < |A| ==> |A[k]| >= 2
  {
    if A == [] then 0 else
      Weight(A[..|A| - 1], i) + if i in A[|A| - 1] then RowWeight(A[|A| - 1]) else 0
  }

  lemma {:induction false} WeightPositive(A: seq<set<nat>>, i: nat)
    requires forall k :: 0 <= k < |A| ==> |A[k]| >= 2
    ensures Weight(A, i) > 0 <==> exists k :: 0 <= k < |A| && i in A[k] && |A[k]| <= 1025
  {
    if A != [] {
      var n := |A| - 1;
      WeightPositive(A[..n], i);
      if k :| 0 <= k < |A| && i in A[k] && |A[k]| <= 1025 {
        assert k < n ==> A[..n][k] == A[k];
      }
    }
  }

  /** sf_count_restricted */
  method CountRestricted(A: seq<set<nat>>, restricted: set<nat>, n: nat) returns (count: seq<nat>)
    requires forall k :: 0 <= k < |A| ==> |A[k]| >= 2
    ensures |count| == n && forall i :: 0 <= i < n ==> count[i] == if i in restricted then Weight(A, i) else 0
  {
    count := seq(n, _ => 0);
    for k := 0 to |A|
      invariant |count| == n
      invariant forall i :: 0 <= i < n ==> count[i] == if i in restricted then Weight(A[..k], i) else 0
    {
      assert A[..k + 1][..k] == A[..k];
      var w := RowWeight(A[k]);
      count := seq(n, i requires 0 <= i < n && |count| == n =>
        count[i] + if i in A[k] && i in restricted then w else 0);
    }
    assert A[..|A|] == A;
  }

  /**
   abs_select_restricted -- a column of greatest weight among those of the smallest rows.  The source
   gives up on -1, which happens exactly when these rows have more than 1025 columns.
   */
  method SelectRestricted(A: seq<set<nat>>, restricted: set<nat>, ghost ord: nat, n: nat) returns (best: int)
    requires Columns(A, n) && ord >= 2 && forall k :: 0 <= k < |A| ==> |A[k]| >= ord
    requires exists k :: 0 <= k < |A| && |A[k]| == ord && A[k] <= restricted
    requires forall i :: i in restricted ==> exists k :: 0 <= k < |A| && |A[k]| == ord && i in A[k]
    ensures best == -1 <==> ord > 1025
    ensures best != -1 ==> best >= 0 && best in restricted
    ensures best != -1 ==> forall i :: i in restricted ==> Weight(A, i) <= Weight(A, best)
  {
    var count := CountRestricted(A, restricted, n);
    best := -1;
    var bestCount := 0;
    forall i | i in restricted ensures i < n && (Weight(A, i) > 0 <==> ord <= 1025) {
      var k :| 0 <= k < |A| && |A[k]| == ord && i in A[k];
      WeightPositive(A, i);
    }
    ghost var k0 :| 0 <= k0 < |A| && |A[k0]| == ord && A[k0] <= restricted;
    ghost var i0 :| i0 in A[k0];
    for i := 0 to n
      invariant best == -1 <==> bestCount == 0
      invariant best == -1 || (0 <= best < i && best in restricted && bestCount == count[best])
      invariant forall j :: 0 <= j < i ==> count[j] <= bestCount
    {
      if count[i] > bestCount {
        best, bestCount := i, count[i];
      }
    }
    assert count[i0] == Weight(A, i0);
  }

  method AddToAll(B: seq<set<nat>>, pick: set<nat>) returns (r: seq<set<nat>>)
    ensures |r| == |B| && forall k :: 0 <= k < |B| ==> r[k] == B[k] + pick
  {
    r := [];
    for k := 0 to |B|
      invariant |r| == k && forall j :: 0 <= j < k ==> r[j] == B[j] + pick
    {
      r := r + [B[k] + pick];
    }
  }

  method DropColumn(A: seq<set<nat>>, i: nat) returns (r: seq<set<nat>>)
    ensures r == Dropped(A, i)
  {
    r := [];
    for k := 0 to |A|
      invariant |r| == k && forall j :: 0 <= j < k ==> r[j] == A[j] - {i}
    {
      r := r + [A[k] - {i}];
    }
  }

  lemma EmptyRow(A: seq<set<nat>>)
    requires exists k :: 0 <= k < |A| && |A[k]| == 0
    ensures Transversals(A, [])
  {
    var k :| 0 <= k < |A| && |A[k]| == 0;
    forall S ensures !HitsAll(A, S) {
      assert A[k] * S == {};
    }
  }

  /** De Morgan: one set per column of the only row. */
  method SingleRow(A: seq<set<nat>>, n: nat) returns (B: seq<set<nat>>)
    requires |A| == 1 && Columns(A, n)
    ensures Transversals(A, B) && Columns(B, n)
  {
    var p := A[0];
    B := [];
    for i := 0 to n
      invariant Columns(B, n)
      invariant forall k :: 0 <= k < |B| ==> B[k] * p != {}
      invariant forall j :: 0 <= j < i && j in p ==> {j} in B
    {
      if i in p {
        assert i in {i} * p;
        B := B + [{i}];
      }
    }
    forall S | HitsAll(A, S) ensures HasSubset(B, S) {
      var i :| i in A[0] * S;
      assert {i} in B;
    }
  }

  /** No row has more than 1025 columns: 1024 / (|p| - 1) is positive for every row p. */
  ghost predicate ShortRows(A: seq<set<nat>>) {
    forall k :: 0 <= k < |A| ==> |A[k]| <= 1025
  }

  /** What a call came back with: all transversals, unless the column choice gave up. */
  ghost predicate Complemented(A: seq<set<nat>>, n: nat, ok: bool, Abar: seq<set<nat>>) {
    (ShortRows(A) ==> ok) && (ok ==> Transversals(A, Abar) && Columns(Abar, n))
  }

  /**
   unate_complement -- A is disposed of.  ok is false where the source gives up: in some call the smallest
   rows had more than 1025 columns.
   */
  method UnateComplement(A: seq<set<nat>>, n: nat) returns (ok: bool, Abar: seq<set<nat>>)
    requires Columns(A, n)
    ensures Complemented(A, n, ok, Abar)
    decreases Size(A) + |A|, 2
  {
    ok := true;
    if |A| == 0 {
      Abar := [{}];
      forall S ensures HasSubset(Abar, S) {
        assert Abar[0] <= S;
      }
    } else if |A| == 1 {
      Abar := SingleRow(A, n);
    } else {
      var ord, restricted := SmallestRows(A);
      if ord == 0 {
        EmptyRow(A);
        Abar := [];
      } else if ord == 1 {
        ok, Abar := EssentialColumns(A, restricted, n);
      } else {
        ok, Abar := SplitColumn(A, ord, restricted, n);
      }
    }
  }

  /** The rows with a single column: take these columns and go on with the rows they leave. */
  method EssentialColumns(A: seq<set<nat>>, restricted: set<nat>, n: nat) returns (ok: bool, Abar: seq<set<nat>>)
    requires Columns(A, n)
    requires exists k :: 0 <= k < |A| && |A[k]| == 1 && A[k] <= restricted
    requires forall i :: i in restricted ==> exists k :: 0 <= k < |A| && |A[k]| == 1 && i in A[k]
    ensures Complemented(A, n, ok, Abar)
    decreases Size(A) + |A|, 1
  {
    forall i | i in restricted ensures i < n && exists k :: 0 <= k < |A| && A[k] == {i} {
      var k :| 0 <= k < |A| && |A[k]| == 1 && i in A[k];
      SubsetCard({i}, A[k]);
    }
    ghost var k0 :| 0 <= k0 < |A| && |A[k0]| == 1 && A[k0] <= restricted;
    assert A[k0] * restricted != {} by { assert A[k0] * restricted == A[k0]; }
    LeftColumns(A, restricted, n);
    var rest := AbsCovered(A, restricted);
    var B;
    ok, B := UnateComplement(rest, n);
    Abar := AddToAll(B, restricted);
    if ok {
      EssentialTransversals(A, restricted, B, Abar);
    }
  }

  lemma LeftColumns(A: seq<set<nat>>, pick: set<nat>, n: nat)
    requires Columns(A, n)
    ensures Columns(Left(A, pick), n) && (ShortRows(A) ==> ShortRows(Left(A, pick)))
  {
    var L := Left(A, pick);
    forall k, i | 0 <= k < |L| && i in L[k] ensures i < n {
      assert L[k] in L;
    }
    if ShortRows(A) {
      forall k | 0 <= k < |L| ensures |L[k]| <= 1025 {
        assert L[k] in L && L[k] in A;
      }
    }
  }

  lemma DroppedColumns(A: seq<set<nat>>, i: nat, n: nat)
    requires Columns(A, n)
    ensures Columns(Dropped(A, i), n) && (ShortRows(A) ==> ShortRows(Dropped(A, i)))
  {
    if ShortRows(A) {
      forall k | 0 <= k < |A| ensures |A[k] - {i}| <= 1025 {
        SubsetCard(A[k] - {i}, A[k]);
      }
    }
  }

  /** Split on one column of a smallest row. */
  method SplitColumn(A: seq<set<nat>>, ghost ord: nat, restricted: set<nat>, n: nat)
    returns (ok: bool, Abar: seq<set<nat>>)
    requires Columns(A, n) && ord >= 2 && forall k :: 0 <= k < |A| ==> |A[k]| >= ord
    requires exists k :: 0 <= k < |A| && |A[k]| == ord && A[k] <= restricted
    requires forall i :: i in restricted ==> exists k :: 0 <= k < |A| && |A[k]| == ord && i in A[k]
    ensures Complemented(A, n, ok, Abar)
    decreases Size(A) + |A|, 1
  {
    var i := SelectRestricted(A, restricted, ord, n);
    if i == -1 {
      return false, [];
    }
    ghost var k1 :| 0 <= k1 < |A| && |A[k1]| == ord && i in A[k1];
    ok, Abar := SplitOn(A, i, n);
  }

  /** All transversals, split on column i. */
  method SplitOn(A: seq<set<nat>>, i: nat, n: nat) returns (ok: bool, Abar: seq<set<nat>>)
    requires Columns(A, n) && i < n && exists k :: 0 <= k < |A| && i in A[k]
    ensures Complemented(A, n, ok, Abar)
    decreases Size(A) + |A|, 0
  {
    hide Columns, ShortRows, Transversals;
    ghost var k :| 0 <= k < |A| && i in A[k];
    assert i in A[k] * {i};
    DroppedSmaller(A, i);
    LeftColumns(A, {i}, n);
    DroppedColumns(A, i, n);
    var rest := AbsCovered(A, {i});
    var B1, B2;
    ok, B1 := UnateComplement(rest, n);
    if !ok {
      return false, [];
    }
    var B1' := AddToAll(B1, {i});
    var without := DropColumn(A, i);
    ok, B2 := UnateComplement(without, n);
    if !ok {
      return false, [];
    }
    SplitTransversals(A, i, B1, B1', B2);
    Abar := B1' + B2;
    ColumnsAppend(B1, B1', B2, i, n);
  }

  lemma ColumnsAppend(B1: seq<set<nat>>, B1': seq<set<nat>>, B2: seq<set<nat>>, i: nat, n: nat)
    requires Columns(B1, n) && Columns(B2, n) && i < n
    requires |B1'| == |B1| && forall k :: 0 <= k < |B1| ==> B1'[k] == B1[k] + {i}
    ensures Columns(B1' + B2, n)
  {
    var B := B1' + B2;
    forall k, x | 0 <= k < |B| && x in B[k] ensures x < n {
      assert k < |B1| ==> B[k] == B1[k] + {i};
      assert k >= |B1| ==> B[k] == B2[k - |B1|];
    }
  }

  /** The family of all minimal transversals, each once. */
  ghost predicate AllMinimal(A: seq<set<nat>>, B: seq<set<nat>>) {
    NoneInside(B) && forall S :: S in B <==> MinimalTransversal(A, S)
  }

  lemma ContainedMinimal(A: seq<set<nat>>, C: seq<set<nat>>, B: seq<set<nat>>)
    requires Transversals(A, C) && NoneInside(B) && (forall p :: p in B ==> p in C)
    requires forall p {:trigger HasSubset(B, p)} :: p in C ==> HasSubset(B, p)
    ensures AllMinimal(A, B) && Transversals(A, B)
  {
    forall k | 0 <= k < |B| ensures HitsAll(A, B[k]) {
      assert B[k] in C;
      var j :| 0 <= j < |C| && C[j] == B[k];
    }
    forall S | HitsAll(A, S) ensures HasSubset(B, S) {
      assert HasSubset(C, S);
      var j :| 0 <= j < |C| && C[j] <= S;
      assert C[j] in C && HasSubset(B, C[j]);
      var k :| 0 <= k < |B| && B[k] <= C[j];
      assert B[k] <= S;
    }
    forall S ensures S in B <==> MinimalTransversal(A, S) {
      if S in B {
        var k :| 0 <= k < |B| && B[k] == S;
        forall T | T < S ensures !HitsAll(A, T) {
          forall j | 0 <= j < |B| ensures !(B[j] <= T) {
            assert j != k ==> !(B[j] <= B[k]);
          }
          assert !HasSubset(B, T);
        }
      }
      if MinimalTransversal(A, S) {
        assert HasSubset(B, S);
        var k :| 0 <= k < |B| && B[k] <= S;
        assert B[k] == S;
      }
    }
  }

  /** unate_compl -- exactly the family of minimal sets that meet every set of A, unless it gives up. */
  method UnateCompl(A: seq<set<nat>>, n: nat) returns (ok: bool, B: seq<set<nat>>)
    requires Columns(A, n)
    ensures ShortRows(A) ==> ok
    ensures ok ==> AllMinimal(A, B) && Transversals(A, B) && Columns(B, n)
  {
    var C;
    ok, C := UnateComplement(A, n);
    if !ok {
      return false, [];
    }
    B := SfRevContain(C);
    ContainedMinimal(A, C, B);
    forall k, i | 0 <= k < |B| && i in B[k] ensures i < n {
      assert B[k] in C;
    }
  }

  // ---------- exact_minimum_cover ----------

  /** The columns 0..n-1. */
  function FullSet(n: nat): (r: set<nat>)
    ensures forall i :: i in r <==> 0 <= i < n
  {
    if n == 0 then {} else FullSet(n - 1) + {n - 1}
  }

  /**
   The sets of the stack are complements of transversals.  C stands for the rows in A: every set of C
   misses a column of each row, and every nonempty such set lies within one of C.
   */
  ghost predicate Avoids(A: seq<set<nat>>, p: set<nat>, n: nat) {
    p <= FullSet(n) && HitsAll(A, FullSet(n) - p)
  }

  ghost predicate Inside(p: set<nat>, C: seq<set<nat>>) {
    exists k :: 0 <= k < |C| && p <= C[k]
  }

  ghost predicate Stands(A: seq<set<nat>>, C: seq<set<nat>>, n: nat) {
    && (forall k :: 0 <= k < |C| ==> Avoids(A, C[k], n))
    && (forall p {:trigger Inside(p, C)} :: p != {} && Avoids(A, p, n) ==> Inside(p, C))
  }

  ghost predicate NoneEmpty(C: seq<set<nat>>) {
    forall k :: 0 <= k < |C| ==> C[k] != {}
  }

  lemma SmallerAvoids(A: seq<set<nat>>, p: set<nat>, q: set<nat>, n: nat)
    requires Avoids(A, p, n) && q <= p
    ensures Avoids(A, q, n)
  {
    SubsetHits(A, FullSet(n) - p, FullSet(n) - q);
  }

  lemma AvoidsAppend(A: seq<set<nat>>, B: seq<set<nat>>, p: set<nat>, n: nat)
    ensures Avoids(A + B, p, n) <==> Avoids(A, p, n) && Avoids(B, p, n)
  {
    var S := FullSet(n) - p;
    if HitsAll(A + B, S) {
      forall k | 0 <= k < |A| ensures A[k] * S != {} {
        assert (A + B)[k] == A[k];
      }
      forall k | 0 <= k < |B| ensures B[k] * S != {} {
        assert (A + B)[|A| + k] == B[k];
      }
    }
  }

  // ---------- unate_intersect ----------

  /** p is the intersection of a set of A and one of B. */
  ghost predicate Meet(A: seq<set<nat>>, B: seq<set<nat>>, p: set<nat>) {
    exists i, j :: 0 <= i < |A| && 0 <= j < |B| && p == A[i] * B[j]
  }

  ghost predicate MeetRow(a: set<nat>, B: seq<set<nat>>, n: nat, p: set<nat>) {
    exists l :: 0 <= l < |B| && l < n && p == a * B[l]
  }

  /** What is saved: the nonempty intersections or, with largestOnly, those of size maxord. */
  ghost predicate Wanted(p: set<nat>, largestOnly: bool, maxord: nat) {
    p != {} && (largestOnly ==> |p| == maxord)
  }

  ghost predicate OfSize(s: seq<set<nat>>, n: nat) {
    exists p :: p in s && |p| == n
  }

  /** Of the intersections formed so far, s holds what is wanted. */
  ghost predicate Gathered(formed: seq<set<nat>>, s: seq<Cube>, largestOnly: bool, maxord: nat) {
    && (forall c :: c in s ==> c.parts in formed && Wanted(c.parts, largestOnly, maxord))
    && (forall p :: p in formed ==> largestOnly ==> |p| <= maxord)
    && (forall p :: p in formed && Wanted(p, largestOnly, maxord) ==> Within(p, s))
    && (maxord > 0 ==> OfSize(formed, maxord))
  }

  /** One pair; the buffer is contained and merged with what was saved when it holds 500 sets. */
  method IntersectPair(p: set<nat>, q: set<nat>, saved0: seq<Cube>, T0: seq<Cube>, largestOnly: bool, maxord0: nat,
                       ghost formed: seq<set<nat>>)
    returns (saved: seq<Cube>, T: seq<Cube>, maxord: nat)
    requires Gathered(formed, saved0 + T0, largestOnly, maxord0) && Contained(saved0)
    ensures Gathered(formed + [p * q], saved + T, largestOnly, maxord) && Contained(saved)
  {
    var pt := p * q;
    saved, T, maxord := saved0, T0, maxord0;
    var save := pt != {};
    if save && largestOnly {
      if |pt| > maxord {
        GatheredLarger(formed, saved + T, maxord, pt);
        saved, T, maxord := [], [], |pt|;
        assert saved + T + [MkCube(pt)] == [MkCube(pt)];
      } else if |pt| < maxord {
        save := false;
      }
    }
    if save {
      ghost var all := saved + T + [MkCube(pt)];
      if maxord == maxord0 {
        GatheredSave(formed, saved + T, largestOnly, maxord, pt);
      }
      saved, T := Collect(saved, T, pt);
      GatheredFlush(formed + [pt], all, largestOnly, maxord, saved + T);
    } else {
      GatheredSkip(formed, saved + T, largestOnly, maxord, pt);
    }
  }

  /** A larger set throws the smaller ones away. */
  lemma GatheredLarger(formed: seq<set<nat>>, s: seq<Cube>, maxord: nat, pt: set<nat>)
    requires Gathered(formed, s, true, maxord) && |pt| > maxord
    ensures Gathered(formed + [pt], [MkCube(pt)], true, |pt|)
  {
    assert pt in formed + [pt];
    var all := [MkCube(pt)];
    assert MkCube(pt) in all;
    forall p | p in formed + [pt] && Wanted(p, true, |pt|) ensures Within(p, all) {
      assert p == pt;
    }
  }

  lemma OfSizeMore(formed: seq<set<nat>>, n: nat, pt: set<nat>)
    requires OfSize(formed, n)
    ensures OfSize(formed + [pt], n)
  {
    var p := SomeOfSize(formed, n);
    assert p in formed + [pt];
  }

  lemma GatheredSave(formed: seq<set<nat>>, s: seq<Cube>, largestOnly: bool, maxord: nat, pt: set<nat>)
    requires Gathered(formed, s, largestOnly, maxord)
    ensures Wanted(pt, largestOnly, maxord) ==> Gathered(formed + [pt], s + [MkCube(pt)], largestOnly, maxord)
  {
    if Wanted(pt, largestOnly, maxord) {
      if maxord > 0 {
        OfSizeMore(formed, maxord, pt);
      }
      forall c | c in s + [MkCube(pt)] ensures c.parts in formed + [pt] && Wanted(c.parts, largestOnly, maxord) {
        assert c in s || c == MkCube(pt);
      }
      forall p | p in formed + [pt] && Wanted(p, largestOnly, maxord) ensures Within(p, s + [MkCube(pt)]) {
        WithinMore(s, p, pt);
      }
    }
  }

  lemma WithinMore(s: seq<Cube>, p: set<nat>, pt: set<nat>)
    requires p == pt || Within(p, s)
    ensures Within(p, s + [MkCube(pt)])
  {
    var all := s + [MkCube(pt)];
    assert MkCube(pt) in all;
    if Within(p, s) {
      var c := Container(s, p);
      assert c in all;
    }
  }

  lemma GatheredSkip(formed: seq<set<nat>>, s: seq<Cube>, largestOnly: bool, maxord: nat, pt: set<nat>)
    requires Gathered(formed, s, largestOnly, maxord) && (pt == {} || (largestOnly && |pt| < maxord))
    ensures Gathered(formed + [pt], s, largestOnly, maxord)
  {
    if maxord > 0 {
      OfSizeMore(formed, maxord, pt);
    }
  }

  ghost function SomeOfSize(s: seq<set<nat>>, n: nat): (p: set<nat>)
    requires OfSize(s, n)
    ensures p in s && |p| == n
  {
    var p :| p in s && |p| == n;
    p
  }

  lemma GatheredFlush(formed: seq<set<nat>>, s: seq<Cube>, largestOnly: bool, maxord: nat, s': seq<Cube>)
    requires Gathered(formed, s, largestOnly, maxord) && PartsFrom(s', s) && Dominates(s', s)
    ensures Gathered(formed, s', largestOnly, maxord)
  {
    forall c | c in s' ensures c.parts in formed && Wanted(c.parts, largestOnly, maxord) {
      var b := WithParts(s, c.parts);
    }
    forall p | p in formed && Wanted(p, largestOnly, maxord) ensures Within(p, s') {
      WithinTrans(p, s, s');
    }
  }

  /** The sets are the maximal nonempty intersections or, with largestOnly, all those of the largest size. */
  ghost predicate Intersected(A: seq<set<nat>>, B: seq<set<nat>>, largestOnly: bool, r: seq<set<nat>>) {
    && NoneInside(r) && NoneEmpty(r)
    && (forall p :: p in r ==> Meet(A, B, p))
    && (!largestOnly ==> forall i, j :: 0 <= i < |A| && 0 <= j < |B| && A[i] * B[j] != {} ==> Inside(A[i] * B[j], r))
    && (largestOnly ==> forall p :: Meet(A, B, p) && p != {} ==>
          (p in r <==> forall q :: Meet(A, B, q) ==> |q| <= |p|))
  }

  /** unate_intersect */
  method UnateIntersect(A: seq<set<nat>>, B: seq<set<nat>>, largestOnly: bool) returns (r: seq<set<nat>>)
    ensures Intersected(A, B, largestOnly, r)
  {
    var saved, T: seq<Cube> := [], [];
    var maxord := 0;
    ghost var formed: seq<set<nat>> := [];
    for i := 0 to |A|
      invariant Gathered(formed, saved + T, largestOnly, maxord) && Contained(saved)
      invariant forall p :: p in formed <==> Meet(A[..i], B, p)
    {
      ghost var before := formed;
      for j := 0 to |B|
        invariant Gathered(formed, saved + T, largestOnly, maxord) && Contained(saved)
        invariant forall p :: p in formed <==> p in before || MeetRow(A[i], B, j, p)
      {
        saved, T, maxord := IntersectPair(A[i], B[j], saved, T, largestOnly, maxord, formed);
        formed := formed + [A[i] * B[j]];
      }
      MeetMore(A, B, i);
    }
    assert A[..|A|] == A;
    var R := Flush(saved, T);
    GatheredFlush(formed, saved + T, largestOnly, maxord, R);
    r := Parts(R);
    IntersectedSets(A, B, formed, largestOnly, maxord, R);
  }

  lemma MeetMore(A: seq<set<nat>>, B: seq<set<nat>>, i: nat)
    requires i < |A|
    ensures forall p :: Meet(A[..i + 1], B, p) <==> Meet(A[..i], B, p) || MeetRow(A[i], B, |B|, p)
  {
    forall p ensures Meet(A[..i + 1], B, p) <==> Meet(A[..i], B, p) || MeetRow(A[i], B, |B|, p) {
      if Meet(A[..i], B, p) {
        var k, j :| 0 <= k < i && 0 <= j < |B| && p == A[..i][k] * B[j];
        assert p == A[..i + 1][k] * B[j];
      }
      if MeetRow(A[i], B, |B|, p) {
        var l :| 0 <= l < |B| && p == A[i] * B[l];
        assert p == A[..i + 1][i] * B[l];
      }
      if Meet(A[..i + 1], B, p) {
        var k, j :| 0 <= k < i + 1 && 0 <= j < |B| && p == A[..i + 1][k] * B[j];
        assert k < i ==> p == A[..i][k] * B[j];
        assert k == i ==> MeetRow(A[i], B, |B|, p);
      }
    }
  }

  /** The sets of a family of cubes. */
  function Parts(R: seq<Cube>): (r: seq<set<nat>>)
    ensures |r| == |R| && forall k :: 0 <= k < |R| ==> r[k] == R[k].parts
  {
    seq(|R|, k requires 0 <= k < |R| => R[k].parts)
  }

  lemma InsideParts(R: seq<Cube>, p: set<nat>)
    ensures Inside(p, Parts(R)) <==> Within(p, R)
  {
    if Within(p, R) {
      var c := Container(R, p);
      var k := Position(R, c);
      assert p <= Parts(R)[k];
    }
  }

  lemma IntersectedSets(A: seq<set<nat>>, B: seq<set<nat>>, formed: seq<set<nat>>, largestOnly: bool, maxord: nat,
                        R: seq<Cube>)
    requires Gathered(formed, R, largestOnly, maxord) && Antichain(R) && forall p :: p in formed <==> Meet(A, B, p)
    ensures Intersected(A, B, largestOnly, Parts(R))
  {
    var r := Parts(R);
    forall k | 0 <= k < |r| ensures r[k] in formed && Wanted(r[k], largestOnly, maxord) {
      assert R[k] in R;
    }
    forall p | p in formed && Wanted(p, largestOnly, maxord) ensures Inside(p, r) {
      InsideParts(R, p);
    }
    forall i, j | 0 <= i < |A| && 0 <= j < |B| && A[i] * B[j] != {} && !largestOnly ensures Inside(A[i] * B[j], r) {
      assert Meet(A, B, A[i] * B[j]);
    }
    if largestOnly {
      LargestSets(A, B, formed, maxord, r);
    }
  }

  lemma LargestSets(A: seq<set<nat>>, B: seq<set<nat>>, formed: seq<set<nat>>, maxord: nat, r: seq<set<nat>>)
    requires (forall p :: p in formed <==> Meet(A, B, p)) && forall p :: p in formed ==> |p| <= maxord
    requires maxord > 0 ==> OfSize(formed, maxord)
    requires forall k :: 0 <= k < |r| ==> r[k] in formed && Wanted(r[k], true, maxord)
    requires forall p :: p in formed && Wanted(p, true, maxord) ==> Inside(p, r)
    ensures forall p :: Meet(A, B, p) && p != {} ==> (p in r <==> forall q :: Meet(A, B, q) ==> |q| <= |p|)
  {
    hide Meet, OfSize, SomeOfSize;
    forall p | Meet(A, B, p) && p != {} ensures p in r <==> forall q :: Meet(A, B, q) ==> |q| <= |p| {
      if |p| == maxord {
        var k :| 0 <= k < |r| && p <= r[k];
        SubsetCard(p, r[k]);
      } else {
        assert |p| > 0 && p in formed;
        var q := SomeOfSize(formed, maxord);
        assert Meet(A, B, q) && |q| > |p|;
      }
    }
  }

  /** The intersection of two families stands for the rows of both. */
  lemma IntersectionStands(A: seq<set<nat>>, B: seq<set<nat>>, rowsA: seq<set<nat>>, rowsB: seq<set<nat>>, n: nat,
                           r: seq<set<nat>>)
    requires Stands(rowsA, A, n) && Stands(rowsB, B, n) && Intersected(A, B, false, r)
    ensures Stands(rowsA + rowsB, r, n)
  {
    forall k | 0 <= k < |r| ensures Avoids(rowsA + rowsB, r[k], n) {
      assert r[k] in r;
      var i, j :| 0 <= i < |A| && 0 <= j < |B| && r[k] == A[i] * B[j];
      SmallerAvoids(rowsA, A[i], r[k], n);
      SmallerAvoids(rowsB, B[j], r[k], n);
      AvoidsAppend(rowsA, rowsB, r[k], n);
    }
    forall p | p != {} && Avoids(rowsA + rowsB, p, n) ensures Inside(p, r) {
      AvoidsAppend(rowsA, rowsB, p, n);
      assert Inside(p, A) && Inside(p, B);
      var i :| 0 <= i < |A| && p <= A[i];
      var j :| 0 <= j < |B| && p <= B[j];
      assert p <= A[i] * B[j];
      assert Inside(A[i] * B[j], r);
      var k :| 0 <= k < |r| && A[i] * B[j] <= r[k];
      assert p <= r[k];
    }
  }

  /** One slot of the stack: a family, and the level that tells how many sets it stands for. */
  datatype Entry = Entry(sf: seq<set<nat>>, level: int)

  const STACK_SLOTS: nat := 32

  ghost function Pow2(n: nat): (r: nat)
    ensures r >= 1
  {
    if n == 0 then 1 else 2 * Pow2(n - 1)
  }

  lemma {:induction false} Pow2Monotone(a: nat, b: nat)
    requires a <= b
    ensures Pow2(a) <= Pow2(b)
  {
    if a < b {
      Pow2Monotone(a, b - 1);
    }
  }

  ghost function Flatten(rows: seq<seq<set<nat>>>): seq<set<nat>> {
    if rows == [] then [] else Flatten(rows[..|rows| - 1]) + rows[|rows| - 1]
  }

  lemma FlattenAppend(rows: seq<seq<set<nat>>>, r: seq<set<nat>>)
    ensures Flatten(rows + [r]) == Flatten(rows) + r
  {
    assert (rows + [r])[..|rows|] == rows;
  }

  lemma FlattenTwo(low: seq<seq<set<nat>>>, a: seq<set<nat>>, b: seq<set<nat>>)
    ensures Flatten(low + [a + b]) == Flatten(low + [a] + [b])
  {
    FlattenAppend(low, a + b);
    FlattenAppend(low, a);
    FlattenAppend(low + [a], b);
    assert Flatten(low) + (a + b) == Flatten(low) + a + b;
  }

  /** Every slot stands for its rows. */
  ghost predicate Represents(stack: seq<Entry>, rows: seq<seq<set<nat>>>, n: nat) {
    |stack| == |rows| > 0 && forall j :: 0 <= j < |stack| ==> Stands(rows[j], stack[j].sf, n)
  }

  /** Levels increase from the bottom to the slot before last, and the last is not below. */
  ghost predicate Leveled(stack: seq<Entry>, lev: nat, strict: bool) {
    && (forall j :: 0 <= j < |stack| ==> stack[j].level <= lev)
    && (forall i, j :: 0 <= i < j < |stack| && (strict || j < |stack| - 1) ==> stack[i].level < stack[j].level)
    && (!strict && |stack| >= 2 ==> stack[|stack| - 2].level <= stack[|stack| - 1].level)
  }

  /** The slot at level l stands for 2 ** (lev - l) sets; the full set at the bottom counts for one. */
  ghost predicate Weighed(stack: seq<Entry>, rows: seq<seq<set<nat>>>, lev: nat)
    requires |rows| == |stack|
  {
    forall j :: 0 <= j < |stack| ==>
      stack[j].level <= lev && |rows[j]| + (if j == 0 then 1 else 0) == Pow2(lev - stack[j].level)
  }

  ghost function RowCount(rows: seq<seq<set<nat>>>): nat {
    if rows == [] then 0 else RowCount(rows[..|rows| - 1]) + |rows[|rows| - 1]|
  }

  lemma {:induction false} FlattenCount(rows: seq<seq<set<nat>>>)
    ensures |Flatten(rows)| == RowCount(rows)
  {
    if rows != [] {
      FlattenCount(rows[..|rows| - 1]);
    }
  }

  /** With d slots below level m the sets number at least 2 ** d - 1 times 2 ** (lev - m). */
  lemma {:induction false} Depth(stack: seq<Entry>, rows: seq<seq<set<nat>>>, lev: nat, m: int)
    requires |rows| == |stack| && Leveled(stack, lev, true) && Weighed(stack, rows, lev) && m <= lev
    requires stack != [] ==> stack[|stack| - 1].level <= m
    ensures stack != [] ==> RowCount(rows) + 1 >= Filled(|stack|, lev - m)
    decreases |stack|
  {
    hide Filled, Pow2;
    if |stack| == 1 {
      assert RowCount(rows) == RowCount([]) + |rows[0]| by { assert rows[..0] == []; }
      Pow2Monotone(lev - m, lev - stack[0].level);
      FilledOne(lev - m);
    } else if stack != [] {
      var d := |stack| - 1;
      var below, rbelow := stack[..d], rows[..d];
      assert below[d - 1].level < stack[d].level;
      Depth(below, rbelow, lev, m - 1);
      Pow2Monotone(lev - m, lev - stack[d].level);
      FilledNext(d, lev - m, RowCount(rbelow) + 1, |rows[d]|);
    }
  }

  /** The sets that d slots stand for at least, the topmost standing for 2^k. */
  ghost function Filled(d: nat, k: nat): int {
    (Pow2(d) - 1) * Pow2(k)
  }

  lemma FilledOne(k: nat)
    ensures Filled(1, k) == Pow2(k)
  {
    assert Pow2(1) == 2;
  }

  lemma FilledNext(d: nat, k: nat, below: int, top: int)
    requires below >= Filled(d, k + 1) && top >= Pow2(k)
    ensures below + top >= Filled(d + 1, k)
  {
    assert Pow2(d + 1) == 2 * Pow2(d) && Pow2(k + 1) == 2 * Pow2(k);
    DepthSum(Pow2(d), Pow2(k), below, top);
  }

  lemma DepthSum(p: int, q: int, below: int, top: int)
    requires below >= (p - 1) * (2 * q) && top >= q
    ensures below + top >= (2 * p - 1) * q
  {
    assert (p - 1) * (2 * q) + q == (2 * p - 1) * q;
  }

  /** There is room for one more slot. */
  lemma RoomOnStack(stack: seq<Entry>, rows: seq<seq<set<nat>>>, lev: nat, count: nat)
    requires |rows| == |stack| > 0 && Leveled(stack, lev, true) && Weighed(stack, rows, lev)
    requires RowCount(rows) < count <= 0x7fff_ffff
    ensures |stack| < STACK_SLOTS
  {
    Depth(stack, rows, lev, lev);
    assert Pow2(0) == 1;
    if |stack| >= 32 {
      Pow2Monotone(32, |stack|);
      PowersOfTwo();
    }
  }

  lemma PowersOfTwo()
    ensures Pow2(32) == 0x1_0000_0000
  {
    assert Pow2(4) == 16;
    assert Pow2(8) == 256;
    assert Pow2(12) == 4096;
    assert Pow2(16) == 0x1_0000;
    assert Pow2(20) == 0x10_0000;
    assert Pow2(24) == 0x100_0000;
    assert Pow2(28) == 0x1000_0000;
  }

  /** The complements of p's columns: a cover of the single row p. */
  method Unstack(p: set<nat>, n: nat) returns (temp: seq<set<nat>>)
    requires forall i :: i in p ==> i < n
    ensures Stands([p], temp, n)
  {
    temp := [];
    var full := FullSet(n);
    for i := 0 to n
      invariant forall k :: 0 <= k < |temp| ==> Avoids([p], temp[k], n)
      invariant forall j :: 0 <= j < i && j in p ==> full - {j} in temp
    {
      if i in p {
        assert full - (full - {i}) == {i};
        assert i in p * {i};
        temp := temp + [full - {i}];
      }
    }
    forall q | q != {} && Avoids([p], q, n) ensures Inside(q, temp) {
      assert [p][0] * (full - q) != {};
      var i :| i in p * (full - q);
      assert full - {i} in temp;
      var k :| 0 <= k < |temp| && temp[k] == full - {i};
      assert q <= temp[k];
    }
  }

  lemma StandsMerged(a: seq<set<nat>>, b: seq<set<nat>>, C: seq<set<nat>>, n: nat)
    requires Stands(a + b, C, n)
    ensures Stands(b + a, C, n)
  {
    forall p ensures Avoids(a + b, p, n) <==> Avoids(b + a, p, n) {
      AvoidsAppend(a, b, p, n);
      AvoidsAppend(b, a, p, n);
    }
    forall p | p != {} && Avoids(b + a, p, n) ensures Inside(p, C) {
    }
  }

  /** Replace the two top slots by their intersection, one level down. */
  method MergeTop(stack: seq<Entry>, ghost rows: seq<seq<set<nat>>>, ghost n: nat)
    returns (stack': seq<Entry>, ghost rows': seq<seq<set<nat>>>)
    requires Represents(stack, rows, n) && |stack| >= 2
    ensures Represents(stack', rows', n) && |stack'| == |stack| - 1
    ensures Flatten(rows') == Flatten(rows) && RowCount(rows') == RowCount(rows)
    ensures forall j :: 0 <= j < |stack'| - 1 ==> stack'[j] == stack[j] && rows'[j] == rows[j]
    ensures var d := |stack|;
            && rows'[d - 2] == rows[d - 2] + rows[d - 1]
            && stack'[d - 2].level == (if stack[d - 1].level < stack[d - 2].level then stack[d - 1].level
            else stack[d - 2].level) - 1
            && NoneInside(stack'[d - 2].sf) && NoneEmpty(stack'[d - 2].sf)
  {
    var d := |stack|;
    var top, next := stack[d - 1], stack[d - 2];
    var temp := UnateIntersect(top.sf, next.sf, false);
    IntersectionStands(top.sf, next.sf, rows[d - 1], rows[d - 2], n, temp);
    StandsMerged(rows[d - 1], rows[d - 2], temp, n);
    var lvl := (if top.level < next.level then top.level else next.level) - 1;
    stack' := stack[..d - 2] + [Entry(temp, lvl)];
    rows' := rows[..d - 2] + [rows[d - 2] + rows[d - 1]];
    MergedRows(rows, rows');
  }

  lemma MergedRows(rows: seq<seq<set<nat>>>, rows': seq<seq<set<nat>>>)
    requires |rows| >= 2 && rows' == rows[..|rows| - 2] + [rows[|rows| - 2] + rows[|rows| - 1]]
    ensures Flatten(rows') == Flatten(rows) && RowCount(rows') == RowCount(rows)
  {
    var d := |rows|;
    var low := rows[..d - 2];
    assert rows == low + [rows[d - 2]] + [rows[d - 1]];
    FlattenTwo(low, rows[d - 2], rows[d - 1]);
    FlattenCount(rows);
    FlattenCount(rows');
  }

  /** Merging two slots of the same level keeps the bookkeeping. */
  lemma MergedLevels(stack: seq<Entry>, rows: seq<seq<set<nat>>>, stack': seq<Entry>, rows': seq<seq<set<nat>>>,
                     lev: nat)
    requires |rows| == |stack| >= 2 && |rows'| == |stack'| == |stack| - 1
    requires Leveled(stack, lev, false) && Weighed(stack, rows, lev)
    requires stack[|stack| - 1].level == stack[|stack| - 2].level
    requires forall j :: 0 <= j < |stack'| - 1 ==> stack'[j] == stack[j] && rows'[j] == rows[j]
    requires rows'[|stack| - 2] == rows[|stack| - 2] + rows[|stack| - 1]
    requires stack'[|stack| - 2].level == stack[|stack| - 1].level - 1
    ensures Leveled(stack', lev, false) && Weighed(stack', rows', lev)
  {
  }

  /** Push one set. */
  method Push(stack: seq<Entry>, ghost rows: seq<seq<set<nat>>>, p: set<nat>, lev: nat, n: nat)
    returns (stack': seq<Entry>, ghost rows': seq<seq<set<nat>>>)
    requires Represents(stack, rows, n) && (forall i :: i in p ==> i < n)
    requires |stack| < STACK_SLOTS && Leveled(stack, lev, true) && Weighed(stack, rows, lev)
    ensures Represents(stack', rows', n) && |stack'| == |stack| + 1 <= STACK_SLOTS
    ensures Leveled(stack', lev, false) && Weighed(stack', rows', lev)
    ensures Flatten(rows') == Flatten(rows) + [p] && RowCount(rows') == RowCount(rows) + 1
  {
    var temp := Unstack(p, n);
    stack' := stack + [Entry(temp, lev)];
    rows' := rows + [[p]];
    FlattenAppend(rows, [p]);
    FlattenCount(rows);
    FlattenCount(rows');
    assert Pow2(0) == 1;
  }

  /** The pops while the two top levels agree. */
  method PopLevels(stack0: seq<Entry>, ghost rows0: seq<seq<set<nat>>>, ghost lev: nat, ghost n: nat)
    returns (stack: seq<Entry>, ghost rows: seq<seq<set<nat>>>)
    requires Represents(stack0, rows0, n) && Leveled(stack0, lev, false) && Weighed(stack0, rows0, lev)
    ensures Represents(stack, rows, n) && Leveled(stack, lev, true) && Weighed(stack, rows, lev)
    ensures Flatten(rows) == Flatten(rows0) && RowCount(rows) == RowCount(rows0)
  {
    stack, rows := stack0, rows0;
    while |stack| > 1 && stack[|stack| - 1].level == stack[|stack| - 2].level
      invariant Represents(stack, rows, n) && Leveled(stack, lev, false) && Weighed(stack, rows, lev)
      invariant Flatten(rows) == Flatten(rows0) && RowCount(rows) == RowCount(rows0)
    {
      ghost var s, r := stack, rows;
      stack, rows := MergeTop(stack, rows, n);
      MergedLevels(s, r, stack, rows, lev);
    }
  }

  /** The pops after the last set: everything is intersected. */
  method PopAll(stack0: seq<Entry>, ghost rows0: seq<seq<set<nat>>>, ghost n: nat)
    returns (stack: seq<Entry>, ghost rows: seq<seq<set<nat>>>)
    requires Represents(stack0, rows0, n) && |stack0| >= 2
    ensures Represents(stack, rows, n) && |stack| == 1 && Flatten(rows) == Flatten(rows0)
    ensures NoneInside(stack[0].sf) && NoneEmpty(stack[0].sf)
  {
    stack, rows := MergeTop(stack0, rows0, n);
    while |stack| > 1
      invariant Represents(stack, rows, n) && Flatten(rows) == Flatten(rows0)
      invariant var t := stack[|stack| - 1].sf; NoneInside(t) && NoneEmpty(t)
    {
      stack, rows := MergeTop(stack, rows, n);
    }
  }

  /** lev: the number of bits of count. */
  method CountBits(count: nat) returns (lev: nat)
    ensures count > 0 ==> lev > 0
  {
    lev := 0;
    var k := count;
    while k != 0
      invariant count > 0 ==> lev > 0 || k == count
    {
      k, lev := k / 2, lev + 1;
    }
  }

  /** The stack with the full set that gets things started. */
  lemma FullSetStands(n: nat)
    ensures Stands([], [FullSet(n)], n)
  {
    forall p | p != {} && Avoids([], p, n) ensures Inside(p, [FullSet(n)]) {
      assert p <= [FullSet(n)][0];
    }
  }

  /** The leveled intersection of all sets of T; the stack of 32 slots is never exceeded. */
  method IntersectAll(T: seq<set<nat>>, n: nat) returns (C: seq<set<nat>>)
    requires 0 < |T| <= 0x7fff_ffff && Columns(T, n)
    ensures Stands(T, C, n) && NoneInside(C) && NoneEmpty(C)
  {
    var lev := CountBits(|T|);
    var stack := [Entry([FullSet(n)], lev)];
    ghost var rows: seq<seq<set<nat>>> := [[]];
    FullSetStands(n);
    assert Flatten(rows) == [] by { assert rows[..0] == []; }
    FlattenCount(rows);
    assert Pow2(0) == 1;
    for k := 0 to |T| - 1
      invariant Represents(stack, rows, n) && Leveled(stack, lev, true) && Weighed(stack, rows, lev)
      invariant Flatten(rows) == T[..k] && RowCount(rows) == k
    {
      RoomOnStack(stack, rows, lev, |T|);
      stack, rows := Push(stack, rows, T[k], lev, n);
      stack, rows := PopLevels(stack, rows, lev, n);
      assert T[..k + 1] == T[..k] + [T[k]];
    }
    var last := |T| - 1;
    RoomOnStack(stack, rows, lev, |T|);
    stack, rows := Push(stack, rows, T[last], lev, n);
    assert T == T[..last] + [T[last]];
    stack, rows := PopAll(stack, rows, n);
    assert Flatten(rows) == rows[0] by { assert rows[..0] == []; }
    C := stack[0].sf;
  }

  lemma MinimalColumns(A: seq<set<nat>>, S: set<nat>, n: nat)
    requires Columns(A, n) && MinimalTransversal(A, S)
    ensures S <= FullSet(n)
  {
    var T := S * FullSet(n);
    forall k | 0 <= k < |A| ensures A[k] * T != {} {
      var i :| i in A[k] * S;
      assert i in A[k] * T;
    }
    assert HitsAll(A, T);
  }

  lemma ComplementMinimal(A: seq<set<nat>>, C: seq<set<nat>>, n: nat, S: set<nat>)
    requires Columns(A, n) && Stands(A, C, n) && NoneInside(C) && NoneEmpty(C)
    ensures (exists k :: 0 <= k < |C| && S == FullSet(n) - C[k]) <==> MinimalTransversal(A, S) && S != FullSet(n)
  {
    var full := FullSet(n);
    if k :| 0 <= k < |C| && S == full - C[k] {
      assert Avoids(A, C[k], n);
      assert C[k] in C && C[k] != {};
      var x :| x in C[k];
      assert x in full && x !in S;
      forall T | T < S ensures !HitsAll(A, T) {
        var q := full - T;
        assert full - q == T;
        assert C[k] <= q && q != C[k] by { assert S != T && full - C[k] == S; }
        forall j | 0 <= j < |C| ensures !(q <= C[j]) {
          assert j != k ==> !(C[k] <= C[j]);
        }
        assert !Inside(q, C);
        assert q != {};
      }
    }
    if MinimalTransversal(A, S) && S != full {
      MinimalColumns(A, S, n);
      var p := full - S;
      assert full - p == S;
      assert p != {};
      assert Inside(p, C);
      var k :| 0 <= k < |C| && p <= C[k];
      assert Avoids(A, C[k], n);
      assert full - C[k] <= S;
      assert full - C[k] == S;
    }
  }

  /** Every row has a column, and every column 0..n-1 is alone in some row. */
  ghost predicate EveryColumnAlone(A: seq<set<nat>>, n: nat) {
    && (forall k :: 0 <= k < |A| ==> A[k] != {})
    && forall c: nat :: c < n ==> AloneIn(A, c)
  }

  ghost predicate AloneIn(A: seq<set<nat>>, c: nat) {
    exists k :: 0 <= k < |A| && A[k] == {c}
  }

  /** When is the set of all columns a minimal transversal?  Exactly when no column can be spared. */
  lemma AllColumnsMinimal(A: seq<set<nat>>, n: nat)
    requires Columns(A, n)
    ensures MinimalTransversal(A, FullSet(n)) <==> EveryColumnAlone(A, n)
  {
    var full := FullSet(n);
    forall k | 0 <= k < |A| ensures A[k] * full == A[k] {
    }
    if MinimalTransversal(A, full) {
      forall c: nat | c < n ensures AloneIn(A, c) {
        var T := full - {c};
        assert T < full;
        var k :| 0 <= k < |A| && A[k] * T == {};
        assert A[k] == {c};
      }
    }
    if EveryColumnAlone(A, n) {
      forall T: set<nat> | T < full ensures !HitsAll(A, T) {
        var c :| c in full && c !in T;
        assert AloneIn(A, c);
        var k :| 0 <= k < |A| && A[k] == {c};
        assert A[k] * T == {};
      }
    }
  }

  /** What exact_minimum_cover returns: the minimal transversals but the set of all columns, each once. */
  ghost predicate LeveledCover(A: seq<set<nat>>, n: nat, temp: seq<set<nat>>) {
    && NoneInside(temp)
    && forall S :: S in temp <==> A != [] && MinimalTransversal(A, S) && S != FullSet(n)
  }

  /** exact_minimum_cover -- set_andp drops the complement of the set of all columns, which is empty. */
  method ExactMinimumCover(T: seq<set<nat>>, n: nat) returns (temp: seq<set<nat>>)
    requires |T| <= 0x7fff_ffff && Columns(T, n)
    ensures LeveledCover(T, n, temp)
    ensures AllMinimal(T, temp) <==> T != [] && !EveryColumnAlone(T, n)
  {
    if |T| <= 0 {
      temp := [];
    } else {
      var C := IntersectAll(T, n);
      temp := Complements(C, T, n);
      forall S ensures S in temp <==> MinimalTransversal(T, S) && S != FullSet(n) {
        ComplementMinimal(T, C, n, S);
      }
    }
    CompleteExactly(T, n, temp);
  }

  lemma ComplementTurns(full: set<nat>, a: set<nat>, b: set<nat>)
    requires b <= full
    ensures full - a <= full - b ==> b <= a
  {
  }

  /** The loop of set differences; containment turns round. */
  method Complements(C: seq<set<nat>>, ghost T: seq<set<nat>>, n: nat) returns (temp: seq<set<nat>>)
    requires Stands(T, C, n) && NoneInside(C)
    ensures NoneInside(temp) && forall S :: S in temp <==> exists j :: 0 <= j < |C| && S == FullSet(n) - C[j]
  {
    temp := [];
    var full := FullSet(n);
    for k := 0 to |C|
      invariant |temp| == k && forall j :: 0 <= j < k ==> temp[j] == full - C[j]
    {
      temp := temp + [full - C[k]];
    }
    forall i, j | 0 <= i < |C| && 0 <= j < |C| && i != j ensures !(full - C[i] <= full - C[j]) {
      assert Avoids(T, C[i], n) && Avoids(T, C[j], n);
      ComplementTurns(full, C[i], C[j]);
    }
  }

  /** Nothing is lost, exactly when some column can be spared, or the family is not empty. */
  lemma CompleteExactly(A: seq<set<nat>>, n: nat, temp: seq<set<nat>>)
    requires Columns(A, n) && LeveledCover(A, n, temp)
    ensures AllMinimal(A, temp) <==> A != [] && !EveryColumnAlone(A, n)
  {
    AllColumnsMinimal(A, n);
    if A == [] {
      assert MinimalTransversal(A, {});
    }
  }

  /** Both algorithms return the same sets exactly then. */
  lemma FamiliesAgree(A: seq<set<nat>>, n: nat, B: seq<set<nat>>, temp: seq<set<nat>>)
    requires Columns(A, n) && AllMinimal(A, B) && LeveledCover(A, n, temp)
    ensures (forall S :: S in temp <==> S in B) <==> A != [] && !EveryColumnAlone(A, n)
  {
    CompleteExactly(A, n, temp);
  }

  /** With a row, and a column that is in no row, nothing is lost. */
  lemma UnusedColumn(A: seq<set<nat>>, n: nat, c: nat, B: seq<set<nat>>, temp: seq<set<nat>>)
    requires A != [] && Columns(A, n) && c < n && forall k :: 0 <= k < |A| ==> c !in A[k]
    requires AllMinimal(A, B) && LeveledCover(A, n, temp)
    ensures forall S :: S in temp <==> S in B
  {
    assert EveryColumnAlone(A, n) ==> AloneIn(A, c);
    FamiliesAgree(A, n, B, temp);
  }

  /** The simplest inputs on which they differ: the single row {0} of one column, and no row. */
  lemma AllColumnsLost(B: seq<set<nat>>, temp: seq<set<nat>>)
    requires AllMinimal([{0}], B) && LeveledCover([{0}], 1, temp)
    ensures {0} in B && forall S :: S !in temp
  {
    var A: seq<set<nat>> := [{0}];
    assert FullSet(1) == {0};
    assert A[0] == {0};
    AllColumnsMinimal(A, 1);
    forall S: set<nat> | MinimalTransversal(A, S) ensures S == {0} {
      assert A[0] * S != {};
      assert {0} <= S;
      assert HitsAll(A, {0});
    }
  }

  lemma NoRowLost(n: nat, B: seq<set<nat>>, temp: seq<set<nat>>)
    requires AllMinimal([], B) && LeveledCover([], n, temp)
    ensures {} in B && forall S :: S !in temp
  {
    var none: seq<set<nat>> := [];
    assert MinimalTransversal(none, {});
  }
}
