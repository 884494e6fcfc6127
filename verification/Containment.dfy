/** contain.c: removal of cubes contained in other cubes. */
module Containment {
  import opened Cubes
  import opened Sets

  /** A cube with the given parts and a clear header. */
  function MkCube(parts: set<nat>): Cube {
    Cube(parts, 0, false, false, false, false, false, false)
  }

  /** Parts p lie within some cube of R. */
  ghost predicate Within(p: set<nat>, R: seq<Cube>) {
    exists r :: r in R && p <= r.parts
  }

  /** Every cube of A is contained in a cube of R. */
  ghost predicate Dominates(R: seq<Cube>, A: seq<Cube>) {
    forall a {:trigger Within(a.parts, R)} :: a in A ==> Within(a.parts, R)
  }

  /** No cube of R contains another one. */
  ghost predicate Antichain(R: seq<Cube>) {
    forall i, j :: 0 <= i < |R| && 0 <= j < |R| && i != j ==> !(R[i].parts <= R[j].parts)
  }

  /** s has a cube with parts p. */
  ghost predicate HasParts(s: seq<Cube>, p: set<nat>) {
    exists b :: b in s && b.parts == p
  }

  /** Every cube of R has the parts of a cube of A. */
  ghost predicate PartsFrom(R: seq<Cube>, A: seq<Cube>) {
    forall r {:trigger HasParts(A, r.parts)} :: r in R ==> HasParts(A, r.parts)
  }

  lemma WithParts(s: seq<Cube>, p: set<nat>) returns (b: Cube)
    requires HasParts(s, p)
    ensures b in s && b.parts == p
  {
    b :| b in s && b.parts == p;
  }

  lemma Container(s: seq<Cube>, p: set<nat>) returns (b: Cube)
    requires Within(p, s)
    ensures b in s && p <= b.parts
  {
    b :| b in s && p <= b.parts;
  }

  lemma Position(s: seq<Cube>, c: Cube) returns (i: nat)
    requires c in s
    ensures i < |s| && s[i] == c
  {
    i :| 0 <= i < |s| && s[i] == c;
  }

  lemma WithinTrans(p: set<nat>, A: seq<Cube>, B: seq<Cube>)
    requires Within(p, A) && Dominates(B, A)
    ensures Within(p, B)
  {
    var a :| a in A && p <= a.parts;
    assert Within(a.parts, B);
    var b :| b in B && a.parts <= b.parts;
  }

  lemma DominatesTrans(A: seq<Cube>, B: seq<Cube>, C: seq<Cube>)
    requires Dominates(B, A) && Dominates(C, B)
    ensures Dominates(C, A)
  {
    forall a | a in A ensures Within(a.parts, C) {
      assert Within(a.parts, B);
      WithinTrans(a.parts, B, C);
    }
  }

  lemma DominatesSelf(A: seq<Cube>, B: seq<Cube>)
    requires forall a :: a in A ==> a in B
    ensures Dominates(B, A)
  {
    forall a | a in A ensures Within(a.parts, B) {
      assert a in B;
    }
  }

  // ---------- the order of descend ----------

  /** As numbers, highest part first: the highest part in only one of a and b is in a. */
  predicate Higher(a: set<nat>, b: set<nat>) {
    exists x :: x in a - b && forall y :: y in b - a ==> y < x
  }

  /** descend, desc1: larger SIZE first, then compared as numbers. */
  function Descend(a: Cube, b: Cube): int {
    if a.size > b.size then -1
    else if a.size < b.size then 1
    else if a.parts == b.parts then 0
    else if Higher(a.parts, b.parts) then -1 else 1
  }

  lemma {:induction false} Greatest(s: set<nat>) returns (x: nat)
    requires s != {}
    ensures x in s && forall y :: y in s ==> y <= x
  {
    x :| x in s;
    if s != {x} {
      var z := Greatest(s - {x});
      assert s == (s - {x}) + {x};
      if z > x {
        x := z;
      }
    } else {
      assert forall y :: y in s ==> y in {x};
    }
  }

  /** Of two different sets exactly one is higher. */
  lemma HigherTotal(a: set<nat>, b: set<nat>)
    requires a != b
    ensures Higher(a, b) <==> !Higher(b, a)
  {
    var d := (a - b) + (b - a);
    assert d != {} by {
      assert a - b == {} && b - a == {} ==> a == b;
    }
    var x := Greatest(d);
    if x in a {
      assert x in a - b;
      forall y | y in b - a ensures y < x {
        assert y in d && y != x;
      }
    } else {
      assert x in b - a;
      forall y | y in a - b ensures y < x {
        assert y in d && y != x;
      }
    }
  }

  lemma HigherTrans(a: set<nat>, b: set<nat>, c: set<nat>)
    requires Higher(a, b) && Higher(b, c)
    ensures Higher(a, c)
  {
    var x :| x in a - b && forall y :: y in b - a ==> y < x;
    var z :| z in b - c && forall y :: y in c - b ==> y < z;
    var top := if x > z then x else z;
    assert top in a - c by {
      if x > z {
        assert x in c ==> x in c - b;
      } else {
        assert z !in a ==> z in b - a;
      }
    }
    forall y | y in c - a ensures y < top {
      if y in b {
        assert y in b - a;
      } else {
        assert y in c - b;
      }
    }
  }

  lemma DescendAnti(a: Cube, b: Cube)
    ensures Descend(a, b) == -Descend(b, a)
  {
    if a.parts != b.parts {
      HigherTotal(a.parts, b.parts);
    }
  }

  lemma DescendTrans(a: Cube, b: Cube, c: Cube)
    requires Descend(a, b) <= 0 && Descend(b, c) <= 0
    ensures Descend(a, c) <= 0
    ensures Descend(a, b) < 0 || Descend(b, c) < 0 ==> Descend(a, c) < 0
  {
    if a.size == b.size == c.size && a.parts != b.parts && b.parts != c.parts {
      HigherTrans(a.parts, b.parts, c.parts);
      HigherTotal(a.parts, b.parts);
    }
  }

  /** In the order of descend. */
  ghost predicate Descending(s: seq<Cube>) {
    forall i, j :: 0 <= i < j < |s| ==> Descend(s[i], s[j]) <= 0
  }

  /** The SIZE fields hold the numbers of parts. */
  ghost predicate Sized(s: seq<Cube>) {
    forall i :: 0 <= i < |s| ==> s[i].size == |s[i].parts|
  }

  lemma InsertedDescending(s: seq<Cube>, k: nat, p: Cube)
    requires k <= |s| && Descending(s) && (forall i :: 0 <= i < k ==> Descend(s[i], p) <= 0)
    requires k < |s| ==> Descend(s[k], p) > 0
    ensures Descending(s[..k] + [p] + s[k..])
  {
    var r := s[..k] + [p] + s[k..];
    forall i, j | 0 <= i < j < |r| ensures Descend(r[i], r[j]) <= 0 {
      if i == k {
        DescendAnti(s[k], p);
        assert r[j] == s[j - 1];
        if j - 1 > k {
          DescendTrans(p, s[k], s[j - 1]);
        }
      } else if j == k {
        assert r[i] == s[i];
      } else {
        assert r[i] == s[if i < k then i else i - 1] && r[j] == s[if j < k then j else j - 1];
      }
    }
  }

  method InsertDescending(s: seq<Cube>, p: Cube) returns (r: seq<Cube>)
    requires Descending(s)
    ensures Descending(r) && multiset(r) == multiset(s) + multiset{p} && |r| == |s| + 1
  {
    var k := 0;
    while k < |s| && Descend(s[k], p) <= 0
      invariant 0 <= k <= |s|
      invariant forall i :: 0 <= i < k ==> Descend(s[i], p) <= 0
    {
      k := k + 1;
    }
    InsertedDescending(s, k, p);
    r := s[..k] + [p] + s[k..];
    assert s == s[..k] + s[k..];
  }

  /** A with the SIZE field of every set computed. */
  ghost function WithSizes(A: seq<Cube>): (r: seq<Cube>)
    ensures |r| == |A| && forall k :: 0 <= k < |A| ==> r[k] == A[k].(size := |A[k].parts|)
  {
    seq(|A|, k requires 0 <= k < |A| => A[k].(size := |A[k].parts|))
  }

  /** sf_sort with `descend`: the sort itself is the C library's. */
  method SortDescending(A: seq<Cube>) returns (r: seq<Cube>)
    ensures Descending(r) && multiset(r) == multiset(WithSizes(A)) && |r| == |A|
  {
    r := [];
    ghost var S := WithSizes(A);
    for k := 0 to |A|
      invariant Descending(r) && multiset(r) == multiset(S[..k]) && |r| == k
    {
      assert S[..k + 1] == S[..k] + [S[k]];
      r := InsertDescending(r, A[k].(size := |A[k].parts|));
    }
    assert S[..|A|] == S;
  }

  lemma SortedMembers(A: seq<Cube>, r: seq<Cube>)
    requires multiset(r) == multiset(WithSizes(A))
    ensures Sized(r) && PartsFrom(r, A) && forall a :: a in A ==> HasParts(r, a.parts)
  {
    var S := WithSizes(A);
    forall c ensures c in r <==> c in S {
      assert c in multiset(r) <==> c in multiset(S);
    }
    forall i | 0 <= i < |r| ensures r[i].size == |r[i].parts| && HasParts(A, r[i].parts) {
      assert r[i] in S;
      var k :| 0 <= k < |S| && S[k] == r[i];
      assert A[k] in A;
    }
    forall a | a in A ensures HasParts(r, a.parts) {
      var k :| 0 <= k < |A| && A[k] == a;
      assert S[k] in S;
    }
  }

  // ---------- sf_contain ----------

  /** No two sets are equal, and they come in order. */
  ghost predicate StrictlyDescending(s: seq<Cube>) {
    forall i, j :: 0 <= i < j < |s| ==> Descend(s[i], s[j]) < 0
  }

  /** rm_equal has gone past the first k sets; the last of them is still to be saved. */
  ghost predicate Passed(A1: seq<Cube>, k: nat, r: seq<Cube>)
    requires 0 < k <= |A1|
  {
    && StrictlyDescending(r)
    && (forall i :: 0 <= i < |r| ==> Descend(r[i], A1[k - 1]) < 0 && r[i] in A1)
    && (forall i :: 0 <= i < k ==> HasParts(r, A1[i].parts) || A1[i].parts == A1[k - 1].parts)
  }

  /** rm_equal -- of equal neighbours only the last one is kept. */
  method RmEqual(A1: seq<Cube>) returns (r: seq<Cube>)
    requires Descending(A1)
    ensures StrictlyDescending(r) && (forall c :: c in r ==> c in A1)
    ensures PartsFrom(A1, r)
  {
    r := [];
    if |A1| > 0 {
      for k := 1 to |A1|
        invariant Passed(A1, k, r)
      {
        StepEqual(A1, k, r);
        if Descend(A1[k], A1[k - 1]) != 0 {
          r := r + [A1[k - 1]];
        }
      }
      KeepLast(A1, r);
      r := r + [A1[|A1| - 1]];
    }
  }

  /** Saving the set before k when it differs from the one at k. */
  function SaveBefore(A1: seq<Cube>, k: nat, r: seq<Cube>): seq<Cube>
    requires 0 < k < |A1|
  {
    if Descend(A1[k], A1[k - 1]) != 0 then r + [A1[k - 1]] else r
  }

  lemma SavedInOrder(A1: seq<Cube>, k: nat, r: seq<Cube>)
    requires 0 < k < |A1| && Descending(A1) && StrictlyDescending(r)
    requires forall i :: 0 <= i < |r| ==> Descend(r[i], A1[k - 1]) < 0 && r[i] in A1
    ensures var r' := SaveBefore(A1, k, r);
            StrictlyDescending(r') && forall i :: 0 <= i < |r'| ==> Descend(r'[i], A1[k]) < 0 && r'[i] in A1
  {
    DescendAnti(A1[k], A1[k - 1]);
    assert Descend(A1[k - 1], A1[k]) <= 0;
    forall i | 0 <= i < |r| ensures Descend(r[i], A1[k]) < 0 {
      DescendTrans(r[i], A1[k - 1], A1[k]);
    }
    assert A1[k - 1] in A1;
  }

  /** One step along the sorted array. */
  lemma StepEqual(A1: seq<Cube>, k: nat, r: seq<Cube>)
    requires 0 < k < |A1| && Descending(A1) && Passed(A1, k, r)
    ensures Passed(A1, k + 1, SaveBefore(A1, k, r))
  {
    SavedInOrder(A1, k, r);
    var r' := SaveBefore(A1, k, r);
    forall i | 0 <= i < k + 1 ensures HasParts(r', A1[i].parts) || A1[i].parts == A1[k].parts {
      if i < k && HasParts(r, A1[i].parts) {
        var b := WithParts(r, A1[i].parts);
        assert b in r';
      } else if i < k && Descend(A1[k], A1[k - 1]) != 0 {
        assert A1[k - 1] in r';
      }
    }
  }

  lemma KeepLast(A1: seq<Cube>, r: seq<Cube>)
    requires A1 != [] && Passed(A1, |A1|, r)
    ensures var r' := r + [A1[|A1| - 1]];
            StrictlyDescending(r') && (forall c :: c in r' ==> c in A1) && PartsFrom(A1, r')
  {
    var last := A1[|A1| - 1];
    var r' := r + [last];
    assert last in r';
    forall c | c in r' ensures c in A1 {
      var i := Position(r', c);
    }
    forall c | c in A1 ensures HasParts(r', c.parts) {
      var i := Position(A1, c);
      if HasParts(r, c.parts) {
        var b := WithParts(r, c.parts);
        assert b in r';
      }
    }
  }

  /** Is p contained in one of the sets kept before position check? */
  method ContainedIn(p: Cube, kept: seq<Cube>, check: nat) returns (yes: bool)
    requires check <= |kept|
    ensures yes <==> exists j :: 0 <= j < check && p.parts <= kept[j].parts
  {
    for k := 0 to check
      invariant forall j :: 0 <= j < k ==> !(p.parts <= kept[j].parts)
    {
      if p.parts <= kept[k].parts {
        return true;
      }
    }
    return false;
  }

  /** The sets kept so far, and how many of them are larger than those of the current size. */
  ghost predicate Keeping(A1: seq<Cube>, k: nat, R: seq<Cube>, lastSize: int, check: nat)
    requires k <= |A1|
  {
    && check <= |R| && Sized(R) && Antichain(R) && StrictlyDescending(R)
    && (forall i :: 0 <= i < |R| ==> R[i] in A1[..k])
    && (k > 0 ==> lastSize == A1[k - 1].size)
    && (forall i :: 0 <= i < check ==> R[i].size > lastSize)
    && (forall i :: check <= i < |R| ==> R[i].size == lastSize)
    && Dominates(R, A1[..k])
  }

  /** rm_contain -- each set is compared with the larger ones that were kept. */
  method RmContain(A1: seq<Cube>) returns (R: seq<Cube>)
    requires StrictlyDescending(A1) && Sized(A1)
    ensures (forall r :: r in R ==> r in A1) && Sized(R) && Antichain(R) && StrictlyDescending(R) && Dominates(R, A1)
  {
    R := [];
    var lastSize: int, check: nat := -1, 0;
    for k := 0 to |A1|
      invariant Keeping(A1, k, R, lastSize, check)
    {
      var a := A1[k];
      ghost var before, last0, check0 := R, lastSize, check;
      if a.size != lastSize {
        lastSize := a.size;
        check := |R|;
      }
      var contained := ContainedIn(a, R, check);
      KeepStep(A1, k, before, last0, check0, contained);
      if !contained {
        R := R + [a];
      }
    }
    assert A1[..|A1|] == A1;
    forall r | r in R ensures r in A1 {
      var i := Position(R, r);
    }
  }

  /** Where the sets strictly larger than the one at k end. */
  function CheckEnd(A1: seq<Cube>, k: nat, R: seq<Cube>, lastSize: int, check: nat): nat
    requires k < |A1|
  {
    if A1[k].size != lastSize then |R| else check
  }

  /** The sets kept before are not smaller, those before the check position larger. */
  lemma KeptLarger(A1: seq<Cube>, k: nat, R: seq<Cube>, lastSize: int, check: nat)
    requires k < |A1| && StrictlyDescending(A1) && Keeping(A1, k, R, lastSize, check)
    ensures forall i :: 0 <= i < |R| ==> Descend(R[i], A1[k]) < 0 && R[i].size >= A1[k].size
    ensures forall i :: 0 <= i < CheckEnd(A1, k, R, lastSize, check) ==> R[i].size > A1[k].size
    ensures forall i :: CheckEnd(A1, k, R, lastSize, check) <= i < |R| ==> R[i].size == A1[k].size
  {
    forall i | 0 <= i < |R|
      ensures Descend(R[i], A1[k]) < 0 && R[i].size >= A1[k].size
      ensures i < CheckEnd(A1, k, R, lastSize, check) ==> R[i].size > A1[k].size
    {
      var j := Position(A1[..k], R[i]);
      assert Descend(A1[j], A1[k]) < 0;
      SizesFall(A1, j, k);
    }
  }

  /** A set not found before the check position lies in none of the kept ones. */
  lemma NotKept(A1: seq<Cube>, k: nat, R: seq<Cube>, lastSize: int, check: nat)
    requires k < |A1| && StrictlyDescending(A1) && Sized(A1) && Keeping(A1, k, R, lastSize, check)
    requires forall j :: 0 <= j < CheckEnd(A1, k, R, lastSize, check) ==> !(A1[k].parts <= R[j].parts)
    ensures Antichain(R + [A1[k]]) && StrictlyDescending(R + [A1[k]])
  {
    var a := A1[k];
    KeptLarger(A1, k, R, lastSize, check);
    forall i | 0 <= i < |R| ensures R[i].size >= a.size && !(a.parts <= R[i].parts) {
      if i >= CheckEnd(A1, k, R, lastSize, check) && a.parts <= R[i].parts {
        SubsetCard(a.parts, R[i].parts);
      }
    }
    KeptAntichain(R, a);
  }

  lemma KeepStep(A1: seq<Cube>, k: nat, R: seq<Cube>, lastSize: int, check: nat, contained: bool)
    requires k < |A1| && StrictlyDescending(A1) && Sized(A1) && Keeping(A1, k, R, lastSize, check)
    requires contained <==> exists j :: 0 <= j < CheckEnd(A1, k, R, lastSize, check) && A1[k].parts <= R[j].parts
    ensures Keeping(A1, k + 1, if contained then R else R + [A1[k]], A1[k].size, CheckEnd(A1, k, R, lastSize, check))
  {
    var a := A1[k];
    assert A1[..k + 1] == A1[..k] + [a];
    KeptLarger(A1, k, R, lastSize, check);
    var R' := if contained then R else R + [a];
    if !contained {
      NotKept(A1, k, R, lastSize, check);
      assert a in R';
    }
    DominatesMore(R, R', A1[..k], a);
  }

  lemma SizesFall(A1: seq<Cube>, j: nat, k: nat)
    requires j < k < |A1| && StrictlyDescending(A1)
    ensures A1[j].size >= A1[k - 1].size >= A1[k].size
  {
    assert Descend(A1[k - 1], A1[k]) < 0;
    assert j < k - 1 ==> Descend(A1[j], A1[k - 1]) < 0;
  }

  lemma KeptAntichain(R: seq<Cube>, p: Cube)
    requires Antichain(R) && Sized(R) && p.size == |p.parts|
    requires forall i :: 0 <= i < |R| ==> R[i].size >= p.size && !(p.parts <= R[i].parts)
    ensures Antichain(R + [p])
  {
    forall i | 0 <= i < |R| ensures !(R[i].parts <= p.parts) {
      if R[i].parts <= p.parts {
        SubsetCard(R[i].parts, p.parts);
      }
    }
  }

  lemma DominatesMore(R: seq<Cube>, R': seq<Cube>, A: seq<Cube>, p: Cube)
    requires Dominates(R, A) && (forall r :: r in R ==> r in R') && Within(p.parts, R')
    ensures Dominates(R', A + [p])
  {
    forall a | a in A + [p] ensures Within(a.parts, R') {
      if a in A {
        assert Within(a.parts, R);
        var r := Container(R, a.parts);
        assert r in R';
      }
    }
  }

  /** What containment leaves: an antichain in order, with the SIZE fields set. */
  ghost predicate Contained(R: seq<Cube>) {
    Sized(R) && Descending(R) && Antichain(R)
  }

  /** sf_contain -- delete the sets that are contained in some other set of the family. */
  method SfContain(A: seq<Cube>) returns (R: seq<Cube>)
    ensures PartsFrom(R, A) && Dominates(R, A) && Contained(R)
  {
    var A1 := SortDescending(A);
    SortedMembers(A, A1);
    var A2 := RmEqual(A1);
    forall i | 0 <= i < |A2| ensures A2[i].size == |A2[i].parts| {
      assert A2[i] in A1;
    }
    R := RmContain(A2);
    ContainResult(A, A1, A2, R);
  }

  lemma ContainResult(A: seq<Cube>, A1: seq<Cube>, A2: seq<Cube>, R: seq<Cube>)
    requires PartsFrom(A1, A) && (forall a :: a in A ==> HasParts(A1, a.parts))
    requires (forall c :: c in A2 ==> c in A1)
    requires PartsFrom(A1, A2) && (forall r :: r in R ==> r in A2) && Dominates(R, A2)
    ensures PartsFrom(R, A) && Dominates(R, A)
  {
    forall a | a in A ensures Within(a.parts, R) {
      var b := WithParts(A1, a.parts);
      var c := WithParts(A2, b.parts);
      assert Within(c.parts, R);
    }
    forall r | r in R ensures HasParts(A, r.parts) {
      assert r in A1;
    }
  }

  /** sf_dupl -- delete duplicate sets. */
  method SfDupl(A: seq<Cube>) returns (R: seq<Cube>)
    ensures PartsFrom(R, A) && PartsFrom(A, R)
    ensures forall i, j :: 0 <= i < j < |R| ==> R[i].parts != R[j].parts
  {
    var A1 := SortDescending(A);
    SortedMembers(A, A1);
    R := RmEqual(A1);
    forall i | 0 <= i < |R| ensures R[i].size == |R[i].parts| && HasParts(A, R[i].parts) {
      assert R[i] in A1;
    }
    forall a | a in A ensures HasParts(R, a.parts) {
      var b := WithParts(A1, a.parts);
      assert HasParts(R, b.parts);
    }
  }

  // ---------- sf_union ----------

  /** a and b are as sf_contain leaves them. */
  ghost predicate BothContained(a: seq<Cube>, b: seq<Cube>) {
    Contained(a) && Contained(b)
  }

  ghost predicate NoneEqual(A1: seq<Cube>, B1: seq<Cube>) {
    forall a, b :: a in A1 && b in B1 ==> a.parts != b.parts
  }

  /** Every cube of A is in A1, or has its parts in E. */
  ghost predicate SharedOut(A: seq<Cube>, A1: seq<Cube>, E: seq<Cube>) {
    && (forall c :: c in A1 ==> c in A)
    && forall c {:trigger HasParts(E, c.parts)} :: c in A ==> c in A1 || HasParts(E, c.parts)
  }

  /**
   What rm2_equal makes of two arrays: equal cubes it meets go to E, once.  It meets all of them if the
   arrays are antichains in order.
   */
  ghost predicate EqualSplit(A: seq<Cube>, B: seq<Cube>, A1: seq<Cube>, B1: seq<Cube>, E: seq<Cube>) {
    && SharedOut(A, A1, E) && SharedOut(B, B1, E)
    && (forall c :: c in E ==> c in A) && PartsFrom(E, B)
  }

  ghost predicate AllFound(A1: seq<Cube>, B1: seq<Cube>, E: seq<Cube>) {
    && Contained(A1) && Contained(B1) && Contained(E)
    && NoneEqual(A1, B1) && NoneEqual(A1, E) && NoneEqual(B1, E)
  }

  /** Cubes passed in one array come before those still to come in the other. */
  ghost predicate Crossed(A: seq<Cube>, B: seq<Cube>, i: nat, j: nat)
    requires i <= |A| && j <= |B|
  {
    && (forall x, y :: 0 <= x < i && j <= y < |B| ==> Descend(A[x], B[y]) < 0)
    && (forall x, y :: i <= x < |A| && 0 <= y < j ==> Descend(B[y], A[x]) < 0)
  }

  /** The state of the walk. */
  ghost predicate Walked(A: seq<Cube>, B: seq<Cube>, i: nat, j: nat, A1: seq<Cube>, B1: seq<Cube>, E: seq<Cube>)
    requires i <= |A| && j <= |B|
  {
    && EqualSplit(A[..i], B[..j], A1, B1, E)
    && (BothContained(A, B) ==> Crossed(A, B, i, j) && AllFound(A1, B1, E))
  }

  lemma SharedMore(A: seq<Cube>, A1: seq<Cube>, E: seq<Cube>, p: Cube, A1': seq<Cube>, E': seq<Cube>)
    requires SharedOut(A, A1, E) && (forall c :: c in A1 ==> c in A1') && (forall c :: c in E ==> c in E')
    requires (forall c :: c in A1' ==> c in A1 || c == p) && (p in A1' || HasParts(E', p.parts))
    ensures SharedOut(A + [p], A1', E')
  {
    forall c | c in A + [p] ensures c in A1' || HasParts(E', c.parts) {
      if c in A && HasParts(E, c.parts) {
        var e := WithParts(E, c.parts);
        assert e in E';
      }
    }
  }

  /** Appending the next cube of a contained family keeps what was made of the cubes before it contained. */
  lemma AppendContained(A: seq<Cube>, i: nat, r: seq<Cube>)
    requires i < |A| && Contained(A) && Contained(r) && forall c :: c in r ==> c in A[..i]
    ensures Contained(r + [A[i]]) && forall c :: c in r ==> c.parts != A[i].parts
  {
    forall k | 0 <= k < |r|
      ensures Descend(r[k], A[i]) <= 0 && !(r[k].parts <= A[i].parts) && !(A[i].parts <= r[k].parts)
    {
      assert r[k] in r;
      var x := Position(A[..i], r[k]);
    }
    forall c | c in r ensures c.parts != A[i].parts {
      var k := Position(r, c);
    }
  }

  /** In order and different from those after it. */
  lemma StrictlyAhead(A: seq<Cube>, i: nat, x: nat)
    requires i < x < |A| && Contained(A)
    ensures Descend(A[i], A[x]) < 0
  {
    assert !(A[i].parts <= A[x].parts);
  }

  /** Cubes in different places of the order have different parts. */
  lemma ApartInOrder(a: Cube, b: Cube)
    requires Descend(a, b) < 0 && a.size == |a.parts| && b.size == |b.parts|
    ensures a.parts != b.parts
  {
  }

  /** The left cube comes first: it has no equal on the right. */
  lemma WalkLeft(A: seq<Cube>, B: seq<Cube>, i: nat, j: nat, A1: seq<Cube>, B1: seq<Cube>, E: seq<Cube>)
    requires i < |A| && j <= |B| && Walked(A, B, i, j, A1, B1, E) && (j < |B| ==> Descend(A[i], B[j]) < 0)
    ensures Walked(A, B, i + 1, j, A1 + [A[i]], B1, E)
  {
    assert A[..i + 1] == A[..i] + [A[i]];
    SharedMore(A[..i], A1, E, A[i], A1 + [A[i]], E);
    if BothContained(A, B) {
      forall y | j <= y < |B| ensures Descend(A[i], B[y]) < 0 {
        if y > j {
          DescendTrans(A[i], B[j], B[y]);
        }
      }
      AppendContained(A, i, A1);
      forall b | b in B1 ensures b.parts != A[i].parts {
        var y := Position(B[..j], b);
        ApartInOrder(B[y], A[i]);
      }
      DifferentFromPassed(A, i, E);
    }
  }

  lemma DifferentFromPassed(A: seq<Cube>, i: nat, E: seq<Cube>)
    requires i < |A| && Contained(A) && forall c :: c in E ==> c in A[..i]
    ensures forall c :: c in E ==> c.parts != A[i].parts
  {
    forall c | c in E ensures c.parts != A[i].parts {
      var x := Position(A[..i], c);
      assert !(A[x].parts <= A[i].parts);
    }
  }

  /** The right cube comes first. */
  lemma WalkRight(A: seq<Cube>, B: seq<Cube>, i: nat, j: nat, A1: seq<Cube>, B1: seq<Cube>, E: seq<Cube>)
    requires i <= |A| && j < |B| && Walked(A, B, i, j, A1, B1, E) && (i < |A| ==> Descend(A[i], B[j]) > 0)
    ensures Walked(A, B, i, j + 1, A1, B1 + [B[j]], E)
  {
    assert B[..j + 1] == B[..j] + [B[j]];
    SharedMore(B[..j], B1, E, B[j], B1 + [B[j]], E);
    forall c | c in E ensures HasParts(B[..j + 1], c.parts) {
      var b := WithParts(B[..j], c.parts);
      assert b in B[..j + 1];
    }
    if BothContained(A, B) {
      forall x | i <= x < |A| ensures Descend(B[j], A[x]) < 0 {
        DescendAnti(A[i], B[j]);
        if x > i {
          DescendTrans(B[j], A[i], A[x]);
        }
      }
      AppendContained(B, j, B1);
      forall a | a in A1 ensures a.parts != B[j].parts {
        var x := Position(A[..i], a);
        ApartInOrder(A[x], B[j]);
      }
      forall e | e in E ensures e.parts != B[j].parts {
        var b := WithParts(B[..j], e.parts);
        var y := Position(B[..j], b);
        assert !(B[y].parts <= B[j].parts);
      }
    }
  }

  /** Equal cubes: one of them is kept, in E. */
  lemma SplitBoth(A: seq<Cube>, B: seq<Cube>, i: nat, j: nat, A1: seq<Cube>, B1: seq<Cube>, E: seq<Cube>)
    requires i < |A| && j < |B| && EqualSplit(A[..i], B[..j], A1, B1, E) && A[i].parts == B[j].parts
    ensures EqualSplit(A[..i + 1], B[..j + 1], A1, B1, E + [A[i]])
  {
    var a, b, E' := A[i], B[j], E + [A[i]];
    assert A[..i + 1] == A[..i] + [a] && B[..j + 1] == B[..j] + [b];
    assert a in E' && HasParts(E', a.parts);
    SharedMore(A[..i], A1, E, a, A1, E');
    SharedMore(B[..j], B1, E, b, B1, E');
    forall c | c in E' ensures c in A[..i + 1] && HasParts(B[..j + 1], c.parts) {
      if c in E {
        var d := WithParts(B[..j], c.parts);
        assert d in B[..j + 1];
      } else {
        assert b in B[..j + 1];
      }
    }
  }

  lemma WalkBoth(A: seq<Cube>, B: seq<Cube>, i: nat, j: nat, A1: seq<Cube>, B1: seq<Cube>, E: seq<Cube>)
    requires i < |A| && j < |B| && Walked(A, B, i, j, A1, B1, E) && Descend(A[i], B[j]) == 0
    ensures Walked(A, B, i + 1, j + 1, A1, B1, E + [A[i]])
  {
    var a, b := A[i], B[j];
    assert a.parts == b.parts && a.size == b.size;
    SplitBoth(A, B, i, j, A1, B1, E);
    if BothContained(A, B) {
      forall y | j < y < |B| ensures Descend(a, B[y]) < 0 {
        StrictlyAhead(B, j, y);
      }
      forall x | i < x < |A| ensures Descend(b, A[x]) < 0 {
        StrictlyAhead(A, i, x);
      }
      AppendContained(A, i, E);
      DifferentFromPassed(A, i, A1);
      DifferentFromPassed(B, j, B1);
    }
  }

  /** No cube occurs more often than before. */
  ghost predicate NoneAdded(A: seq<Cube>, B: seq<Cube>, A1: seq<Cube>, B1: seq<Cube>, E: seq<Cube>) {
    multiset(A1) + multiset(E) == multiset(A) && multiset(B1) <= multiset(B)
  }

  lemma CountMore(A: seq<Cube>, B: seq<Cube>, i: nat, j: nat, A1: seq<Cube>, B1: seq<Cube>, E: seq<Cube>)
    requires i <= |A| && j <= |B| && NoneAdded(A[..i], B[..j], A1, B1, E)
    ensures i < |A| ==> NoneAdded(A[..i + 1], B[..j], A1 + [A[i]], B1, E)
    ensures j < |B| ==> NoneAdded(A[..i], B[..j + 1], A1, B1 + [B[j]], E)
    ensures i < |A| && j < |B| ==> NoneAdded(A[..i + 1], B[..j + 1], A1, B1, E + [A[i]])
  {
    assert i < |A| ==> A[..i + 1] == A[..i] + [A[i]];
    assert j < |B| ==> B[..j + 1] == B[..j] + [B[j]];
  }

  /** The walk with the pointers at i and j. */
  ghost predicate Walking(A: seq<Cube>, B: seq<Cube>, i: nat, j: nat, A1: seq<Cube>, B1: seq<Cube>, E: seq<Cube>) {
    && i <= |A| && j <= |B|
    && Walked(A, B, i, j, A1, B1, E) && NoneAdded(A[..i], B[..j], A1, B1, E)
  }

  /** The step of the walk for the outcome of a comparison. */
  lemma WalkStep(A: seq<Cube>, B: seq<Cube>, i: nat, j: nat, A1: seq<Cube>, B1: seq<Cube>, E: seq<Cube>)
    requires Walking(A, B, i, j, A1, B1, E)
    ensures i < |A| && (j < |B| ==> Descend(A[i], B[j]) < 0) ==> Walking(A, B, i + 1, j, A1 + [A[i]], B1, E)
    ensures j < |B| && (i < |A| ==> Descend(A[i], B[j]) > 0) ==> Walking(A, B, i, j + 1, A1, B1 + [B[j]], E)
    ensures i < |A| && j < |B| && Descend(A[i], B[j]) == 0 ==> Walking(A, B, i + 1, j + 1, A1, B1, E + [A[i]])
  {
    CountMore(A, B, i, j, A1, B1, E);
    if i < |A| && (j < |B| ==> Descend(A[i], B[j]) < 0) {
      WalkLeft(A, B, i, j, A1, B1, E);
    } else if j < |B| && (i < |A| ==> Descend(A[i], B[j]) > 0) {
      WalkRight(A, B, i, j, A1, B1, E);
    } else if i < |A| {
      WalkBoth(A, B, i, j, A1, B1, E);
    }
  }

  lemma WalkEnds(A: seq<Cube>, B: seq<Cube>, A1: seq<Cube>, B1: seq<Cube>, E: seq<Cube>)
    ensures Walking(A, B, 0, 0, [], [], [])
    ensures Walking(A, B, |A|, |B|, A1, B1, E) ==>
      EqualSplit(A, B, A1, B1, E) && NoneAdded(A, B, A1, B1, E) && (BothContained(A, B) ==> AllFound(A1, B1, E))
  {
    assert A[..|A|] == A && B[..|B|] == B;
  }

  /** rm2_equal -- two pointers walk through the arrays, the one at the larger cube first. */
  method Rm2Equal(A: seq<Cube>, B: seq<Cube>) returns (A1: seq<Cube>, B1: seq<Cube>, E: seq<Cube>)
    ensures EqualSplit(A, B, A1, B1, E) && NoneAdded(A, B, A1, B1, E)
    ensures BothContained(A, B) ==> AllFound(A1, B1, E)
  {
    hide EqualSplit, NoneAdded, BothContained, AllFound, Walking, Descend;
    A1, B1, E := [], [], [];
    var i, j := 0, 0;
    WalkEnds(A, B, A1, B1, E);
    while i < |A| && j < |B|
      invariant 0 <= i <= |A| && 0 <= j <= |B| && Walking(A, B, i, j, A1, B1, E)
      decreases |A| - i + |B| - j
    {
      WalkStep(A, B, i, j, A1, B1, E);
      var order := Descend(A[i], B[j]);
      if order < 0 {
        A1, i := A1 + [A[i]], i + 1;
      } else if order == 0 {
        E, i, j := E + [A[i]], i + 1, j + 1;
      } else {
        B1, j := B1 + [B[j]], j + 1;
      }
    }
    A1, B1 := WalkRest(A, B, i, j, A1, B1, E);
    WalkEnds(A, B, A1, B1, E);
  }

  /** Finish moving down the pointers of A and B. */
  method WalkRest(A: seq<Cube>, B: seq<Cube>, i0: nat, j0: nat, A0: seq<Cube>, B0: seq<Cube>, ghost E: seq<Cube>)
    returns (A1: seq<Cube>, B1: seq<Cube>)
    requires (i0 == |A| || j0 == |B|) && Walking(A, B, i0, j0, A0, B0, E)
    ensures Walking(A, B, |A|, |B|, A1, B1, E)
  {
    var i, j := i0, j0;
    A1, B1 := A0, B0;
    while i < |A|
      invariant 0 <= i <= |A| && 0 <= j <= |B| && (i < |A| ==> j == |B|) && Walking(A, B, i, j, A1, B1, E)
    {
      WalkStep(A, B, i, j, A1, B1, E);
      A1, i := A1 + [A[i]], i + 1;
    }
    while j < |B|
      invariant i == |A| && 0 <= j <= |B| && Walking(A, B, i, j, A1, B1, E)
    {
      WalkStep(A, B, i, j, A1, B1, E);
      B1, j := B1 + [B[j]], j + 1;
    }
  }

  /** The scan of B1 for a set that contains a; it ends at the first set that is not larger. */
  method ContainedInLarger(a: Cube, B1: seq<Cube>) returns (yes: bool)
    ensures yes ==> Within(a.parts, B1)
    ensures !yes && Contained(B1) && a.size == |a.parts| ==> forall b :: b in B1 ==> !(a.parts < b.parts)
  {
    var k := 0;
    while k < |B1| && B1[k].size > a.size
      invariant 0 <= k <= |B1| && forall j :: 0 <= j < k ==> !(a.parts <= B1[j].parts)
    {
      if a.parts <= B1[k].parts {
        return true;
      }
      k := k + 1;
    }
    yes := false;
    if Contained(B1) && a.size == |a.parts| {
      NoneLarger(a, B1, k);
    }
  }

  lemma NoneLarger(a: Cube, B1: seq<Cube>, k: nat)
    requires Contained(B1) && a.size == |a.parts| && k <= |B1| && (k < |B1| ==> B1[k].size <= a.size)
    requires forall j :: 0 <= j < k ==> !(a.parts <= B1[j].parts)
    ensures forall b :: b in B1 ==> !(a.parts < b.parts)
  {
    forall b | b in B1 ensures !(a.parts < b.parts) {
      var j := Position(B1, b);
      if j >= k && a.parts < b.parts {
        assert j > k ==> Descend(B1[k], B1[j]) <= 0;
        SubsetCard(a.parts, b.parts);
      }
    }
  }

  /** rm2_contain -- the sets of A1 that were not found in a larger one of B1. */
  method Rm2Contain(A1: seq<Cube>, B1: seq<Cube>) returns (R: seq<Cube>)
    ensures (forall r :: r in R ==> r in A1) && forall c :: c in A1 ==> c in R || Within(c.parts, B1)
    ensures multiset(R) <= multiset(A1)
    ensures Contained(A1) ==> Contained(R)
    ensures BothContained(A1, B1) ==> forall r, b :: r in R && b in B1 ==> !(r.parts < b.parts)
  {
    R := [];
    for k := 0 to |A1|
      invariant (forall r :: r in R ==> r in A1[..k]) && forall c :: c in A1[..k] ==> c in R || Within(c.parts, B1)
      invariant multiset(R) <= multiset(A1[..k])
      invariant Contained(A1) ==> Contained(R)
      invariant BothContained(A1, B1) ==> forall r, b :: r in R && b in B1 ==> !(r.parts < b.parts)
    {
      var a := A1[k];
      assert A1[..k + 1] == A1[..k] + [a];
      var found := ContainedInLarger(a, B1);
      if !found {
        if Contained(A1) {
          AppendContained(A1, k, R);
        }
        R := R + [a];
      }
    }
    assert A1[..|A1|] == A1;
  }

  /** desc1 on the heads of two lists, an empty one last. */
  function Heads(p: seq<Cube>, q: seq<Cube>): int {
    if p == [] then if q == [] then 0 else 1
    else if q == [] then -1
    else Descend(p[0], q[0])
  }

  lemma HeadsAnti(p: seq<Cube>, q: seq<Cube>)
    ensures Heads(p, q) == -Heads(q, p)
  {
    if p != [] && q != [] {
      DescendAnti(p[0], q[0]);
    }
  }

  lemma HeadsTrans(p: seq<Cube>, q: seq<Cube>, r: seq<Cube>)
    requires Heads(p, q) <= 0 && Heads(q, r) <= 0
    ensures Heads(p, r) <= 0
  {
    if p != [] && q != [] && r != [] {
      DescendTrans(p[0], q[0], r[0]);
    }
  }

  /** All of R comes before all of p. */
  ghost predicate AllBefore(R: seq<Cube>, p: seq<Cube>) {
    forall x, y :: 0 <= x < |R| && 0 <= y < |p| ==> Descend(R[x], p[y]) <= 0
  }

  ghost predicate Pending(R: seq<Cube>, p: seq<Cube>) {
    Descending(p) && AllBefore(R, p)
  }

  /** The head of a list that is not behind p's comes before all of p. */
  lemma HeadFirst(q: seq<Cube>, p: seq<Cube>, R: seq<Cube>)
    requires q != [] && Heads(q, p) <= 0 && Pending(R, p)
    ensures Pending(R + [q[0]], p)
  {
    forall y | 0 <= y < |p| ensures Descend(q[0], p[y]) <= 0 {
      if y > 0 {
        DescendTrans(q[0], p[0], p[y]);
      }
    }
  }

  /** The smallest head goes to the result. */
  lemma TakeHead(pmin: seq<Cube>, pmid: seq<Cube>, pmax: seq<Cube>, R: seq<Cube>)
    requires pmin != [] && Heads(pmin, pmid) <= 0 && Heads(pmid, pmax) <= 0
    requires Descending(R) && Pending(R, pmin) && Pending(R, pmid) && Pending(R, pmax)
    ensures var R' := R + [pmin[0]];
            Descending(R') && Pending(R', pmin[1..]) && Pending(R', pmid) && Pending(R', pmax)
  {
    HeadsTrans(pmin, pmid, pmax);
    HeadFirst(pmin, pmid, R);
    HeadFirst(pmin, pmax, R);
    var R', rest := R + [pmin[0]], pmin[1..];
    forall x, y | 0 <= x < |R'| && 0 <= y < |rest| ensures Descend(R'[x], rest[y]) <= 0 {
      assert rest[y] == pmin[y + 1];
    }
  }

  /** The three lists with their heads in order. */
  method OrderHeads(A1: seq<Cube>, B1: seq<Cube>, E1: seq<Cube>)
    returns (pmin: seq<Cube>, pmid: seq<Cube>, pmax: seq<Cube>)
    ensures Heads(pmin, pmid) <= 0 && Heads(pmid, pmax) <= 0
    ensures multiset(pmin) + multiset(pmid) + multiset(pmax) == multiset(A1) + multiset(B1) + multiset(E1)
    ensures Descending(A1) && Descending(B1) && Descending(E1) ==>
      Descending(pmin) && Descending(pmid) && Descending(pmax)
  {
    pmin, pmid, pmax := A1, B1, E1;
    if Heads(pmin, pmid) > 0 {
      HeadsAnti(pmin, pmid);
      pmin, pmid := pmid, pmin;
    }
    if Heads(pmin, pmax) > 0 {
      HeadsAnti(pmin, pmax);
      HeadsTrans(pmax, pmin, pmid);
      pmin, pmax := pmax, pmin;
    }
    if Heads(pmid, pmax) > 0 {
      HeadsAnti(pmid, pmax);
      pmid, pmax := pmax, pmid;
    }
  }

  /**
   sf_merge -- three lists into one; nothing is lost whatever their order, and three sorted lists give a sorted one.
   */
  method SfMerge(A1: seq<Cube>, B1: seq<Cube>, E1: seq<Cube>) returns (R: seq<Cube>)
    ensures multiset(R) == multiset(A1) + multiset(B1) + multiset(E1)
    ensures Descending(A1) && Descending(B1) && Descending(E1) ==> Descending(R)
  {
    var pmin, pmid, pmax := OrderHeads(A1, B1, E1);
    ghost var sorted := Descending(A1) && Descending(B1) && Descending(E1);
    R := [];
    while pmin != []
      invariant Heads(pmin, pmid) <= 0 && Heads(pmid, pmax) <= 0
      invariant multiset(R) + multiset(pmin) + multiset(pmid) + multiset(pmax) == multiset(A1) + multiset(B1) +
        multiset(E1)
      invariant sorted ==> Descending(R) && Pending(R, pmin) && Pending(R, pmid) && Pending(R, pmax)
      decreases |pmin| + |pmid| + |pmax|
    {
      if sorted {
        TakeHead(pmin, pmid, pmax, R);
      }
      assert pmin == [pmin[0]] + pmin[1..];
      R, pmin := R + [pmin[0]], pmin[1..];
      if Heads(pmin, pmax) > 0 {
        HeadsAnti(pmin, pmax);
        pmin, pmid, pmax := pmid, pmax, pmin;
      } else if Heads(pmin, pmid) > 0 {
        HeadsAnti(pmin, pmid);
        pmin, pmid := pmid, pmin;
      }
    }
  }

  /** Whatever one of the removal passes of sf_union drops lies in a cube that stays. */
  lemma UnionDominates(A: seq<Cube>, B: seq<Cube>, A1: seq<Cube>, B1: seq<Cube>, A2: seq<Cube>, B2: seq<Cube>,
                       E: seq<Cube>, R: seq<Cube>)
    requires EqualSplit(A, B, A1, B1, E)
    requires (forall c :: c in A1 ==> c in A2 || Within(c.parts, B1)) &&
      forall c :: c in B1 ==> c in B2 || Within(c.parts, A2)
    requires forall c :: c in A2 || c in B2 || c in E ==> c in R
    ensures Dominates(R, A) && Dominates(R, B)
  {
    forall c | c in B1 ensures Within(c.parts, R) {
      if c !in B2 {
        var a := Container(A2, c.parts);
        assert a in R;
      }
    }
    forall c | c in A1 ensures Within(c.parts, R) {
      if c !in A2 {
        var b := Container(B1, c.parts);
        var r := Container(R, b.parts);
        assert c.parts <= r.parts;
      }
    }
    forall c | c in A || c in B ensures Within(c.parts, R) {
      if c !in A1 && c !in B1 {
        var e := WithParts(E, c.parts);
        assert e in R;
      }
    }
  }

  /**
   sf_union -- the contained union of two families.  It is an antichain in order if both families are, as its
   comment asks; but no set is lost, and none occurs more often, whatever their order.
   */
  method SfUnion(A: seq<Cube>, B: seq<Cube>) returns (R: seq<Cube>)
    ensures forall r :: r in R ==> r in A || r in B
    ensures multiset(R) <= multiset(A) + multiset(B)
    ensures Dominates(R, A) && Dominates(R, B)
    ensures BothContained(A, B) ==> Contained(R)
  {
    var A1, B1, E := Rm2Equal(A, B);
    var A2 := Rm2Contain(A1, B1);
    var B2 := Rm2Contain(B1, A2);
    R := SfMerge(A2, B2, E);
    MergedMembers(A2, B2, E, R);
    UnionDominates(A, B, A1, B1, A2, B2, E, R);
    if BothContained(A, B) {
      UnionContained(A, B, A1, B1, A2, B2, E, R);
    }
  }

  lemma MergedMembers(A2: seq<Cube>, B2: seq<Cube>, E: seq<Cube>, R: seq<Cube>)
    requires multiset(R) == multiset(A2) + multiset(B2) + multiset(E)
    ensures forall c :: c in R <==> c in A2 || c in B2 || c in E
  {
    forall c ensures c in R <==> c in A2 || c in B2 || c in E {
      assert c in multiset(R) <==> c in multiset(A2) || c in multiset(B2) || c in multiset(E);
    }
  }

  lemma AntichainMembers(A: seq<Cube>, x: Cube, y: Cube)
    requires Antichain(A) && x in A && y in A && x.parts <= y.parts
    ensures x == y
  {
    var i := Position(A, x);
    var j := Position(A, y);
    assert i == j;
  }

  /** No cube of a lies in one of b or the other way round. */
  ghost predicate Incomparable(a: seq<Cube>, b: seq<Cube>) {
    forall x, y :: x in a && y in b ==> !(x.parts <= y.parts) && !(y.parts <= x.parts)
  }

  /** What is made of two contained families: nothing in one of the three lists contains anything in another. */
  lemma UnionIncomparable(A: seq<Cube>, B: seq<Cube>, A1: seq<Cube>, B1: seq<Cube>, A2: seq<Cube>, B2: seq<Cube>,
                          E: seq<Cube>)
    requires BothContained(A, B) && EqualSplit(A, B, A1, B1, E) && AllFound(A1, B1, E)
    requires (forall r :: r in A2 ==> r in A1) && (forall r :: r in B2 ==> r in B1)
    requires forall r, b :: r in A2 && b in B1 ==> !(r.parts < b.parts)
    requires forall r, a :: r in B2 && a in A2 ==> !(r.parts < a.parts)
    ensures Incomparable(A2, B2) && Incomparable(A2, E) && Incomparable(B2, E)
  {
    forall a, b | a in A2 && b in B2 ensures !(a.parts <= b.parts) && !(b.parts <= a.parts) {
      assert a.parts != b.parts;
    }
    forall a, e | a in A2 && e in E ensures !(a.parts <= e.parts) && !(e.parts <= a.parts) {
      assert a.parts != e.parts;
      if a.parts <= e.parts { AntichainMembers(A, a, e); }
      if e.parts <= a.parts { AntichainMembers(A, e, a); }
    }
    forall b, e | b in B2 && e in E ensures !(b.parts <= e.parts) && !(e.parts <= b.parts) {
      assert b.parts != e.parts;
      var f := WithParts(B, e.parts);
      if b.parts <= f.parts { AntichainMembers(B, b, f); }
      if f.parts <= b.parts { AntichainMembers(B, f, b); }
    }
  }

  /** Three antichains that are incomparable make an antichain, in any order. */
  lemma MergedAntichain(A2: seq<Cube>, B2: seq<Cube>, E: seq<Cube>, R: seq<Cube>)
    requires multiset(R) == multiset(A2) + multiset(B2) + multiset(E)
    requires Antichain(A2) && Antichain(B2) && Antichain(E)
    requires Incomparable(A2, B2) && Incomparable(A2, E) && Incomparable(B2, E)
    ensures Antichain(R)
  {
    AntichainJoin(A2, B2);
    MergedMembers(A2, B2, [], A2 + B2);
    AntichainJoin(A2 + B2, E);
    AntichainPermuted(A2 + B2 + E, R);
  }

  lemma AntichainJoin(A: seq<Cube>, B: seq<Cube>)
    requires Antichain(A) && Antichain(B) && Incomparable(A, B)
    ensures Antichain(A + B)
  {
    var R := A + B;
    forall i, j | 0 <= i < |R| && 0 <= j < |R| && i != j ensures !(R[i].parts <= R[j].parts) {
      assert i < |A| ==> A[i] in A;
      assert j < |A| ==> A[j] in A;
      assert i >= |A| ==> B[i - |A|] in B;
      assert j >= |A| ==> B[j - |A|] in B;
    }
  }

  /** A cube counted twice is at two positions. */
  lemma {:induction false} Repeated(s: seq<Cube>, c: Cube) returns (i: nat, j: nat)
    requires multiset(s)[c] >= 2
    ensures i < j < |s| && s[i] == c && s[j] == c
  {
    var n := |s| - 1;
    assert s == s[..n] + [s[n]];
    if s[n] == c {
      assert c in multiset(s[..n]);
      i := Position(s[..n], c);
      j := n;
    } else {
      i, j := Repeated(s[..n], c);
    }
  }

  lemma Twice(t: seq<Cube>, i: nat, j: nat)
    requires i < j < |t| && t[i] == t[j]
    ensures multiset(t)[t[i]] >= 2
  {
    assert t == t[..i] + [t[i]] + t[i + 1..j] + [t[j]] + t[j + 1..];
  }

  lemma AntichainOnce(s: seq<Cube>, c: Cube)
    requires Antichain(s)
    ensures multiset(s)[c] < 2
  {
    if multiset(s)[c] >= 2 {
      var i, j := Repeated(s, c);
    }
  }

  lemma AntichainPermuted(s: seq<Cube>, t: seq<Cube>)
    requires Antichain(s) && multiset(s) == multiset(t)
    ensures Antichain(t)
  {
    forall i, j | 0 <= i < |t| && 0 <= j < |t| && i != j ensures !(t[i].parts <= t[j].parts) {
      assert t[i] in multiset(t) && t[j] in multiset(t);
      if t[i].parts <= t[j].parts {
        AntichainMembers(s, t[i], t[j]);
        Twice(t, if i < j then i else j, if i < j then j else i);
        AntichainOnce(s, t[i]);
      }
    }
  }

  lemma UnionContained(A: seq<Cube>, B: seq<Cube>, A1: seq<Cube>, B1: seq<Cube>, A2: seq<Cube>, B2: seq<Cube>,
                       E: seq<Cube>, R: seq<Cube>)
    requires BothContained(A, B) && EqualSplit(A, B, A1, B1, E) && AllFound(A1, B1, E)
    requires (forall r :: r in A2 ==> r in A1) && (forall r :: r in B2 ==> r in B1) && Contained(A2) && Contained(B2)
    requires forall r, b :: r in A2 && b in B1 ==> !(r.parts < b.parts)
    requires forall r, a :: r in B2 && a in A2 ==> !(r.parts < a.parts)
    requires multiset(R) == multiset(A2) + multiset(B2) + multiset(E) && Descending(R)
    ensures Contained(R)
  {
    UnionIncomparable(A, B, A1, B1, A2, B2, E);
    MergedAntichain(A2, B2, E, R);
    MergedMembers(A2, B2, E, R);
    forall i | 0 <= i < |R| ensures R[i].size == |R[i].parts| {
      assert R[i] in R;
    }
  }

  /** A full buffer is contained and merged into the cubes saved before. */
  method Flush(saved: seq<Cube>, buffer: seq<Cube>) returns (saved': seq<Cube>)
    ensures PartsFrom(saved', saved + buffer)
    ensures Dominates(saved', saved + buffer)
    ensures Contained(saved) ==> Contained(saved')
  {
    var contained := SfContain(buffer);
    if saved == [] {
      saved' := contained;
    } else {
      saved' := SfUnion(saved, contained);
    }
    DominatesTrans(buffer, contained, saved');
    forall a | a in saved + buffer ensures Within(a.parts, saved') {
      assert a in saved ==> Within(a.parts, saved');
      assert a in buffer ==> Within(a.parts, saved');
    }
    forall q | q in saved' ensures HasParts(saved + buffer, q.parts) {
      if q in saved {
        assert q in saved + buffer;
      } else {
        var b := WithParts(buffer, q.parts);
        assert b in saved + buffer;
      }
    }
  }

  /** Cubes collected before a flush: 500. */
  const MAGIC: nat := 500

  /** Add one set to the buffer; a full buffer is flushed. */
  method Collect(saved0: seq<Cube>, buffer0: seq<Cube>, pt: set<nat>) returns (saved: seq<Cube>, buffer: seq<Cube>)
    ensures PartsFrom(saved + buffer, saved0 + buffer0 + [MkCube(pt)])
    ensures Dominates(saved + buffer, saved0 + buffer0 + [MkCube(pt)])
    ensures Contained(saved0) ==> Contained(saved)
  {
    saved, buffer := saved0, buffer0 + [MkCube(pt)];
    assert saved + buffer == saved0 + buffer0 + [MkCube(pt)];
    DominatesSelf(saved + buffer, saved + buffer);
    if |buffer| >= MAGIC {
      saved := Flush(saved, buffer);
      buffer := [];
      assert saved + buffer == saved;
    }
  }
}
