/** compl.c: complementation and quick simplification of a cubelist. */
module Compl {
  import opened Cubes
  import opened CubeSetup
  import opened Cofactor
  import opened Recursion
  import opened Irred
  import opened Containment
  import opened SortedLists
  import opened Primes
  import opened Sets
  import U = Unate

  // ---------- what is computed ----------

  /** On the domain of the cubelist, Q holds exactly what the cubelist holds (pos), or does not hold (!pos). */
  ghost predicate Matches(cs: Shape, cubes: seq<Cube>, cof: set<nat>, pos: bool, Q: seq<Cube>) {
    forall m :: OnDom(cs, cof, m) ==> (Covered(m, Q) <==> (CoveredBy(m, cubes, cof, All) <==> pos))
  }

  /** Every domain minterm of p is wanted. */
  ghost predicate Sound(cs: Shape, cubes: seq<Cube>, cof: set<nat>, pos: bool, p: set<nat>) {
    forall m :: OnDom(cs, cof, m) && In(m, p) ==> (CoveredBy(m, cubes, cof, All) <==> pos)
  }

  ghost predicate AllSound(cs: Shape, cubes: seq<Cube>, cof: set<nat>, pos: bool, Q: seq<Cube>) {
    forall k :: 0 <= k < |Q| ==> Sound(cs, cubes, cof, pos, Q[k].parts)
  }

  /** Every wanted domain minterm lies in a cube of L, or in an active cube of R. */
  ghost predicate AllHeld(cs: Shape, cubes: seq<Cube>, cof: set<nat>, pos: bool, L: seq<Cube>, R: seq<Cube>) {
    forall m :: OnDom(cs, cof, m) && (CoveredBy(m, cubes, cof, All) <==> pos) ==> Covered(m, L) || HeldActive(m, R)
  }

  ghost predicate HeldActive(m: seq<nat>, R: seq<Cube>) {
    exists c :: c in R && c.active && In(m, c.parts)
  }

  // ---------- the merge: restriction to the halves ----------

  /** Intersect each cube with the cofactor cube and mark it active. */
  method Restrict(L: seq<Cube>, h: set<nat>) returns (r: seq<Cube>)
    ensures |r| == |L| && forall k :: 0 <= k < |L| ==> r[k].parts == L[k].parts * h && r[k].active
  {
    r := [];
    for k := 0 to |L|
      invariant |r| == k && forall j :: 0 <= j < k ==> r[j].parts == L[j].parts * h && r[j].active
    {
      r := r + [L[k].(parts := L[k].parts * h, active := true)];
    }
  }

  /** A minterm on the side of h: what the half says holds for the whole. */
  lemma HalfSays(cs: Shape, s: seq<Cube>, cof: set<nat>, v: nat, h: set<nat>, m: seq<nat>)
    requires v < cs.numVars && Half(cs, cof, v, h) && OnDom(cs, cof, m) && m[v] in h
    ensures OnDom(cs, cof + (cs.fullset - h), m)
    ensures CoveredBy(m, MeetingIn(cs, s, h, v), cof + (cs.fullset - h), All) <==> CoveredBy(m, s, cof, All)
  {
    HalfDomain(cs, cof, v, h, m);
    if CoveredBy(m, s, cof, All) {
      var c :| c in s && In(m, c.parts + cof);
      WholeToHalf(cs, s, cof, v, h, m, c);
    }
    if CoveredBy(m, MeetingIn(cs, s, h, v), cof + (cs.fullset - h), All) {
      var c :| c in MeetingIn(cs, s, h, v) && In(m, c.parts + (cof + (cs.fullset - h)));
      HalfToWhole(cs, s, cof, v, h, m, c);
    }
  }

  /** The cubes of one half, restricted to it. */
  lemma RestrictedHalf(cs: Shape, s: seq<Cube>, cof: set<nat>, v: nat, h: set<nat>, pos: bool, Q: seq<Cube>,
                       L: seq<Cube>)
    requires v < cs.numVars && Half(cs, cof, v, h)
    requires Matches(cs, MeetingIn(cs, s, h, v), cof + (cs.fullset - h), pos, Q)
    requires |L| == |Q| && forall k :: 0 <= k < |Q| ==> L[k].parts == Q[k].parts * h && L[k].active
    ensures AllSound(cs, s, cof, pos, L)
    ensures forall m :: OnDom(cs, cof, m) && m[v] in h && (CoveredBy(m, s, cof, All) <==> pos) ==> HeldActive(m, L)
  {
    forall k, m | 0 <= k < |L| && OnDom(cs, cof, m) && In(m, L[k].parts) ensures CoveredBy(m, s, cof, All) <==> pos {
      assert m[v] in L[k].parts;
      HalfSays(cs, s, cof, v, h, m);
      assert Q[k] in Q && In(m, Q[k].parts);
    }
    forall m | OnDom(cs, cof, m) && m[v] in h && (CoveredBy(m, s, cof, All) <==> pos) ensures HeldActive(m, L) {
      HalfSays(cs, s, cof, v, h, m);
      var q :| q in Q && In(m, q.parts);
      var k :| 0 <= k < |Q| && Q[k] == q;
      forall u | 0 <= u < |m| ensures m[u] in L[k].parts {
        if u != v {
          assert m[u] in cs.varMask[u] && m[u] in cs.fullset;
          assert m[u] in cs.fullset - cs.varMask[v];
        }
      }
      assert L[k] in L;
    }
  }

  // ---------- the merge: distance-1 merge ----------

  /** d1_order: compare as numbers, highest part first, with the parts of mask taken as set. */
  function D1Order(a: set<nat>, b: set<nat>, mask: set<nat>, n: nat): int {
    if n == 0 then 0
    else if n - 1 in a + mask && n - 1 !in b + mask then -1
    else if n - 1 !in a + mask && n - 1 in b + mask then 1
    else D1Order(a, b, mask, n - 1)
  }

  lemma {:induction false} D1Equal(a: set<nat>, b: set<nat>, mask: set<nat>, n: nat, i: nat)
    requires D1Order(a, b, mask, n) == 0 && i < n && i !in mask
    ensures i in a <==> i in b
  {
    if i < n - 1 {
      D1Equal(a, b, mask, n - 1, i);
    }
  }

  lemma {:induction false} D1Trans(a: set<nat>, b: set<nat>, c: set<nat>, mask: set<nat>, n: nat)
    requires D1Order(a, b, mask, n) <= 0 && D1Order(b, c, mask, n) <= 0
    ensures D1Order(a, c, mask, n) <= 0
    ensures D1Order(a, b, mask, n) < 0 || D1Order(b, c, mask, n) < 0 ==> D1Order(a, c, mask, n) < 0
  {
    if n > 0 && D1Order(a, b, mask, n) == D1Order(a, b, mask, n - 1) &&
      D1Order(b, c, mask, n) == D1Order(b, c, mask, n - 1) {
      D1Trans(a, b, c, mask, n - 1);
    }
  }

  lemma {:induction false} D1Anti(a: set<nat>, b: set<nat>, mask: set<nat>, n: nat)
    ensures D1Order(a, b, mask, n) == -D1Order(b, a, mask, n)
  {
    if n > 0 {
      D1Anti(a, b, mask, n - 1);
    }
  }

  /** a and b have the same parts outside the mask. */
  ghost predicate Agree(a: set<nat>, b: set<nat>, mask: set<nat>, n: nat) {
    forall i: nat :: i < n && i !in mask ==> (i in a <==> i in b)
  }

  lemma {:induction false} D1Agree(a: set<nat>, a': set<nat>, b: set<nat>, mask: set<nat>, n: nat)
    requires Agree(a, a', mask, n)
    ensures D1Order(a, b, mask, n) == D1Order(a', b, mask, n)
  {
    if n > 0 {
      assert n - 1 in a + mask <==> n - 1 in a' + mask;
      D1Agree(a, a', b, mask, n - 1);
    }
  }

  /** Sorted by d1_order. */
  ghost predicate D1Sorted(s: seq<Cube>, mask: set<nat>, n: nat) {
    forall i, j :: 0 <= i < j < |s| ==> D1Order(s[i].parts, s[j].parts, mask, n) <= 0
  }

  lemma InsertedD1(s: seq<Cube>, k: nat, p: Cube, mask: set<nat>, n: nat)
    requires k <= |s| && D1Sorted(s, mask, n)
    requires forall i :: 0 <= i < k ==> D1Order(s[i].parts, p.parts, mask, n) <= 0
    requires k < |s| ==> D1Order(s[k].parts, p.parts, mask, n) > 0
    ensures D1Sorted(s[..k] + [p] + s[k..], mask, n)
  {
    var r := s[..k] + [p] + s[k..];
    forall i, j | 0 <= i < j < |r| ensures D1Order(r[i].parts, r[j].parts, mask, n) <= 0 {
      if i == k {
        D1Anti(s[k].parts, p.parts, mask, n);
        assert r[j] == s[j - 1];
        if j - 1 > k {
          D1Trans(p.parts, s[k].parts, s[j - 1].parts, mask, n);
        }
      } else if j == k {
        assert r[i] == s[i];
      } else {
        assert r[i] == s[if i < k then i else i - 1] && r[j] == s[if j < k then j else j - 1];
      }
    }
  }

  /** qsort by d1_order. */
  method SortD1(cs: Shape, s: seq<Cube>, mask: set<nat>) returns (r: seq<Cube>)
    ensures multiset(r) == multiset(s) && |r| == |s| && forall c :: c in r <==> c in s
    ensures D1Sorted(r, mask, cs.size)
  {
    r := [];
    for k := 0 to |s|
      invariant |r| == k && multiset(r) == multiset(s[..k]) && D1Sorted(r, mask, cs.size)
    {
      assert s[..k + 1] == s[..k] + [s[k]];
      r := InsertD1(cs, r, s[k], mask);
    }
    assert s[..|s|] == s;
    forall c ensures c in r <==> c in s {
      assert c in multiset(r) <==> c in multiset(s);
    }
  }

  method InsertD1(cs: Shape, s: seq<Cube>, p: Cube, mask: set<nat>) returns (r: seq<Cube>)
    requires D1Sorted(s, mask, cs.size)
    ensures D1Sorted(r, mask, cs.size) && multiset(r) == multiset(s) + multiset{p} && |r| == |s| + 1
  {
    var j := 0;
    while j < |s| && D1Order(s[j].parts, p.parts, mask, cs.size) <= 0
      invariant 0 <= j <= |s|
      invariant forall i :: 0 <= i < j ==> D1Order(s[i].parts, p.parts, mask, cs.size) <= 0
    {
      j := j + 1;
    }
    InsertedD1(s, j, p, mask, cs.size);
    r := s[..j] + [p] + s[j..];
    assert s == s[..j] + s[j..];
  }

  /** The union of two cubes that agree outside variable v holds the minterms of both and no others. */
  lemma MergedPair(cs: Shape, v: nat, a: set<nat>, b: set<nat>, m: seq<nat>)
    requires v < cs.numVars && D1Order(a, b, cs.varMask[v], cs.size) == 0 && cs.Minterm(m)
    ensures In(m, a + b) <==> In(m, a) || In(m, b)
  {
    forall u | 0 <= u < |m| && u != v ensures m[u] in a <==> m[u] in b {
      assert m[u] in cs.varMask[u] && m[u] !in cs.varMask[v];
      D1Equal(a, b, cs.varMask[v], cs.size, m[u]);
    }
    assert forall p: set<nat> :: In(m, p) <==> m[v] in p && forall u :: 0 <= u < |m| && u != v ==> m[u] in p;
  }

  /** a and b are equal outside variable v. */
  ghost predicate Twins(cs: Shape, v: nat, a: set<nat>, b: set<nat>)
    requires v < cs.numVars
  {
    D1Order(a, b, cs.varMask[v], cs.size) == 0
  }

  ghost predicate HasTwin(cs: Shape, v: nat, L: seq<Cube>, b: set<nat>)
    requires v < cs.numVars
  {
    exists i :: 0 <= i < |L| && Twins(cs, v, L[i].parts, b)
  }

  /** Part x comes from a twin of a in R. */
  ghost predicate FromTwin(cs: Shape, v: nat, a: set<nat>, R: seq<Cube>, x: nat)
    requires v < cs.numVars
  {
    exists j :: 0 <= j < |R| && Twins(cs, v, a, R[j].parts) && x in R[j].parts
  }

  /** a' is a with parts of its twins in R. */
  ghost predicate Absorbs(cs: Shape, v: nat, a: Cube, R: seq<Cube>, a': Cube)
    requires v < cs.numVars
  {
    && a' == a.(parts := a'.parts) && a.parts <= a'.parts
    && Agree(a.parts, a'.parts, cs.varMask[v], cs.size)
    && forall x :: x in a'.parts ==> x in a.parts || FromTwin(cs, v, a.parts, R, x)
  }

  /** What becomes of cube b of R: with a twin in L it is absorbed there, otherwise it stays. */
  ghost predicate Absorbed(cs: Shape, v: nat, L: seq<Cube>, L': seq<Cube>, b: Cube, b': Cube)
    requires v < cs.numVars
  {
    if HasTwin(cs, v, L, b.parts) then
      b' == b.(active := false) && exists i :: 0 <= i < |L'| && b.parts <= L'[i].parts
    else b' == b
  }

  /** What the merge of the sorted arrays L and R makes of them. */
  ghost predicate D1Merged(cs: Shape, v: nat, L: seq<Cube>, R: seq<Cube>, L': seq<Cube>, R': seq<Cube>)
    requires v < cs.numVars
  {
    && |L'| == |L| && |R'| == |R|
    && (forall k :: 0 <= k < |L| ==> Absorbs(cs, v, L[k], R, L'[k]))
    && (forall k :: 0 <= k < |R| ==> Absorbed(cs, v, L, L', R[k], R'[k]))
  }

  /** Cubes before i of L come before cubes from j on of R. */
  ghost predicate Before(cs: Shape, v: nat, L: seq<Cube>, R: seq<Cube>, i: nat, j: nat)
    requires v < cs.numVars && i <= |L| && j <= |R|
  {
    forall x, y :: 0 <= x < i && j <= y < |R| ==> D1Order(L[x].parts, R[y].parts, cs.varMask[v], cs.size) < 0
  }

  lemma StepLeft(cs: Shape, v: nat, L: seq<Cube>, R: seq<Cube>, i: nat, j: nat)
    requires v < cs.numVars && i < |L| && j < |R| && Before(cs, v, L, R, i, j) && D1Sorted(R, cs.varMask[v], cs.size)
    requires D1Order(L[i].parts, R[j].parts, cs.varMask[v], cs.size) < 0
    ensures Before(cs, v, L, R, i + 1, j)
  {
    forall y | j < y < |R| ensures D1Order(L[i].parts, R[y].parts, cs.varMask[v], cs.size) < 0 {
      D1Trans(L[i].parts, R[j].parts, R[y].parts, cs.varMask[v], cs.size);
    }
  }

  /** A cube of R passed by the right pointer has no twin. */
  lemma StepRight(cs: Shape, v: nat, L: seq<Cube>, R: seq<Cube>, i: nat, j: nat)
    requires v < cs.numVars && i < |L| && j < |R| && Before(cs, v, L, R, i, j) && D1Sorted(L, cs.varMask[v], cs.size)
    requires D1Order(L[i].parts, R[j].parts, cs.varMask[v], cs.size) > 0
    ensures !HasTwin(cs, v, L, R[j].parts)
  {
    forall x | 0 <= x < |L| ensures !Twins(cs, v, L[x].parts, R[j].parts) {
      if x > i {
        D1Anti(L[i].parts, R[j].parts, cs.varMask[v], cs.size);
        D1Trans(R[j].parts, L[i].parts, L[x].parts, cs.varMask[v], cs.size);
        D1Anti(L[x].parts, R[j].parts, cs.varMask[v], cs.size);
      }
    }
  }

  /** At the end of L the rest of R has no twins. */
  lemma NoMoreTwins(cs: Shape, v: nat, L: seq<Cube>, R: seq<Cube>, j: nat, y: nat)
    requires v < cs.numVars && j <= y < |R| && Before(cs, v, L, R, |L|, j)
    ensures !HasTwin(cs, v, L, R[y].parts)
  {
  }

  /** One cube of R goes into its twin. */
  lemma AbsorbOne(cs: Shape, v: nat, a: Cube, R: seq<Cube>, a': Cube, j: nat)
    requires v < cs.numVars && j < |R| && Absorbs(cs, v, a, R, a') && Twins(cs, v, a.parts, R[j].parts)
    ensures Absorbs(cs, v, a, R, a'.(parts := a'.parts + R[j].parts))
  {
    forall i: nat | i < cs.size && i !in cs.varMask[v] ensures i in a.parts <==> i in a'.parts + R[j].parts {
      D1Equal(a.parts, R[j].parts, cs.varMask[v], cs.size, i);
    }
    forall x | x in a'.parts + R[j].parts ensures x in a.parts || FromTwin(cs, v, a.parts, R, x) {
    }
  }

  lemma AbsorbsNothing(cs: Shape, v: nat, L: seq<Cube>, R: seq<Cube>)
    requires v < cs.numVars
    ensures Before(cs, v, L, R, 0, 0) && forall k :: 0 <= k < |L| ==> Absorbs(cs, v, L[k], R, L[k])
  {
  }

  lemma BeforeFewer(cs: Shape, v: nat, L: seq<Cube>, R: seq<Cube>, i: nat, j: nat)
    requires v < cs.numVars && i <= |L| && j < |R| && Before(cs, v, L, R, i, j)
    ensures Before(cs, v, L, R, i, j + 1)
  {
  }

  lemma LeftAlone(cs: Shape, v: nat, L: seq<Cube>, L': seq<Cube>, b: Cube)
    requires v < cs.numVars && !HasTwin(cs, v, L, b.parts)
    ensures Absorbed(cs, v, L, L', b, b)
  {
  }

  /** The cube of R goes into its twin. */
  lemma TwinAbsorbed(cs: Shape, v: nat, L: seq<Cube>, L': seq<Cube>, b: Cube, i: nat)
    requires v < cs.numVars && i < |L| == |L'| && Twins(cs, v, L[i].parts, b.parts) && b.parts <= L'[i].parts
    ensures Absorbed(cs, v, L, L', b, b.(active := false))
  {
  }

  lemma SameOrder(cs: Shape, v: nat, a: Cube, R: seq<Cube>, a': Cube, b: set<nat>)
    requires v < cs.numVars && Absorbs(cs, v, a, R, a')
    ensures D1Order(a'.parts, b, cs.varMask[v], cs.size) == D1Order(a.parts, b, cs.varMask[v], cs.size)
  {
    D1Agree(a.parts, a'.parts, b, cs.varMask[v], cs.size);
  }

  /** compl_d1merge -- two pointers over the sorted arrays. */
  method D1Merge(cs: Shape, v: nat, L: seq<Cube>, R: seq<Cube>) returns (L': seq<Cube>, R': seq<Cube>)
    requires v < cs.numVars && D1Sorted(L, cs.varMask[v], cs.size) && D1Sorted(R, cs.varMask[v], cs.size)
    ensures D1Merged(cs, v, L, R, L', R')
  {
    hide Absorbs, Absorbed, Before, HasTwin, D1Sorted;
    L', R' := L, R;
    var i, j := 0, 0;
    AbsorbsNothing(cs, v, L, R);
    while i < |L| && j < |R|
      invariant 0 <= i <= |L| && 0 <= j <= |R| && |L'| == |L| && |R'| == |R|
      invariant Before(cs, v, L, R, i, j)
      invariant forall k :: 0 <= k < |L| ==> Absorbs(cs, v, L[k], R, L'[k])
      invariant forall k :: 0 <= k < j ==> Absorbed(cs, v, L, L', R[k], R'[k])
      invariant forall k :: j <= k < |R| ==> R'[k] == R[k]
      decreases |L| - i + |R| - j
    {
      var order := D1Order(L'[i].parts, R'[j].parts, cs.varMask[v], cs.size);
      SameOrder(cs, v, L[i], R, L'[i], R[j].parts);
      BeforeFewer(cs, v, L, R, i, j);
      if order > 0 {
        StepRight(cs, v, L, R, i, j);
        LeftAlone(cs, v, L, L', R[j]);
        j := j + 1;
      } else if order < 0 {
        StepLeft(cs, v, L, R, i, j);
        i := i + 1;
      } else {
        ghost var L0 := L';
        R' := R'[j := R'[j].(active := false)];
        L' := L'[i := L'[i].(parts := L'[i].parts + R'[j].parts)];
        AbsorbOne(cs, v, L[i], R, L0[i], j);
        StillAbsorbed(cs, v, L, R, R', L0, L', j);
        TwinAbsorbed(cs, v, L, L', R[j], i);
        j := j + 1;
      }
    }
    forall k | j <= k < |R| ensures Absorbed(cs, v, L, L', R[k], R'[k]) {
      NoMoreTwins(cs, v, L, R, j, k);
      LeftAlone(cs, v, L, L', R[k]);
    }
  }

  /** Cubes absorbed stay absorbed when L grows. */
  lemma StillAbsorbed(cs: Shape, v: nat, L: seq<Cube>, R: seq<Cube>, R': seq<Cube>, L0: seq<Cube>, L': seq<Cube>,
                      j: nat)
    requires v < cs.numVars && j <= |R| == |R'| && |L'| == |L0|
    requires forall k :: 0 <= k < |L0| ==> L0[k].parts <= L'[k].parts
    requires forall k :: 0 <= k < j ==> Absorbed(cs, v, L, L0, R[k], R'[k])
    ensures forall k :: 0 <= k < j ==> Absorbed(cs, v, L, L', R[k], R'[k])
  {
    forall k | 0 <= k < j ensures Absorbed(cs, v, L, L', R[k], R'[k]) {
      if HasTwin(cs, v, L, R[k].parts) {
        var x :| 0 <= x < |L0| && R[k].parts <= L0[x].parts;
        assert R[k].parts <= L'[x].parts;
      }
    }
  }

  /** The merge adds only wanted minterms and loses none. */
  lemma D1MergeSound(cs: Shape, s: seq<Cube>, cof: set<nat>, pos: bool, v: nat, L: seq<Cube>, R: seq<Cube>,
                     L': seq<Cube>, R': seq<Cube>)
    requires v < cs.numVars && D1Merged(cs, v, L, R, L', R')
    requires AllSound(cs, s, cof, pos, L) && AllSound(cs, s, cof, pos, R) && AllHeld(cs, s, cof, pos, L, R)
    ensures AllSound(cs, s, cof, pos, L') && AllSound(cs, s, cof, pos, R') && AllHeld(cs, s, cof, pos, L', R')
  {
    forall k, m | 0 <= k < |L'| && OnDom(cs, cof, m) && In(m, L'[k].parts) ensures CoveredBy(m, s, cof, All) <==> pos {
      AbsorbedMinterm(cs, v, L[k], R, L'[k], m);
      if In(m, L[k].parts) {
        assert Sound(cs, s, cof, pos, L[k].parts);
      } else {
        var j :| 0 <= j < |R| && In(m, R[j].parts);
        assert Sound(cs, s, cof, pos, R[j].parts);
      }
    }
    forall k | 0 <= k < |R'| ensures Sound(cs, s, cof, pos, R'[k].parts) {
      assert Absorbed(cs, v, L, L', R[k], R'[k]);
      assert Sound(cs, s, cof, pos, R[k].parts);
    }
    forall m | OnDom(cs, cof, m) && (CoveredBy(m, s, cof, All) <==> pos) ensures Covered(m, L') || HeldActive(m, R') {
      if Covered(m, L) {
        var c :| c in L && In(m, c.parts);
        var k :| 0 <= k < |L| && L[k] == c;
        assert Absorbs(cs, v, L[k], R, L'[k]) && L'[k] in L' && In(m, L'[k].parts);
      } else {
        var c :| c in R && c.active && In(m, c.parts);
        var k :| 0 <= k < |R| && R[k] == c;
        assert Absorbed(cs, v, L, L', R[k], R'[k]);
        if HasTwin(cs, v, L, c.parts) {
          var x :| 0 <= x < |L'| && c.parts <= L'[x].parts;
          assert L'[x] in L' && In(m, L'[x].parts);
        } else {
          assert R'[k] in R';
        }
      }
    }
  }

  /** A minterm of a merged cube lies in the cube or in one of its twins. */
  lemma AbsorbedMinterm(cs: Shape, v: nat, a: Cube, R: seq<Cube>, a': Cube, m: seq<nat>)
    requires v < cs.numVars && Absorbs(cs, v, a, R, a') && cs.Minterm(m) && In(m, a'.parts)
    ensures In(m, a.parts) || exists j :: 0 <= j < |R| && In(m, R[j].parts)
  {
    forall u | 0 <= u < |m| && u != v ensures m[u] in a.parts {
      assert m[u] in cs.varMask[u] && m[u] !in cs.varMask[v];
    }
    if m[v] in a.parts {
      assert forall u :: 0 <= u < |m| ==> m[u] in a.parts;
    } else {
      var j :| 0 <= j < |R| && Twins(cs, v, a.parts, R[j].parts) && m[v] in R[j].parts;
      forall u | 0 <= u < |m| ensures m[u] in R[j].parts {
        if u != v {
          assert m[u] in cs.varMask[u] && m[u] !in cs.varMask[v];
          D1Equal(a.parts, R[j].parts, cs.varMask[v], cs.size, m[u]);
        }
      }
    }
  }

  // ---------- the merge: lifting ----------

  /** L' is L with sound growth. */
  ghost predicate Lifted(cs: Shape, s: seq<Cube>, cof: set<nat>, pos: bool, L: seq<Cube>, L': seq<Cube>) {
    && |L'| == |L| && AllSound(cs, s, cof, pos, L')
    && forall k :: 0 <= k < |L| ==> L[k].parts <= L'[k].parts <= L[k].parts + cs.fullset && L'[k].active == L[k].active
  }

  lemma LiftedHeld(cs: Shape, s: seq<Cube>, cof: set<nat>, pos: bool, L: seq<Cube>, R: seq<Cube>, L': seq<Cube>,
                   R': seq<Cube>)
    requires AllHeld(cs, s, cof, pos, L, R) && Lifted(cs, s, cof, pos, L, L') && Lifted(cs, s, cof, pos, R, R')
    ensures AllHeld(cs, s, cof, pos, L', R')
  {
    forall m | OnDom(cs, cof, m) && (CoveredBy(m, s, cof, All) <==> pos) ensures Covered(m, L') || HeldActive(m, R') {
      if Covered(m, L) {
        var c :| c in L && In(m, c.parts);
        var k :| 0 <= k < |L| && L[k] == c;
        assert L'[k] in L' && In(m, L'[k].parts);
      } else {
        var c :| c in R && c.active && In(m, c.parts);
        var k :| 0 <= k < |R| && R[k] == c;
        assert R'[k] in R' && In(m, R'[k].parts);
      }
    }
  }

  /** A cube of the other branch contains the lift, so the parts of bcube may be raised. */
  lemma LiftSound(cs: Shape, s: seq<Cube>, cof: set<nat>, pos: bool, v: nat, a: set<nat>, b: set<nat>, bcube: set<nat>)
    requires v < cs.numVars && Sound(cs, s, cof, pos, a) && Sound(cs, s, cof, pos, b)
    requires bcube * cs.varMask[v] + (a - cs.varMask[v]) <= b
    ensures Sound(cs, s, cof, pos, a + bcube * cs.varMask[v])
  {
    var mask := cs.varMask[v];
    forall m | OnDom(cs, cof, m) && In(m, a + bcube * mask) ensures CoveredBy(m, s, cof, All) <==> pos {
      forall u | 0 <= u < |m| && u != v ensures m[u] in a && m[u] !in mask {
        assert m[u] in cs.varMask[u];
      }
      if m[v] in a {
        assert In(m, a);
      } else {
        assert m[v] in bcube * mask;
        assert In(m, b);
      }
    }
  }

  /** compl_lift -- A1 against the other branch B1. */
  method ComplLift(cs: Shape, ghost s: seq<Cube>, ghost cof: set<nat>, ghost pos: bool, A1: seq<Cube>, B1: seq<Cube>,
                   bcube: set<nat>, v: nat) returns (r: seq<Cube>)
    requires v < cs.numVars && AllSound(cs, s, cof, pos, A1) && AllSound(cs, s, cof, pos, B1)
    ensures Lifted(cs, s, cof, pos, A1, r)
  {
    var mask := cs.varMask[v];
    var liftor := bcube * mask;
    r := A1;
    for k := 0 to |A1|
      invariant Lifted(cs, s, cof, pos, A1, r)
      invariant forall j :: k <= j < |A1| ==> r[j] == A1[j]
    {
      var a := A1[k];
      if a.active {
        var lift := bcube * mask + (a.parts - mask);
        if j :| 0 <= j < |B1| && lift <= B1[j].parts {
          assert Sound(cs, s, cof, pos, A1[k].parts) && Sound(cs, s, cof, pos, B1[j].parts);
          LiftSound(cs, s, cof, pos, v, a.parts, B1[j].parts, bcube);
          r := r[k := a.(parts := a.parts + liftor)];
        }
      }
    }
  }

  /** A lift that meets no cube of the ON-set holds none of its minterms. */
  lemma OnsetLiftSound(cs: Shape, s: seq<Cube>, cof: set<nat>, lift: set<nat>)
    requires forall k :: 0 <= k < |s| ==> !Distance0(cs, s[k].parts + cof, lift)
    ensures Sound(cs, s, cof, false, lift)
  {
    forall m | OnDom(cs, cof, m) && In(m, lift) ensures !CoveredBy(m, s, cof, All) {
      forall c | c in s ensures !In(m, c.parts + cof) {
        var k :| 0 <= k < |s| && s[k] == c;
        var v :| 0 <= v < cs.numVars && (s[k].parts + cof) * lift * cs.varMask[v] == {};
        assert m[v] in cs.varMask[v] && m[v] in lift;
        assert m[v] !in (s[k].parts + cof) * lift * cs.varMask[v];
      }
    }
  }

  /** compl_lift_onset -- A1 against the ON-set T (complementation only). */
  method ComplLiftOnset(cs: Shape, ghost s: seq<Cube>, ghost cof: set<nat>, A1: seq<Cube>, T: seq<Cube>,
                        bcube: set<nat>, v: nat)
    returns (r: seq<Cube>)
    requires v < cs.numVars && AllSound(cs, s, cof, false, A1)
    requires |T| == |s| && forall k :: 0 <= k < |T| ==> T[k].parts == s[k].parts + cof
    ensures Lifted(cs, s, cof, false, A1, r)
  {
    r := A1;
    for k := 0 to |A1|
      invariant Lifted(cs, s, cof, false, A1, r)
      invariant forall j :: k <= j < |A1| ==> r[j] == A1[j]
    {
      var a := A1[k];
      if a.active {
        var lift := a.parts + bcube * cs.varMask[v];
        if forall j :: 0 <= j < |T| ==> !Distance0(cs, T[j].parts, lift) {
          OnsetLiftSound(cs, s, cof, lift);
          r := r[k := a.(parts := lift, active := true)];
        }
      }
    }
  }

  datatype Lifting = UseComplLift | UseComplLiftOnset

  /** The active cubes of R. */
  method TakeActive(R: seq<Cube>) returns (r: seq<Cube>)
    ensures forall c :: c in r <==> c in R && c.active
  {
    r := [];
    for k := 0 to |R|
      invariant forall c :: c in r <==> c in R[..k] && c.active
    {
      assert R[..k + 1] == R[..k] + [R[k]];
      if R[k].active {
        r := r + [R[k]];
      }
    }
    assert R[..|R|] == R;
  }

  lemma MergeMatches(cs: Shape, s: seq<Cube>, cof: set<nat>, pos: bool, L: seq<Cube>, R: seq<Cube>, A: seq<Cube>)
    requires AllSound(cs, s, cof, pos, L) && AllSound(cs, s, cof, pos, R) && AllHeld(cs, s, cof, pos, L, R)
    requires forall c :: c in A <==> c in R && c.active
    ensures Matches(cs, s, cof, pos, L + A)
  {
    forall m | OnDom(cs, cof, m) ensures Covered(m, L + A) <==> (CoveredBy(m, s, cof, All) <==> pos) {
      if Covered(m, L + A) {
        var c :| c in L + A && In(m, c.parts);
        if c in L {
          var k :| 0 <= k < |L| && L[k] == c;
          assert Sound(cs, s, cof, pos, L[k].parts);
        } else {
          assert c in A;
          var k :| 0 <= k < |R| && R[k] == c;
          assert Sound(cs, s, cof, pos, R[k].parts);
        }
      }
      if CoveredBy(m, s, cof, All) <==> pos {
        if Covered(m, L) {
          var c :| c in L && In(m, c.parts);
          assert c in L + A;
        } else {
          var c :| c in R && c.active && In(m, c.parts);
          assert c in A && c in L + A;
        }
      }
    }
  }

  lemma SortedSound(cs: Shape, s: seq<Cube>, cof: set<nat>, pos: bool, v: nat, cl: set<nat>, cr: set<nat>,
                    L: seq<Cube>, R: seq<Cube>, L1: seq<Cube>, R1: seq<Cube>)
    requires v < cs.numVars && SplitCubes(cs, cof, v, cl, cr)
    requires AllSound(cs, s, cof, pos, L) && AllSound(cs, s, cof, pos, R)
    requires forall m :: OnDom(cs, cof, m) && m[v] in cl && (CoveredBy(m, s, cof, All) <==> pos) ==> HeldActive(m, L)
    requires forall m :: OnDom(cs, cof, m) && m[v] in cr && (CoveredBy(m, s, cof, All) <==> pos) ==> HeldActive(m, R)
    requires (forall c :: c in L1 <==> c in L) && (forall c :: c in R1 <==> c in R)
    ensures AllSound(cs, s, cof, pos, L1) && AllSound(cs, s, cof, pos, R1) && AllHeld(cs, s, cof, pos, L1, R1)
  {
    forall k | 0 <= k < |L1| ensures Sound(cs, s, cof, pos, L1[k].parts) {
      assert L1[k] in L;
      var j :| 0 <= j < |L| && L[j] == L1[k];
      assert Sound(cs, s, cof, pos, L[j].parts);
    }
    forall k | 0 <= k < |R1| ensures Sound(cs, s, cof, pos, R1[k].parts) {
      assert R1[k] in R;
      var j :| 0 <= j < |R| && R[j] == R1[k];
      assert Sound(cs, s, cof, pos, R[j].parts);
    }
    forall m | OnDom(cs, cof, m) && (CoveredBy(m, s, cof, All) <==> pos) ensures Covered(m, L1) || HeldActive(m, R1) {
      assert m[v] in cs.varMask[v];
      if m[v] in cl {
        assert HeldActive(m, L);
        var c :| c in L && c.active && In(m, c.parts);
        assert c in L1;
      } else {
        assert HeldActive(m, R);
        var c :| c in R && c.active && In(m, c.parts);
        assert c in R1;
      }
    }
  }

  /** Both halves have a part of their domain in every variable. */
  ghost predicate HalvesInDomain(cs: Shape, cof: set<nat>, L: seq<Cube>, R: seq<Cube>, cl: set<nat>, cr: set<nat>) {
    InDomain(cs, L, cof + (cs.fullset - cl)) && InDomain(cs, R, cof + (cs.fullset - cr))
  }

  /** Cut down to its half, a cube keeps a part of the domain in every variable. */
  lemma RestrictedInDomain(cs: Shape, cof: set<nat>, h: set<nat>, Q: seq<Cube>, L: seq<Cube>)
    requires InDomain(cs, Q, cof + (cs.fullset - h))
    requires |L| == |Q| && forall k :: 0 <= k < |Q| ==> L[k].parts == Q[k].parts * h
    ensures InDomain(cs, L, cof)
  {
    forall c, v | c in L && 0 <= v < cs.numVars ensures (c.parts - cof) * cs.varMask[v] != {} {
      var k :| 0 <= k < |L| && L[k] == c;
      assert Q[k] in Q;
      var i :| i in (Q[k].parts - (cof + (cs.fullset - h))) * cs.varMask[v];
      assert i in cs.fullset;
      assert i in (c.parts - cof) * cs.varMask[v];
    }
  }

  /** Larger cubes keep it too. */
  lemma GrownInDomain(cs: Shape, cof: set<nat>, L: seq<Cube>, L': seq<Cube>)
    requires InDomain(cs, L, cof) && |L'| == |L| && forall k :: 0 <= k < |L| ==> L[k].parts <= L'[k].parts <= cs.fullset
    ensures InDomain(cs, L', cof)
  {
    forall c, v | c in L' && 0 <= v < cs.numVars ensures (c.parts - cof) * cs.varMask[v] != {} {
      var k :| 0 <= k < |L'| && L'[k] == c;
      assert L[k] in L;
      var i :| i in (L[k].parts - cof) * cs.varMask[v];
      assert i in (c.parts - cof) * cs.varMask[v];
    }
  }

  /** The distance-1 merge only lets cubes grow. */
  lemma MergedGrown(cs: Shape, v: nat, L: seq<Cube>, R: seq<Cube>, L': seq<Cube>, R': seq<Cube>)
    requires v < cs.numVars && D1Merged(cs, v, L, R, L', R')
    ensures forall k :: 0 <= k < |L| ==> L[k].parts <= L'[k].parts
    ensures forall k :: 0 <= k < |R| ==> R[k].parts <= R'[k].parts
  {
    forall k | 0 <= k < |L| ensures L[k].parts <= L'[k].parts {
      assert Absorbs(cs, v, L[k], R, L'[k]);
    }
    forall k | 0 <= k < |R| ensures R[k].parts <= R'[k].parts {
      assert Absorbed(cs, v, L, L', R[k], R'[k]);
    }
  }

  /** Restriction, sorting and merging keep it. */
  lemma PreparedInDomain(cs: Shape, cof: set<nat>, v: nat, L: seq<Cube>, R: seq<Cube>, cl: set<nat>, cr: set<nat>,
                         L0: seq<Cube>, R0: seq<Cube>, Ls: seq<Cube>, Rs: seq<Cube>, L1: seq<Cube>, R1: seq<Cube>)
    requires v < cs.numVars && HalvesInDomain(cs, cof, L, R, cl, cr)
    requires |L0| == |L| && forall k :: 0 <= k < |L| ==> L0[k].parts == L[k].parts * cl
    requires |R0| == |R| && forall k :: 0 <= k < |R| ==> R0[k].parts == R[k].parts * cr
    requires (forall c :: c in Ls <==> c in L0) && (forall c :: c in Rs <==> c in R0)
    requires D1Merged(cs, v, Ls, Rs, L1, R1)
    ensures InDomain(cs, L1, cof) && InDomain(cs, R1, cof)
  {
    RestrictedInDomain(cs, cof, cl, L, L0);
    RestrictedInDomain(cs, cof, cr, R, R0);
    MergedGrown(cs, v, Ls, Rs, L1, R1);
    GrownInDomain(cs, cof, Ls, L1);
    GrownInDomain(cs, cof, Rs, R1);
  }

  /** Restriction, sorting and distance-1 merge of the two halves. */
  method PrepareMerge(cs: Shape, ghost s: seq<Cube>, ghost cof: set<nat>, ghost pos: bool, L: seq<Cube>, R: seq<Cube>,
                      cl: set<nat>, cr: set<nat>, v: nat) returns (L1: seq<Cube>, R1: seq<Cube>)
    requires v < cs.numVars && SplitCubes(cs, cof, v, cl, cr) && Half(cs, cof, v, cl) && Half(cs, cof, v, cr)
    requires Matches(cs, MeetingIn(cs, s, cl, v), cof + (cs.fullset - cl), pos, L)
    requires Matches(cs, MeetingIn(cs, s, cr, v), cof + (cs.fullset - cr), pos, R)
    ensures AllSound(cs, s, cof, pos, L1) && AllSound(cs, s, cof, pos, R1) && AllHeld(cs, s, cof, pos, L1, R1)
    ensures HalvesInDomain(cs, cof, L, R, cl, cr) ==> InDomain(cs, L1, cof) && InDomain(cs, R1, cof)
  {
    var L0 := Restrict(L, cl);
    var R0 := Restrict(R, cr);
    RestrictedHalf(cs, s, cof, v, cl, pos, L, L0);
    RestrictedHalf(cs, s, cof, v, cr, pos, R, R0);
    L1 := SortD1(cs, L0, cs.varMask[v]);
    R1 := SortD1(cs, R0, cs.varMask[v]);
    SortedSound(cs, s, cof, pos, v, cl, cr, L0, R0, L1, R1);
    ghost var Ls, Rs := L1, R1;
    L1, R1 := D1Merge(cs, v, L1, R1);
    D1MergeSound(cs, s, cof, pos, v, Ls, Rs, L1, R1);
    if HalvesInDomain(cs, cof, L, R, cl, cr) {
      PreparedInDomain(cs, cof, v, L, R, cl, cr, L0, R0, Ls, Rs, L1, R1);
    }
  }

  /** compl_merge -- pos tells what the halves hold; lifting against the ON-set is for complements. */
  method ComplMerge(cs: Shape, T: CubeList, L: seq<Cube>, R: seq<Cube>, cl: set<nat>, cr: set<nat>, v: nat,
                    lifting: Lifting, ghost pos: bool) returns (Tbar: seq<Cube>)
    requires v < cs.numVars && SplitCubes(cs, T.cof, v, cl, cr) && Half(cs, T.cof, v, cl) && Half(cs, T.cof, v, cr)
    requires Matches(cs, MeetingIn(cs, T.cubes, cl, v), T.cof + (cs.fullset - cl), pos, L)
    requires Matches(cs, MeetingIn(cs, T.cubes, cr, v), T.cof + (cs.fullset - cr), pos, R)
    requires lifting == UseComplLiftOnset ==> !pos
    ensures Matches(cs, T.cubes, T.cof, pos, Tbar)
    ensures HalvesInDomain(cs, T.cof, L, R, cl, cr) ==> InDomain(cs, Tbar, T.cof)
  {
    ghost var s, cof := T.cubes, T.cof;
    var L1, R1 := PrepareMerge(cs, s, cof, pos, L, R, cl, cr, v);
    var L2, R2;
    match lifting {
      case UseComplLiftOnset =>
        var onset := CubeUnlist(T);
        L2 := ComplLiftOnset(cs, s, cof, L1, onset, cr, v);
        R2 := ComplLiftOnset(cs, s, cof, R1, onset, cl, v);
      case UseComplLift =>
        L2 := ComplLift(cs, s, cof, pos, L1, R1, cr, v);
        R2 := ComplLift(cs, s, cof, pos, R1, L2, cl, v);
    }
    LiftedHeld(cs, s, cof, pos, L1, R1, L2, R2);
    var A := TakeActive(R2);
    MergeMatches(cs, s, cof, pos, L2, R2, A);
    Tbar := L2 + A;
    if HalvesInDomain(cs, cof, L, R, cl, cr) {
      forall c | c in L1 || c in R1 ensures c.parts + cs.fullset == cs.fullset {
      }
      GrownInDomain(cs, cof, L1, L2);
      GrownInDomain(cs, cof, R1, R2);
    }
  }

  // ---------- leaves ----------

  /** compl_cube -- De Morgan: the complement of a single cube. */
  method ComplCube(cs: Shape, p: set<nat>) returns (R: seq<Cube>)
    ensures forall m :: cs.Minterm(m) ==> (Covered(m, R) <==> !In(m, p))
  {
    var diff := cs.fullset - p;
    R := [];
    for v := 0 to cs.numVars
      invariant forall m :: cs.Minterm(m) ==> (Covered(m, R) <==> exists u :: 0 <= u < v && m[u] !in p)
    {
      var mask := cs.varMask[v];
      ghost var R0 := R;
      if diff * mask != {} {
        R := R + [MkCube(diff * mask + (cs.fullset - mask))];
      }
      forall m | cs.Minterm(m) ensures Covered(m, R) <==> exists u :: 0 <= u < v + 1 && m[u] !in p {
        ComplPart(cs, p, v, m, R0, R);
      }
    }
  }

  lemma ComplPart(cs: Shape, p: set<nat>, v: nat, m: seq<nat>, R0: seq<Cube>, R: seq<Cube>)
    requires v < cs.numVars && cs.Minterm(m)
    requires var d := (cs.fullset - p) * cs.varMask[v];
             R == R0 + if d != {} then [MkCube(d + (cs.fullset - cs.varMask[v]))] else []
    ensures Covered(m, R) <==> Covered(m, R0) || m[v] !in p
  {
    var d := (cs.fullset - p) * cs.varMask[v];
    var q := d + (cs.fullset - cs.varMask[v]);
    assert In(m, q) <==> m[v] !in p by {
      forall u | 0 <= u < |m| ensures m[u] in cs.fullset && (u != v ==> m[u] !in cs.varMask[v]) {
        assert m[u] in cs.varMask[u];
      }
      assert m[v] in cs.varMask[v];
    }
    if m[v] !in p {
      assert m[v] in d by { assert m[v] in cs.varMask[v]; }
      assert MkCube(q) in R;
    }
    if Covered(m, R0) {
      var c :| c in R0 && In(m, c.parts);
      assert c in R;
    }
    if Covered(m, R) && !Covered(m, R0) {
      var c :| c in R && In(m, c.parts);
      assert c == MkCube(q);
    }
  }

  /** The unate variables, in order. */
  method UnateList(cs: Shape, cd: CData) returns (unate: seq<nat>)
    requires |cd.isUnate| == cs.numVars
    ensures Sorted(unate) && forall v :: v in unate <==> 0 <= v < cs.numVars && cd.isUnate[v]
  {
    unate := [];
    for v := 0 to cs.numVars
      invariant Sorted(unate) && forall u :: u in unate <==> 0 <= u < v && cd.isUnate[u]
      invariant forall j :: 0 <= j < |unate| ==> unate[j] < v
    {
      if cd.isUnate[v] {
        unate := unate + [v];
      }
    }
  }

  /** The columns that hold zeros, in order. */
  method ZeroColumns(cs: Shape, cd: CData) returns (cols: seq<nat>)
    requires |cd.partZeros| == cs.size
    ensures Sorted(cols) && forall i :: i in cols <==> 0 <= i < cs.size && cd.partZeros[i] > 0
  {
    cols := [];
    for i := 0 to cs.size
      invariant Sorted(cols) && forall j :: j in cols <==> 0 <= j < i && cd.partZeros[j] > 0
      invariant forall j :: 0 <= j < |cols| ==> cols[j] < i
    {
      if cd.partZeros[i] > 0 {
        cols := cols + [i];
      }
    }
  }

  /** Column j of the unate matrix belongs to the j-th unate variable. */
  lemma ColumnsOfUnate(cs: Shape, s: seq<Cube>, cof: set<nat>, cd: CData, unate: seq<nat>, cols: seq<nat>)
    requires InOrder(cs) && CountsOf(cs, s, cof, cd) && cd.varsUnate == cd.varsActive
    requires Sorted(unate) && forall v :: v in unate <==> 0 <= v < cs.numVars && cd.isUnate[v]
    requires Sorted(cols) && forall i :: i in cols <==> 0 <= i < cs.size && cd.partZeros[i] > 0
    ensures |cols| == |unate|
    ensures forall j :: 0 <= j < |cols| ==>
      unate[j] < cs.numVars && cd.isUnate[unate[j]] && cols[j] == UnatePart(cs, s, cof, cd, unate[j])
  {
    forall j | 0 <= j < |unate| ensures unate[j] < cs.numVars && cd.isUnate[unate[j]] {
      assert unate[j] in unate;
    }
    var z: seq<nat> := seq(|unate|, j requires 0 <= j < |unate| => UnatePart(cs, s, cof, cd, unate[j]));
    forall i, j | 0 <= i < j < |z| ensures z[i] < z[j] {
      assert unate[i] < unate[j];
      assert z[i] in cs.varMask[unate[i]] && z[j] in cs.varMask[unate[j]];
    }
    UnatePartsListed(cs, s, cof, cd, unate, cols, z);
    SortedUnique(z, cols);
  }

  lemma UnatePartsListed(cs: Shape, s: seq<Cube>, cof: set<nat>, cd: CData, unate: seq<nat>, cols: seq<nat>,
                         z: seq<nat>)
    requires CountsOf(cs, s, cof, cd) && cd.varsUnate == cd.varsActive && |z| == |unate|
    requires forall v :: v in unate <==> 0 <= v < cs.numVars && cd.isUnate[v]
    requires forall i :: i in cols <==> 0 <= i < cs.size && cd.partZeros[i] > 0
    requires forall j :: 0 <= j < |z| ==>
      unate[j] < cs.numVars && cd.isUnate[unate[j]] && z[j] == UnatePart(cs, s, cof, cd, unate[j])
    ensures Elems(z) == Elems(cols)
  {
    forall i | i in Elems(z) ensures i in Elems(cols) {
      var j :| 0 <= j < |z| && z[j] == i;
      assert z[j] in cs.varMask[unate[j]];
      assert i in cols;
    }
    forall i | i in Elems(cols) ensures i in Elems(z) {
      var v := cs.partVar[i];
      assert i in cols && i in cs.varMask[v];
      UnateFunction(cs, s, cof, cd, v);
      if cd.partsActive[v] == 0 {
        NoActivePart(cs, cd, s, cof, v, i);
      }
      assert v in unate;
      var j :| 0 <= j < |unate| && unate[j] == v;
      assert z[j] == i;
    }
  }

  /** The columns that a cube lacks. */
  function UnateRow(cols: seq<nat>, p: set<nat>): (r: set<nat>)
    ensures forall j: nat :: j in r <==> j < |cols| && cols[j] !in p
  {
    set j: nat | j < |cols| && cols[j] !in p
  }

  ghost predicate UnateMatrix(s: seq<Cube>, cols: seq<nat>, A: seq<set<nat>>) {
    |A| == |s| && forall k :: 0 <= k < |s| ==> A[k] == UnateRow(cols, s[k].parts)
  }

  /** map_cover_to_unate */
  method MapCoverToUnate(T: CubeList, cols: seq<nat>) returns (A: seq<set<nat>>)
    ensures UnateMatrix(T.cubes, cols, A) && U.Columns(A, |cols|)
  {
    A := [];
    for k := 0 to |T.cubes|
      invariant |A| == k && forall i :: 0 <= i < k ==> A[i] == UnateRow(cols, T.cubes[i].parts)
    {
      A := A + [UnateRow(cols, T.cubes[k].parts)];
    }
  }

  /** Part i goes: set p has one of the first n unate variables, i is a part of it, and not the unate one. */
  ghost predicate Emptied(cs: Shape, cd: CData, unate: seq<nat>, p: set<nat>, n: nat, i: nat)
    requires i in cs.fullset && |cd.partZeros| == cs.size && n <= |unate|
  {
    cd.partZeros[i] == 0 && exists j: nat :: j in p && j < n && unate[j] == cs.partVar[i]
  }

  /** The cube for set p: in each unate variable of p only the unate part is left. */
  ghost predicate UnateCube(cs: Shape, cd: CData, unate: seq<nat>, p: set<nat>, b: set<nat>)
    requires |cd.partZeros| == cs.size
  {
    b <= cs.fullset && forall i :: i in cs.fullset ==> (i in b <==> !Emptied(cs, cd, unate, p, |unate|, i))
  }

  /** One set of map_unate_to_cover. */
  method MapSet(cs: Shape, cd: CData, unate: seq<nat>, p: set<nat>) returns (b: set<nat>)
    requires |cd.partZeros| == cs.size && forall j :: 0 <= j < |unate| ==> unate[j] < cs.numVars
    ensures UnateCube(cs, cd, unate, p, b)
  {
    b := cs.fullset;
    for ncol := 0 to |unate|
      invariant b <= cs.fullset && forall i :: i in cs.fullset ==> (i in b <==> !Emptied(cs, cd, unate, p, ncol, i))
    {
      if ncol in p {
        var v := unate[ncol];
        var gone := set i | i in cs.varMask[v] && cd.partZeros[i] == 0;
        b := b - gone;
        forall i | i in cs.fullset ensures i in gone <==> cs.partVar[i] == v && cd.partZeros[i] == 0 {
        }
      }
    }
  }

  /** map_unate_to_cover */
  method MapUnateToCover(cs: Shape, cd: CData, unate: seq<nat>, A: seq<set<nat>>) returns (B: seq<Cube>)
    requires |cd.partZeros| == cs.size && forall j :: 0 <= j < |unate| ==> unate[j] < cs.numVars
    ensures |B| == |A| && forall k :: 0 <= k < |A| ==> UnateCube(cs, cd, unate, A[k], B[k].parts)
  {
    B := [];
    for k := 0 to |A|
      invariant |B| == k && forall j :: 0 <= j < k ==> UnateCube(cs, cd, unate, A[j], B[j].parts)
    {
      var b := MapSet(cs, cd, unate, A[k]);
      B := B + [MkCube(b)];
    }
  }

  /** The columns whose unate part minterm m uses. */
  ghost function UsedColumns(unate: seq<nat>, cols: seq<nat>, m: seq<nat>): set<nat>
    requires |unate| == |cols| && forall j :: 0 <= j < |unate| ==> unate[j] < |m|
  {
    set j: nat | j < |cols| && m[unate[j]] == cols[j]
  }

  /** What links matrix, columns and cubelist in a unate leaf. */
  ghost predicate UnateSetting(cs: Shape, s: seq<Cube>, cof: set<nat>, cd: CData, unate: seq<nat>, cols: seq<nat>)
    requires CountsOf(cs, s, cof, cd) && cd.varsUnate == cd.varsActive
  {
    && |cols| == |unate|
    && (forall v :: v in unate <==> 0 <= v < cs.numVars && cd.isUnate[v])
    && forall j :: 0 <= j < |cols| ==>
      unate[j] < cs.numVars && cd.isUnate[unate[j]] && cols[j] == UnatePart(cs, s, cof, cd, unate[j])
  }

  /** A cube misses m exactly when m uses a column the cube lacks. */
  lemma CubeMisses(cs: Shape, s: seq<Cube>, cof: set<nat>, cd: CData, unate: seq<nat>, cols: seq<nat>, c: Cube,
                   m: seq<nat>)
    requires CountsOf(cs, s, cof, cd) && cd.varsUnate == cd.varsActive && UnateSetting(cs, s, cof, cd, unate, cols)
    requires c in s && cs.Minterm(m)
    ensures In(m, c.parts + cof) <==> forall j :: 0 <= j < |cols| && cols[j] !in c.parts ==> m[unate[j]] != cols[j]
  {
    if In(m, c.parts + cof) {
      forall j | 0 <= j < |cols| && cols[j] !in c.parts ensures m[unate[j]] != cols[j] {
        PartZeros(cs, s, cof, cd, cols[j]);
        assert m[unate[j]] in c.parts + cof;
      }
    }
    if forall j :: 0 <= j < |cols| && cols[j] !in c.parts ==> m[unate[j]] != cols[j] {
      forall v | 0 <= v < |m| ensures m[v] in c.parts + cof {
        assert m[v] in cs.varMask[v];
        PartZeros(cs, s, cof, cd, m[v]);
        UnateFunction(cs, s, cof, cd, v);
        if cd.isUnate[v] {
          assert v in unate;
          var j :| 0 <= j < |unate| && unate[j] == v;
          assert m[v] == cols[j] ==> cols[j] in c.parts;
        } else {
          NoActivePart(cs, cd, s, cof, v, m[v]);
        }
      }
    }
  }

  /** The list misses m exactly when the columns m uses meet every row. */
  lemma ListMisses(cs: Shape, s: seq<Cube>, cof: set<nat>, cd: CData, unate: seq<nat>, cols: seq<nat>, A: seq<set<nat>>,
                   m: seq<nat>)
    requires CountsOf(cs, s, cof, cd) && cd.varsUnate == cd.varsActive && UnateSetting(cs, s, cof, cd, unate, cols)
    requires UnateMatrix(s, cols, A) && cs.Minterm(m)
    ensures !CoveredBy(m, s, cof, All) <==> U.HitsAll(A, UsedColumns(unate, cols, m))
  {
    var used := UsedColumns(unate, cols, m);
    if U.HitsAll(A, used) {
      forall c | c in s ensures !In(m, c.parts + cof) {
        var k :| 0 <= k < |s| && s[k] == c;
        var j :| j in A[k] * used;
        CubeMisses(cs, s, cof, cd, unate, cols, c, m);
      }
    }
    if !CoveredBy(m, s, cof, All) {
      forall k | 0 <= k < |A| ensures A[k] * used != {} {
        assert s[k] in s;
        CubeMisses(cs, s, cof, cd, unate, cols, s[k], m);
        var j: nat :| j < |cols| && cols[j] !in s[k].parts && m[unate[j]] == cols[j];
        assert j in A[k] * used;
      }
    }
  }

  /** The cube made from p holds m exactly when m uses all columns of p. */
  lemma CubeUses(cs: Shape, s: seq<Cube>, cof: set<nat>, cd: CData, unate: seq<nat>, cols: seq<nat>, p: set<nat>,
                 b: set<nat>, m: seq<nat>)
    requires CountsOf(cs, s, cof, cd) && cd.varsUnate == cd.varsActive && UnateSetting(cs, s, cof, cd, unate, cols)
    requires UnateCube(cs, cd, unate, p, b) && cs.Minterm(m) && forall j :: j in p ==> j < |cols|
    ensures In(m, b) <==> p <= UsedColumns(unate, cols, m)
  {
    if In(m, b) {
      forall j | j in p ensures j in UsedColumns(unate, cols, m) {
        var v := unate[j];
        assert m[v] in cs.varMask[v] && m[v] in b;
        assert cd.partZeros[m[v]] != 0;
      }
    }
    if p <= UsedColumns(unate, cols, m) {
      forall v | 0 <= v < |m| ensures m[v] in b {
        assert m[v] in cs.varMask[v];
        if j: nat :| j in p && j < |unate| && unate[j] == v {
          assert j in UsedColumns(unate, cols, m);
          assert m[v] == cols[j] && cd.partZeros[cols[j]] > 0;
        }
      }
    }
  }

  lemma UnateLeafMatches(cs: Shape, s: seq<Cube>, cof: set<nat>, cd: CData, unate: seq<nat>, cols: seq<nat>,
                         A: seq<set<nat>>, C: seq<set<nat>>, B: seq<Cube>)
    requires CountsOf(cs, s, cof, cd) && cd.varsUnate == cd.varsActive && UnateSetting(cs, s, cof, cd, unate, cols)
    requires UnateMatrix(s, cols, A) && U.Transversals(A, C) && U.Columns(C, |cols|)
    requires |B| == |C| && forall k :: 0 <= k < |C| ==> UnateCube(cs, cd, unate, C[k], B[k].parts)
    ensures Matches(cs, s, cof, false, B)
  {
    forall m | OnDom(cs, cof, m) ensures Covered(m, B) <==> !CoveredBy(m, s, cof, All) {
      var used := UsedColumns(unate, cols, m);
      ListMisses(cs, s, cof, cd, unate, cols, A, m);
      forall k | 0 <= k < |C| ensures In(m, B[k].parts) <==> C[k] <= used {
        CubeUses(cs, s, cof, cd, unate, cols, C[k], B[k].parts, m);
      }
      if Covered(m, B) {
        var b :| b in B && In(m, b.parts);
        var k :| 0 <= k < |B| && B[k] == b;
        assert U.HitsAll(A, C[k]);
        U.SubsetHits(A, C[k], used);
      }
      if U.HitsAll(A, used) {
        assert U.HasSubset(C, used);
        var k :| 0 <= k < |C| && C[k] <= used;
        assert B[k] in B;
      }
    }
  }

  /** The variables in which the cube with parts p is not full. */
  ghost function ActiveIn(cs: Shape, p: set<nat>): set<nat> {
    set v | 0 <= v < cs.numVars && !FullIn(cs, p, v)
  }

  /** No cube is active in more than 1025 variables: then the column choice of unate_complement never gives up. */
  ghost predicate FewActiveVariables(cs: Shape, cubes: seq<Cube>, cof: set<nat>) {
    forall c :: c in cubes ==> |ActiveIn(cs, c.parts + cof)| <= 1025
  }

  /** Fewer cubes and a larger cof: still few. */
  lemma StillFewActive(cs: Shape, s: seq<Cube>, cof: set<nat>, t: seq<Cube>, cof': set<nat>)
    requires FewActiveVariables(cs, s, cof) && cof <= cof' && forall c :: c in t ==> c in s
    ensures FewActiveVariables(cs, t, cof')
  {
    forall c | c in t ensures |ActiveIn(cs, c.parts + cof')| <= 1025 {
      SubsetCard(ActiveIn(cs, c.parts + cof'), ActiveIn(cs, c.parts + cof));
    }
  }

  /** An injective image is as large. */
  lemma {:induction false} ImageSize(list: seq<nat>, row: set<nat>, image: set<nat>)
    requires Sorted(list) && (forall j :: j in row ==> j < |list| && list[j] in image)
    ensures |row| <= |image|
  {
    if row != {} {
      var j :| j in row;
      ImageSize(list, row - {j}, image - {list[j]});
    }
  }

  /** The row of a cube is no longer than its list of active variables. */
  lemma RowsShort(cs: Shape, s: seq<Cube>, cof: set<nat>, cd: CData, unate: seq<nat>, cols: seq<nat>, A: seq<set<nat>>)
    requires CountsOf(cs, s, cof, cd) && cd.varsUnate == cd.varsActive && UnateSetting(cs, s, cof, cd, unate, cols)
    requires UnateMatrix(s, cols, A) && FewActiveVariables(cs, s, cof) && Sorted(unate)
    ensures U.ShortRows(A)
  {
    forall k | 0 <= k < |A| ensures |A[k]| <= 1025 {
      var p := s[k].parts;
      assert s[k] in s;
      forall j | j in A[k] ensures j < |unate| && unate[j] in ActiveIn(cs, p + cof) {
        PartZeros(cs, s, cof, cd, cols[j]);
        assert cols[j] in cs.varMask[unate[j]] && cols[j] !in p + cof;
      }
      ImageSize(unate, A[k], ActiveIn(cs, p + cof));
    }
  }

  /** The complement of the list, unless the column choice gave up. */
  ghost predicate Complemented(cs: Shape, cubes: seq<Cube>, cof: set<nat>, ok: bool, Q: seq<Cube>) {
    && (FewActiveVariables(cs, cubes, cof) ==> ok)
    && (ok ==> Matches(cs, cubes, cof, false, Q))
  }

  /** The complement of a unate cubelist. */
  method UnateLeafCompl(cs: Shape, T: CubeList, cd: CData) returns (ok: bool, B: seq<Cube>)
    requires InOrder(cs)
    requires CountsOf(cs, T.cubes, T.cof, cd) && cd.varsUnate == cd.varsActive
    ensures Complemented(cs, T.cubes, T.cof, ok, B)
  {
    var unate := UnateList(cs, cd);
    var cols := ZeroColumns(cs, cd);
    ColumnsOfUnate(cs, T.cubes, T.cof, cd, unate, cols);
    var A := MapCoverToUnate(T, cols);
    if FewActiveVariables(cs, T.cubes, T.cof) {
      RowsShort(cs, T.cubes, T.cof, cd, unate, cols, A);
    }
    var C;
    ok, C := U.UnateCompl(A, |cols|);
    if !ok {
      return false, [];
    }
    B := MapUnateToCover(cs, cd, unate, C);
    UnateLeafMatches(cs, T.cubes, T.cof, cd, unate, cols, A, C, B);
  }

  /** Single-cube containment of the list itself. */
  method ContainedList(cs: Shape, T: CubeList) returns (Q: seq<Cube>)
    requires Fits(cs, T.cubes, T.cof)
    ensures Simplified(cs, T.cubes, T.cof, Q)
  {
    var A := CubeUnlist(T);
    Q := SfContain(A);
    ListMatches(cs, T.cubes, T.cof, A);
    ListInDomain(cs, T.cubes, T.cof, A);
    forall m | OnDom(cs, T.cof, m) ensures Covered(m, Q) <==> CoveredBy(m, T.cubes, T.cof, All) {
      if Covered(m, A) {
        var a :| a in A && In(m, a.parts);
        assert Within(a.parts, Q);
        var q :| q in Q && a.parts <= q.parts;
        assert In(m, q.parts);
      }
      if Covered(m, Q) {
        var q :| q in Q && In(m, q.parts);
        var a := WithParts(A, q.parts);
        assert Covered(m, A);
      }
    }
    forall q | q in Q ensures HasParts(A, q.parts) {
    }
  }

  /** The cubes of the list, or-ed with cof. */
  lemma ListMatches(cs: Shape, s: seq<Cube>, cof: set<nat>, A: seq<Cube>)
    requires |A| == |s| && forall k :: 0 <= k < |A| ==> A[k].parts == s[k].parts + cof
    ensures Matches(cs, s, cof, true, A)
  {
    forall m | OnDom(cs, cof, m) ensures Covered(m, A) <==> CoveredBy(m, s, cof, All) {
      if Covered(m, A) {
        var a :| a in A && In(m, a.parts);
        var k :| 0 <= k < |A| && A[k] == a;
        assert s[k] in s;
      }
      if CoveredBy(m, s, cof, All) {
        var c :| c in s && In(m, c.parts + cof);
        var k :| 0 <= k < |s| && s[k] == c;
        assert A[k] in A;
      }
    }
  }

  lemma EverythingMatches(cs: Shape, s: seq<Cube>, cof: set<nat>)
    requires Tautologous(cs, s, cof, All)
    ensures Matches(cs, s, cof, true, [MkCube(cs.fullset)]) && Matches(cs, s, cof, false, [])
  {
    forall m | cs.Minterm(m) ensures Covered(m, [MkCube(cs.fullset)]) {
      FullHoldsAll(cs, m, cs.fullset);
      assert MkCube(cs.fullset) in [MkCube(cs.fullset)];
    }
  }

  lemma NothingMatches(cs: Shape, cof: set<nat>)
    ensures Matches(cs, [], cof, true, []) && Matches(cs, [], cof, false, [MkCube(cs.fullset)])
  {
    forall m | cs.Minterm(m) ensures Covered(m, [MkCube(cs.fullset)]) {
      FullHoldsAll(cs, m, cs.fullset);
      assert MkCube(cs.fullset) in [MkCube(cs.fullset)];
    }
  }

  lemma SingleHeld(cs: Shape, c: Cube, cof: set<nat>)
    ensures Matches(cs, [c], cof, true, [MkCube(cof + c.parts)])
  {
    assert cof + c.parts == c.parts + cof && c in [c];
    assert MkCube(cof + c.parts) in [MkCube(cof + c.parts)];
  }

  lemma SingleMatches(cs: Shape, c: Cube, cof: set<nat>, R: seq<Cube>)
    requires forall m :: cs.Minterm(m) ==> (Covered(m, R) <==> !In(m, cof + c.parts))
    ensures Matches(cs, [c], cof, false, R)
  {
    assert cof + c.parts == c.parts + cof && c in [c];
  }

  /** Factored columns: the complement of the rest, and everything outside ceil. */
  lemma FactoredComplement(cs: Shape, s: seq<Cube>, cof: set<nat>, Q: seq<Cube>, R: seq<Cube>)
    requires cof <= cs.fullset
    requires Matches(cs, s, cof + (cs.fullset - Ceiling(s, cof)), false, Q)
    requires forall m :: cs.Minterm(m) ==> (Covered(m, R) <==> !In(m, Ceiling(s, cof)))
    ensures Matches(cs, s, cof, false, Q + R)
  {
    forall m | OnDom(cs, cof, m) ensures Covered(m, Q + R) <==> !CoveredBy(m, s, cof, All) {
      ZeroColumnCof(cs, s, cof, m);
      CoveredAppend(m, Q, R);
    }
  }

  /** Factored columns: the rest, cut down to ceil. */
  lemma FactoredSimplify(cs: Shape, s: seq<Cube>, cof: set<nat>, Q: seq<Cube>, R: seq<Cube>)
    requires cof <= cs.fullset && CutBy(Q, Ceiling(s, cof), R)
    requires Matches(cs, s, cof + (cs.fullset - Ceiling(s, cof)), true, Q)
    ensures Matches(cs, s, cof, true, R)
  {
    forall m | OnDom(cs, cof, m) ensures Covered(m, R) <==> CoveredBy(m, s, cof, All) {
      ZeroColumnCof(cs, s, cof, m);
      if Covered(m, R) {
        var r :| r in R && In(m, r.parts);
        var k :| 0 <= k < |R| && R[k] == r;
        assert Q[k] in Q && In(m, Q[k].parts) && In(m, Ceiling(s, cof));
      }
      if CoveredBy(m, s, cof, All) {
        var q :| q in Q && In(m, q.parts);
        var k :| 0 <= k < |Q| && Q[k] == q;
        assert R[k] in R && In(m, R[k].parts);
      }
    }
  }

  method CutCubes(Q: seq<Cube>, ceil: set<nat>) returns (R: seq<Cube>)
    ensures CutBy(Q, ceil, R)
  {
    R := [];
    for k := 0 to |Q|
      invariant |R| == k && forall j :: 0 <= j < k ==> R[j].parts == Q[j].parts * ceil
    {
      R := R + [Q[k].(parts := Q[k].parts * ceil)];
    }
  }

  // ---------- the special cases, in the order in which they are tested ----------

  datatype Case = Empty | Single | Full | ZeroColumn | Tautology | UnateCase | Split

  /** The case that applies to the cubelist, with the counts where they have been made. */
  method Classify(cs: Shape, T: CubeList) returns (kind: Case, ceil: set<nat>, cd: CData)
    requires Fits(cs, T.cubes, T.cof)
    ensures kind == Empty ==> T.cubes == []
    ensures kind == Single ==> |T.cubes| == 1
    ensures kind == Full || kind == Tautology ==> Tautologous(cs, T.cubes, T.cof, All)
    ensures kind == ZeroColumn ==> ceil == Ceiling(T.cubes, T.cof) && ceil <= cs.fullset && T.cubes != []
    ensures kind == ZeroColumn ==> FreeParts(cs, T.cof + (cs.fullset - ceil)) < FreeParts(cs, T.cof)
    ensures kind == UnateCase ==> CountsOf(cs, T.cubes, T.cof, cd) && cd.varsUnate == cd.varsActive
    ensures kind == Split ==> CountsOf(cs, T.cubes, T.cof, cd) && cd.varsUnate != cd.varsActive
  {
    ceil, cd := {}, NO_COUNTS;
    if |T.cubes| == 0 {
      return Empty, ceil, cd;
    }
    if |T.cubes| == 1 {
      return Single, ceil, cd;
    }
    for k := 0 to |T.cubes| {
      if FullRow(cs, T.cubes[k].parts, T.cof) {
        FullRowCovers(cs, T.cubes, T.cof, All);
        return Full, ceil, cd;
      }
    }
    ceil := Ceil(T);
    if ceil != cs.fullset {
      assert ceil <= cs.fullset;
      ghost var i :| i in cs.fullset && i !in ceil;
      CofGrows(cs, T.cof, cs.fullset - ceil, i);
      return ZeroColumn, ceil, cd;
    }
    cd := MassiveCount(cs, T);
    if cd.varsActive == 1 {
      SingleActiveVariable(cs, T.cubes, T.cof, cd);
      return Tautology, ceil, cd;
    } else if cd.varsUnate == cd.varsActive {
      return UnateCase, ceil, cd;
    }
    return Split, ceil, cd;
  }

  /** The choice of the splitting variable and the two halves. */
  method ChooseSplit(cs: Shape, T: CubeList, cd: CData) returns (best: nat, cl: set<nat>, cr: set<nat>)
    requires CountsOf(cs, T.cubes, T.cof, cd) && cd.varsUnate != cd.varsActive
    ensures best < cs.numVars && SplitCubes(cs, T.cof, best, cl, cr) && Half(cs, T.cof, best, cl) &&
      Half(cs, T.cof, best, cr)
    ensures FreeParts(cs, T.cof + (cs.fullset - cl)) < FreeParts(cs, T.cof)
    ensures FreeParts(cs, T.cof + (cs.fullset - cr)) < FreeParts(cs, T.cof)
  {
    best := cd.best;
    BinateChoice(cs, T.cubes, T.cof, cd);
    cl, cr := BinateSplitSelect(cs, T.cof, best);
    HalvesOf(cs, T.cof, best, cl, cr);
    SplitShrinks(cs, T.cof, best, cl, cr);
  }

  // ---------- complement ----------

  method ComplementHalf(cs: Shape, T: CubeList, h: set<nat>, v: nat) returns (ok: bool, Q: seq<Cube>)
    requires InOrder(cs) && v < cs.numVars && h <= cs.fullset && Fits(cs, T.cubes, T.cof)
    requires FreeParts(cs, T.cof + (cs.fullset - h)) < FreeParts(cs, T.cof)
    ensures FewActiveVariables(cs, T.cubes, T.cof) ==> ok
    ensures ok ==> Matches(cs, MeetingIn(cs, T.cubes, h, v), T.cof + (cs.fullset - h), false, Q)
    decreases FreeParts(cs, T.cof), 0
  {
    var half := Scofactor(cs, T, h, v);
    if FewActiveVariables(cs, T.cubes, T.cof) {
      StillFewActive(cs, T.cubes, T.cof, half.cubes, half.cof);
    }
    ok, Q := Complement(cs, half);
  }

  /** complement -- T is disposed of.  ok is false where the column choice for a unate leaf gives up. */
  method Complement(cs: Shape, T: CubeList) returns (ok: bool, Tbar: seq<Cube>)
    requires InOrder(cs) && Fits(cs, T.cubes, T.cof)
    modifies T
    ensures Complemented(cs, old(T.cubes), old(T.cof), ok, Tbar)
    decreases FreeParts(cs, T.cof), 2
  {
    ok := true;
    var kind, ceil, cd := Classify(cs, T);
    match kind {
      case Empty =>
        NothingMatches(cs, T.cof);
        Tbar := [MkCube(cs.fullset)];
      case Single =>
        Tbar := ComplCube(cs, T.cof + T.cubes[0].parts);
        assert T.cubes == [T.cubes[0]];
        SingleMatches(cs, T.cubes[0], T.cof, Tbar);
      case Full =>
        EverythingMatches(cs, T.cubes, T.cof);
        Tbar := [];
      case ZeroColumn =>
        ok, Tbar := ComplementFactored(cs, T, ceil);
      case Tautology =>
        EverythingMatches(cs, T.cubes, T.cof);
        Tbar := [];
      case UnateCase =>
        ok, Tbar := UnateLeafCompl(cs, T, cd);
      case Split =>
        ok, Tbar := ComplementSplit(cs, T, cd);
    }
  }

  /** The columns of zeros factored out. */
  method ComplementFactored(cs: Shape, T: CubeList, ceil: set<nat>) returns (ok: bool, Tbar: seq<Cube>)
    requires InOrder(cs) && Fits(cs, T.cubes, T.cof)
    requires ceil == Ceiling(T.cubes, T.cof) && FreeParts(cs, T.cof + (cs.fullset - ceil)) < FreeParts(cs, T.cof)
    modifies T
    ensures Complemented(cs, old(T.cubes), old(T.cof), ok, Tbar)
    decreases FreeParts(cs, T.cof), 1
  {
    ghost var s, cof := T.cubes, T.cof;
    var ceilCompl := ComplCube(cs, ceil);
    T.cof := T.cof + (cs.fullset - ceil);
    if FewActiveVariables(cs, s, cof) {
      StillFewActive(cs, s, cof, s, T.cof);
    }
    var rest;
    ok, rest := Complement(cs, T);
    Tbar := rest + ceilCompl;
    if ok {
      FactoredComplement(cs, s, cof, rest, ceilCompl);
    }
  }

  method ComplementSplit(cs: Shape, T: CubeList, cd: CData) returns (ok: bool, Tbar: seq<Cube>)
    requires InOrder(cs) && Fits(cs, T.cubes, T.cof)
    requires CountsOf(cs, T.cubes, T.cof, cd) && cd.varsUnate != cd.varsActive
    ensures Complemented(cs, T.cubes, T.cof, ok, Tbar)
    decreases FreeParts(cs, T.cof), 1
  {
    var best, cl, cr := ChooseSplit(cs, T, cd);
    var Tl, Tr;
    ok, Tl := ComplementHalf(cs, T, cl, best);
    if !ok {
      return false, [];
    }
    ok, Tr := ComplementHalf(cs, T, cr, best);
    if !ok {
      return false, [];
    }
    var lifting := if |Tr| * |Tl| > (|Tr| + |Tl|) * |T.cubes| then UseComplLiftOnset else UseComplLift;
    Tbar := ComplMerge(cs, T, Tl, Tr, cl, cr, best, lifting, false);
  }

  // ---------- simplify ----------

  /** Q holds what the list holds, and has no cube void on the domain if the list has none. */
  ghost predicate Simplified(cs: Shape, cubes: seq<Cube>, cof: set<nat>, Q: seq<Cube>) {
    Matches(cs, cubes, cof, true, Q) && (HasDomain(cs, cof) && InDomain(cs, cubes, cof) ==> InDomain(cs, Q, cof))
  }

  method SimplifyHalf(cs: Shape, T: CubeList, h: set<nat>, v: nat) returns (Q: seq<Cube>)
    requires v < cs.numVars && Half(cs, T.cof, v, h) && h <= cs.fullset && Fits(cs, T.cubes, T.cof)
    requires FreeParts(cs, T.cof + (cs.fullset - h)) < FreeParts(cs, T.cof)
    ensures Matches(cs, MeetingIn(cs, T.cubes, h, v), T.cof + (cs.fullset - h), true, Q)
    ensures HasDomain(cs, T.cof) && InDomain(cs, T.cubes, T.cof) ==> InDomain(cs, Q, T.cof + (cs.fullset - h))
    decreases FreeParts(cs, T.cof), 0
  {
    var half := Scofactor(cs, T, h, v);
    if HasDomain(cs, T.cof) && InDomain(cs, T.cubes, T.cof) {
      HalfInDomain(cs, T.cubes, T.cof, v, h);
    }
    Q := Simplify(cs, half);
  }

  /** simplify -- T is disposed of. */
  method Simplify(cs: Shape, T: CubeList) returns (Tnew: seq<Cube>)
    requires Fits(cs, T.cubes, T.cof)
    modifies T
    ensures Simplified(cs, old(T.cubes), old(T.cof), Tnew)
    decreases FreeParts(cs, T.cof), 2
  {
    var kind, ceil, cd := Classify(cs, T);
    match kind {
      case Empty =>
        NothingMatches(cs, T.cof);
        Tnew := [];
      case Single =>
        assert T.cubes == [T.cubes[0]];
        SingleHeld(cs, T.cubes[0], T.cof);
        Tnew := [MkCube(T.cof + T.cubes[0].parts)];
        ListInDomain(cs, T.cubes, T.cof, Tnew);
      case Full =>
        EverythingMatches(cs, T.cubes, T.cof);
        FullInDomain(cs, T.cof);
        Tnew := [MkCube(cs.fullset)];
      case ZeroColumn =>
        Tnew := SimplifyFactored(cs, T, ceil);
      case Tautology =>
        EverythingMatches(cs, T.cubes, T.cof);
        FullInDomain(cs, T.cof);
        Tnew := [MkCube(cs.fullset)];
      case UnateCase =>
        Tnew := ContainedList(cs, T);
      case Split =>
        Tnew := SimplifySplit(cs, T, cd);
    }
  }

  /** The cubes of the list or-ed with cof have the parts of the domain that the cubes have. */
  lemma ListInDomain(cs: Shape, s: seq<Cube>, cof: set<nat>, A: seq<Cube>)
    requires |A| == |s| && (forall k :: 0 <= k < |A| ==> A[k].parts == s[k].parts + cof) && cof <= cs.fullset
    ensures InDomain(cs, s, cof) ==> InDomain(cs, A, cof)
  {
    if InDomain(cs, s, cof) {
      forall c, v | c in A && 0 <= v < cs.numVars ensures (c.parts - cof) * cs.varMask[v] != {} {
        var k :| 0 <= k < |A| && A[k] == c;
        assert s[k] in s;
        assert c.parts - cof == s[k].parts - cof;
      }
    }
  }

  lemma FullInDomain(cs: Shape, cof: set<nat>)
    ensures HasDomain(cs, cof) ==> InDomain(cs, [MkCube(cs.fullset)], cof)
  {
    if HasDomain(cs, cof) {
      forall v | 0 <= v < cs.numVars ensures (cs.fullset - cof) * cs.varMask[v] != {} {
        var i :| i in cs.varMask[v] - cof;
        assert i in (cs.fullset - cof) * cs.varMask[v];
      }
    }
  }

  /** The columns of zeros factored out, and the result cut down to the others. */
  method SimplifyFactored(cs: Shape, T: CubeList, ceil: set<nat>) returns (Tnew: seq<Cube>)
    requires Fits(cs, T.cubes, T.cof) && T.cubes != []
    requires ceil == Ceiling(T.cubes, T.cof) && FreeParts(cs, T.cof + (cs.fullset - ceil)) < FreeParts(cs, T.cof)
    modifies T
    ensures Simplified(cs, old(T.cubes), old(T.cof), Tnew)
    decreases FreeParts(cs, T.cof), 1
  {
    ghost var s, cof := T.cubes, T.cof;
    T.cof := T.cof + (cs.fullset - ceil);
    if InDomain(cs, s, cof) {
      CeilingInDomain(cs, s, cof);
    }
    var A := Simplify(cs, T);
    Tnew := CutCubes(A, ceil);
    FactoredSimplify(cs, s, cof, A, Tnew);
    if InDomain(cs, s, cof) {
      RestrictedInDomain(cs, cof, ceil, A, Tnew);
    }
  }

  /** Factoring out the columns of zeros leaves every cube its parts of the domain. */
  lemma CeilingInDomain(cs: Shape, s: seq<Cube>, cof: set<nat>)
    requires InDomain(cs, s, cof) && s != []
    ensures var f := cof + (cs.fullset - Ceiling(s, cof)); HasDomain(cs, f) && InDomain(cs, s, f)
  {
    var f := cof + (cs.fullset - Ceiling(s, cof));
    forall c, v | c in s && 0 <= v < cs.numVars ensures (c.parts - f) * cs.varMask[v] != {} {
      var i :| i in (c.parts - cof) * cs.varMask[v];
      assert i in Ceiling(s, cof);
      assert i in (c.parts - f) * cs.varMask[v];
    }
    forall v | 0 <= v < cs.numVars ensures cs.varMask[v] - f != {} {
      assert s[0] in s;
      var i :| i in (s[0].parts - f) * cs.varMask[v];
      assert i in cs.varMask[v] - f;
    }
  }

  method SimplifySplit(cs: Shape, T: CubeList, cd: CData) returns (Tnew: seq<Cube>)
    requires Fits(cs, T.cubes, T.cof)
    requires CountsOf(cs, T.cubes, T.cof, cd) && cd.varsUnate != cd.varsActive
    ensures Simplified(cs, T.cubes, T.cof, Tnew)
    decreases FreeParts(cs, T.cof), 1
  {
    var best, cl, cr := ChooseSplit(cs, T, cd);
    var Tl := SimplifyHalf(cs, T, cl, best);
    var Tr := SimplifyHalf(cs, T, cr, best);
    Tnew := ComplMerge(cs, T, Tl, Tr, cl, cr, best, UseComplLift, true);
    if |Tnew| > |T.cubes| {
      Tnew := CubeUnlist(T);
      ListMatches(cs, T.cubes, T.cof, Tnew);
      ListInDomain(cs, T.cubes, T.cof, Tnew);
    }
  }

  // ---------- simp_comp ----------

  /** The list and its complement, unless the column choice gave up. */
  ghost predicate BothOf(cs: Shape, cubes: seq<Cube>, cof: set<nat>, ok: bool, Q: seq<Cube>, Qbar: seq<Cube>) {
    Complemented(cs, cubes, cof, ok, Qbar) && (ok ==> Matches(cs, cubes, cof, true, Q))
  }

  method SimpCompHalf(cs: Shape, T: CubeList, h: set<nat>, v: nat) returns (ok: bool, Q: seq<Cube>, Qbar: seq<Cube>)
    requires InOrder(cs) && v < cs.numVars && h <= cs.fullset && Fits(cs, T.cubes, T.cof)
    requires FreeParts(cs, T.cof + (cs.fullset - h)) < FreeParts(cs, T.cof)
    ensures FewActiveVariables(cs, T.cubes, T.cof) ==> ok
    ensures ok ==> Matches(cs, MeetingIn(cs, T.cubes, h, v), T.cof + (cs.fullset - h), true, Q)
    ensures ok ==> Matches(cs, MeetingIn(cs, T.cubes, h, v), T.cof + (cs.fullset - h), false, Qbar)
    decreases FreeParts(cs, T.cof), 0
  {
    var half := Scofactor(cs, T, h, v);
    if FewActiveVariables(cs, T.cubes, T.cof) {
      StillFewActive(cs, T.cubes, T.cof, half.cubes, half.cof);
    }
    ok, Q, Qbar := SimpComp(cs, half);
  }

  /** simp_comp -- the simplified list and its complement. */
  method SimpComp(cs: Shape, T: CubeList) returns (ok: bool, Tnew: seq<Cube>, Tbar: seq<Cube>)
    requires InOrder(cs) && Fits(cs, T.cubes, T.cof)
    modifies T
    ensures BothOf(cs, old(T.cubes), old(T.cof), ok, Tnew, Tbar)
    decreases FreeParts(cs, T.cof), 2
  {
    ok := true;
    var kind, ceil, cd := Classify(cs, T);
    match kind {
      case Empty =>
        NothingMatches(cs, T.cof);
        Tnew, Tbar := [], [MkCube(cs.fullset)];
      case Single =>
        Tbar := ComplCube(cs, T.cof + T.cubes[0].parts);
        Tnew := [MkCube(T.cof + T.cubes[0].parts)];
        assert T.cubes == [T.cubes[0]];
        SingleHeld(cs, T.cubes[0], T.cof);
        SingleMatches(cs, T.cubes[0], T.cof, Tbar);
      case Full =>
        EverythingMatches(cs, T.cubes, T.cof);
        Tnew, Tbar := [MkCube(cs.fullset)], [];
      case ZeroColumn =>
        ok, Tnew, Tbar := SimpCompFactored(cs, T, ceil);
      case Tautology =>
        EverythingMatches(cs, T.cubes, T.cof);
        Tnew, Tbar := [MkCube(cs.fullset)], [];
      case UnateCase =>
        Tnew := ContainedList(cs, T);
        ok, Tbar := UnateLeafCompl(cs, T, cd);
      case Split =>
        ok, Tnew, Tbar := SimpCompSplit(cs, T, cd);
    }
  }

  method SimpCompFactored(cs: Shape, T: CubeList, ceil: set<nat>) returns (ok: bool, Tnew: seq<Cube>, Tbar: seq<Cube>)
    requires InOrder(cs) && Fits(cs, T.cubes, T.cof)
    requires ceil == Ceiling(T.cubes, T.cof) && FreeParts(cs, T.cof + (cs.fullset - ceil)) < FreeParts(cs, T.cof)
    modifies T
    ensures BothOf(cs, old(T.cubes), old(T.cof), ok, Tnew, Tbar)
    decreases FreeParts(cs, T.cof), 1
  {
    ghost var s, cof := T.cubes, T.cof;
    T.cof := T.cof + (cs.fullset - ceil);
    if FewActiveVariables(cs, s, cof) {
      StillFewActive(cs, s, cof, s, T.cof);
    }
    var A, rest;
    ok, A, rest := SimpComp(cs, T);
    Tnew := CutCubes(A, ceil);
    var ceilCompl := ComplCube(cs, ceil);
    Tbar := rest + ceilCompl;
    if ok {
      FactoredSimplify(cs, s, cof, A, Tnew);
      FactoredComplement(cs, s, cof, rest, ceilCompl);
    }
  }

  method SimpCompSplit(cs: Shape, T: CubeList, cd: CData) returns (ok: bool, Tnew: seq<Cube>, Tbar: seq<Cube>)
    requires InOrder(cs) && Fits(cs, T.cubes, T.cof)
    requires CountsOf(cs, T.cubes, T.cof, cd) && cd.varsUnate != cd.varsActive
    ensures BothOf(cs, T.cubes, T.cof, ok, Tnew, Tbar)
    decreases FreeParts(cs, T.cof), 1
  {
    var best, cl, cr := ChooseSplit(cs, T, cd);
    var Tl, Tlbar, Tr, Trbar;
    ok, Tl, Tlbar := SimpCompHalf(cs, T, cl, best);
    if !ok {
      return false, [], [];
    }
    ok, Tr, Trbar := SimpCompHalf(cs, T, cr, best);
    if !ok {
      return false, [], [];
    }
    Tnew := ComplMerge(cs, T, Tl, Tr, cl, cr, best, UseComplLift, true);
    Tbar := ComplMerge(cs, T, Tlbar, Trbar, cl, cr, best, UseComplLift, false);
    if |Tnew| > |T.cubes| {
      Tnew := CubeUnlist(T);
      ListMatches(cs, T.cubes, T.cof, Tnew);
    }
  }

  // ---------- at the top level ----------

  /** The complement of a whole cover holds a minterm exactly when the cover does not. */
  lemma ComplementOfCover(cs: Shape, cubes: seq<Cube>, Q: seq<Cube>, Qbar: seq<Cube>, m: seq<nat>)
    requires Matches(cs, cubes, {}, true, Q) && Matches(cs, cubes, {}, false, Qbar) && cs.Minterm(m)
    ensures Covered(m, Qbar) <==> !Covered(m, cubes)
    ensures Covered(m, Q) <==> Covered(m, cubes)
  {
    assert OnDom(cs, {}, m);
    assert CoveredBy(m, cubes, {}, All) <==> Covered(m, cubes) by {
      if Covered(m, cubes) {
        var c :| c in cubes && In(m, c.parts);
        assert c.parts + {} == c.parts;
      }
      if CoveredBy(m, cubes, {}, All) {
        var c :| c in cubes && In(m, c.parts + {});
        assert c.parts + {} == c.parts;
      }
    }
  }
}
