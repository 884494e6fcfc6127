/** primes.c: generation of all prime implicants by recursive consensus. */
module Primes {
  import opened Cubes
  import opened Cofactor
  import opened Recursion
  import opened Irred
  import opened Containment
  import opened SetOps
  import opened Sets

  // ---------- implicants of a cubelist ----------

  /** A minterm in the domain of a cubelist: it uses no part of cof. */
  ghost predicate OnDom(cs: Shape, cof: set<nat>, m: seq<nat>) {
    cs.Minterm(m) && forall v :: 0 <= v < cs.numVars ==> m[v] !in cof
  }

  /** Every minterm of p in the domain is covered. */
  ghost predicate Implicant(cs: Shape, cubes: seq<Cube>, cof: set<nat>, p: set<nat>) {
    forall m :: OnDom(cs, cof, m) && In(m, p) ==> CoveredBy(m, cubes, cof, All)
  }

  /** A nonvoid cube of the domain, all of whose minterms are covered. */
  ghost predicate DomImplicant(cs: Shape, cubes: seq<Cube>, cof: set<nat>, p: set<nat>) {
    p <= cs.fullset - cof && NonVoid(cs, p) && Implicant(cs, cubes, cof, p)
  }

  /** Q consists of implicants, and every implicant lies within some cube of Q. */
  ghost predicate Generates(cs: Shape, cubes: seq<Cube>, cof: set<nat>, Q: seq<Cube>) {
    && (forall q :: q in Q ==> q.parts <= cs.fullset && Implicant(cs, cubes, cof, q.parts))
    && (forall p {:trigger Within(p, Q)} :: DomImplicant(cs, cubes, cof, p) ==> Within(p, Q))
  }

  lemma DomMinterm(cs: Shape, cof: set<nat>, p: set<nat>, m: seq<nat>)
    requires p <= cs.fullset - cof && cs.Minterm(m) && In(m, p)
    ensures OnDom(cs, cof, m)
  {
  }

  /** A minterm of the nonvoid cube p through its part i. */
  ghost function Through(cs: Shape, p: set<nat>, i: nat): (m: seq<nat>)
    requires NonVoid(cs, p) && i in p && i in cs.fullset
    ensures cs.Minterm(m) && In(m, p) && m[cs.partVar[i]] == i
  {
    assert i in cs.varMask[cs.partVar[i]];
    MintermOf(cs, p)[cs.partVar[i] := i]
  }

  /** A cube all of whose minterms in p lie in c contains p. */
  lemma ContainsAll(cs: Shape, p: set<nat>, c: set<nat>)
    requires NonVoid(cs, p) && p <= cs.fullset
    requires forall m :: cs.Minterm(m) && In(m, p) ==> In(m, c)
    ensures p <= c
  {
    forall i | i in p ensures i in c {
      var m := Through(cs, p, i);
      assert In(m, c);
      assert m[cs.partVar[i]] in c;
    }
  }

  /** The domain is not empty. */
  ghost predicate HasDomain(cs: Shape, cof: set<nat>) {
    forall v :: 0 <= v < cs.numVars ==> cs.varMask[v] - cof != {}
  }

  /** The cubes are of the space, and every one has a part of the domain in every variable. */
  ghost predicate InDomain(cs: Shape, cubes: seq<Cube>, cof: set<nat>) {
    && (forall c :: c in cubes ==> c.parts <= cs.fullset)
    && (forall c, v :: c in cubes && 0 <= v < cs.numVars ==> (c.parts - cof) * cs.varMask[v] != {})
  }

  lemma HalfInDomain(cs: Shape, s: seq<Cube>, cof: set<nat>, v: nat, h: set<nat>)
    requires v < cs.numVars && Half(cs, cof, v, h) && HasDomain(cs, cof) && InDomain(cs, s, cof)
    ensures HasDomain(cs, cof + (cs.fullset - h))
    ensures InDomain(cs, MeetingIn(cs, s, h, v), cof + (cs.fullset - h))
  {
    var f := cof + (cs.fullset - h);
    forall u | 0 <= u < cs.numVars ensures cs.varMask[u] - f != {} {
      var i :| i in if u == v then cs.varMask[v] * h else cs.varMask[u] - cof;
      HalfCof(cs, cof, v, h, u, i);
      assert i in cs.varMask[u] - f;
    }
    forall c, u | c in MeetingIn(cs, s, h, v) && 0 <= u < cs.numVars ensures (c.parts - f) * cs.varMask[u] != {} {
      var i :| i in if u == v then c.parts * (cs.varMask[v] * h) else (c.parts - cof) * cs.varMask[u];
      HalfCof(cs, cof, v, h, u, i);
      assert i in (c.parts - f) * cs.varMask[u];
    }
  }

  // ---------- leaves ----------

  lemma NoCubes(cs: Shape, cof: set<nat>)
    ensures Generates(cs, [], cof, [])
  {
    forall p | p <= cs.fullset - cof && NonVoid(cs, p) ensures !Implicant(cs, [], cof, p) {
      var m := MintermOf(cs, p);
      DomMinterm(cs, cof, p, m);
      assert !CoveredBy(m, [], cof, All);
    }
  }

  lemma OneCube(cs: Shape, c: Cube, cof: set<nat>)
    requires c.parts <= cs.fullset && cof <= cs.fullset
    ensures Generates(cs, [c], cof, [MkCube(cof + c.parts)])
  {
    var Q := [MkCube(cof + c.parts)];
    assert cof + c.parts == c.parts + cof;
    forall p | DomImplicant(cs, [c], cof, p) ensures Within(p, Q) {
      forall m | cs.Minterm(m) && In(m, p) ensures In(m, c.parts + cof) {
        DomMinterm(cs, cof, p, m);
        assert CoveredBy(m, [c], cof, All);
      }
      ContainsAll(cs, p, c.parts + cof);
      assert Q[0] in Q;
    }
    assert c in [c];
  }

  lemma Everything(cs: Shape, cubes: seq<Cube>, cof: set<nat>)
    requires Tautologous(cs, cubes, cof, All)
    ensures Generates(cs, cubes, cof, [MkCube(cs.fullset)])
  {
    var Q := [MkCube(cs.fullset)];
    forall p | DomImplicant(cs, cubes, cof, p) ensures Within(p, Q) {
      assert Q[0] in Q;
    }
  }

  /** In a unate cubelist every implicant lies within a single cube. */
  lemma UnateImplicant(cs: Shape, cubes: seq<Cube>, cof: set<nat>, cd: CData, p: set<nat>) returns (c: Cube)
    requires CountsOf(cs, cubes, cof, cd) && cd.varsUnate == cd.varsActive && DomImplicant(cs, cubes, cof, p)
    ensures c in cubes && p <= c.parts + cof
  {
    var n := MintermOf(cs, p);
    var m := seq(cs.numVars, v requires 0 <= v < cs.numVars =>
      if cd.isUnate[v] && UnatePart(cs, cubes, cof, cd, v) in p then UnatePart(cs, cubes, cof, cd, v) else n[v]);
    assert cs.Minterm(m) && In(m, p);
    DomMinterm(cs, cof, p, m);
    assert CoveredBy(m, cubes, cof, All);
    c :| c in cubes && In(m, c.parts + cof);
    forall i | i in p ensures i in c.parts + cof {
      var v := cs.partVar[i];
      assert i in cs.varMask[v];
      PartZeros(cs, cubes, cof, cd, i);
      if cd.partZeros[i] > 0 {
        UnateFunction(cs, cubes, cof, cd, v);
        if cd.partsActive[v] == 0 {
          NoActivePart(cs, cd, cubes, cof, v, i);
        }
        assert cd.isUnate[v] && UnatePart(cs, cubes, cof, cd, v) == i;
        assert m[v] == i;
      }
    }
  }

  lemma UnateGenerates(cs: Shape, cubes: seq<Cube>, cof: set<nat>, cd: CData, A: seq<Cube>, Q: seq<Cube>)
    requires CountsOf(cs, cubes, cof, cd) && cd.varsUnate == cd.varsActive
    requires (forall c :: c in cubes ==> c.parts <= cs.fullset) && cof <= cs.fullset
    requires |A| == |cubes| && forall k :: 0 <= k < |A| ==> A[k].parts == cubes[k].parts + cof
    requires PartsFrom(Q, A) && Dominates(Q, A)
    ensures Generates(cs, cubes, cof, Q)
  {
    forall q | q in Q ensures q.parts <= cs.fullset && Implicant(cs, cubes, cof, q.parts) {
      var a := WithParts(A, q.parts);
      var k := Position(A, a);
      assert cubes[k] in cubes;
    }
    forall p | DomImplicant(cs, cubes, cof, p) ensures Within(p, Q) {
      var c := UnateImplicant(cs, cubes, cof, cd, p);
      var k :| 0 <= k < |cubes| && cubes[k] == c;
      assert A[k] in A && Within(A[k].parts, Q);
      var q :| q in Q && A[k].parts <= q.parts;
    }
  }

  // ---------- zero columns ----------

  /** The cubes of Q cut down to ceil. */
  ghost predicate CutBy(Q: seq<Cube>, ceil: set<nat>, R: seq<Cube>) {
    |R| == |Q| && forall k :: 0 <= k < |Q| ==> R[k].parts == Q[k].parts * ceil
  }

  lemma ZeroColumnCof(cs: Shape, cubes: seq<Cube>, cof: set<nat>, m: seq<nat>)
    requires cof <= cs.fullset
    ensures var ceil := Ceiling(cubes, cof);
            OnDom(cs, cof + (cs.fullset - ceil), m) <==> OnDom(cs, cof, m) && In(m, ceil)
    ensures OnDom(cs, cof, m) ==>
              (CoveredBy(m, cubes, cof + (cs.fullset - Ceiling(cubes, cof)), All) && In(m, Ceiling(cubes, cof))
               <==> CoveredBy(m, cubes, cof, All))
  {
    var ceil := Ceiling(cubes, cof);
    if cs.Minterm(m) {
      forall v | 0 <= v < cs.numVars ensures m[v] in cs.fullset {
        assert m[v] in cs.varMask[v];
      }
    }
    if OnDom(cs, cof, m) && CoveredBy(m, cubes, cof, All) {
      var c :| c in cubes && In(m, c.parts + cof);
      assert In(m, c.parts + (cof + (cs.fullset - ceil)));
      forall v | 0 <= v < |m| ensures m[v] in ceil {
        assert m[v] in c.parts + cof;
      }
    }
    if OnDom(cs, cof, m) && CoveredBy(m, cubes, cof + (cs.fullset - ceil), All) && In(m, ceil) {
      var c :| c in cubes && In(m, c.parts + (cof + (cs.fullset - ceil)));
      assert In(m, c.parts + cof);
    }
  }

  lemma ZeroColumnGenerates(cs: Shape, cubes: seq<Cube>, cof: set<nat>, Q: seq<Cube>, R: seq<Cube>)
    requires cof <= cs.fullset
    requires var ceil := Ceiling(cubes, cof); Generates(cs, cubes, cof + (cs.fullset - ceil), Q) && CutBy(Q, ceil, R)
    ensures Generates(cs, cubes, cof, R)
  {
    var ceil := Ceiling(cubes, cof);
    var cof' := cof + (cs.fullset - ceil);
    forall r | r in R ensures r.parts <= cs.fullset && Implicant(cs, cubes, cof, r.parts) {
      var k :| 0 <= k < |R| && R[k] == r;
      assert Q[k] in Q;
      forall m | OnDom(cs, cof, m) && In(m, r.parts) ensures CoveredBy(m, cubes, cof, All) {
        ZeroColumnCof(cs, cubes, cof, m);
        assert In(m, ceil) && In(m, Q[k].parts);
      }
    }
    forall p | DomImplicant(cs, cubes, cof, p) ensures Within(p, R) {
      forall m | cs.Minterm(m) && In(m, p) ensures In(m, ceil) {
        DomMinterm(cs, cof, p, m);
        ZeroColumnCof(cs, cubes, cof, m);
      }
      ContainsAll(cs, p, ceil);
      forall m | OnDom(cs, cof', m) && In(m, p) ensures CoveredBy(m, cubes, cof', All) {
        ZeroColumnCof(cs, cubes, cof, m);
      }
      assert DomImplicant(cs, cubes, cof', p);
      assert Within(p, Q);
      var q :| q in Q && p <= q.parts;
      var k :| 0 <= k < |Q| && Q[k] == q;
      assert R[k] in R && p <= R[k].parts;
    }
  }

  // ---------- merging the two halves ----------

  /** The nonvoid cubes among those of Q cut down to cof. */
  ghost predicate Restricted(cs: Shape, Q: seq<Cube>, cof: set<nat>, R: seq<Cube>) {
    && (forall r :: r in R ==> NonVoid(cs, r.parts) && exists q :: q in Q && r.parts == q.parts * cof)
    && (forall q :: q in Q && NonVoid(cs, q.parts * cof) ==> Within(q.parts * cof, R))
  }

  /** and_with_cofactor -- cubes that become void are dropped. */
  method AndWithCofactor(cs: Shape, A: Cover, cof: set<nat>)
    modifies A
    ensures Restricted(cs, old(A.cubes), cof, A.cubes)
  {
    for k := 0 to |A.cubes|
      invariant |A.cubes| == |old(A.cubes)|
      invariant forall j :: 0 <= j < k ==>
        A.cubes[j].parts == old(A.cubes)[j].parts * cof && (A.cubes[j].active <==> NonVoid(cs, A.cubes[j].parts))
      invariant forall j :: k <= j < |A.cubes| ==> A.cubes[j] == old(A.cubes)[j]
    {
      var p := A.cubes[k].parts * cof;
      A.cubes := A.cubes[k := A.cubes[k].(parts := p, active := NonVoid(cs, p))];
    }
    ghost var marked := A.cubes;
    SfInactive(A);
    RestrictedBy(cs, old(A.cubes), cof, marked, A.cubes);
  }

  lemma RestrictedBy(cs: Shape, Q: seq<Cube>, cof: set<nat>, marked: seq<Cube>, R: seq<Cube>)
    requires |marked| == |Q| && R == ActiveOnly(marked)
    requires forall j :: 0 <= j < |Q| ==>
      marked[j].parts == Q[j].parts * cof && (marked[j].active <==> NonVoid(cs, marked[j].parts))
    ensures Restricted(cs, Q, cof, R)
  {
    forall r | r in R ensures NonVoid(cs, r.parts) && exists q :: q in Q && r.parts == q.parts * cof {
      var j :| 0 <= j < |marked| && marked[j] == r;
      assert Q[j] in Q;
    }
    forall q | q in Q && NonVoid(cs, q.parts * cof) ensures Within(q.parts * cof, R) {
      var j :| 0 <= j < |Q| && Q[j] == q;
      assert marked[j] in marked && marked[j] in R;
    }
  }

  ghost predicate AtDistance1(cs: Shape, a: Cube, b: Cube) {
    Distance(cs, a.parts, b.parts, cs.numVars) == 1
  }

  /** q has the parts of a cube of L or R, or the consensus of a cube of L and a cube of R at distance 1. */
  ghost predicate Merged(cs: Shape, L: seq<Cube>, R: seq<Cube>, q: Cube) {
    HasParts(L, q.parts) || HasParts(R, q.parts) ||
      exists a, b :: a in L && b in R && AtDistance1(cs, a, b) && q.parts == ConsensusSet(cs, a.parts, b.parts)
  }

  /** Every consensus of a cube of L and a cube of R at distance 1 lies within Q. */
  ghost predicate ConsensusWithin(cs: Shape, L: seq<Cube>, R: seq<Cube>, Q: seq<Cube>) {
    forall a, b {:trigger AtDistance1(cs, a, b)} :: a in L && b in R && AtDistance1(cs, a, b) ==>
      Within(ConsensusSet(cs, a.parts, b.parts), Q)
  }

  /** The cubes collected while merging: saved ones and the buffer. */
  ghost predicate Collected(cs: Shape, L: seq<Cube>, R: seq<Cube>, saved: seq<Cube>, buffer: seq<Cube>) {
    && (forall q :: q in saved + buffer ==> Merged(cs, L, R, q))
    && Dominates(saved + buffer, L) && Dominates(saved + buffer, R)
    && Contained(saved)
  }

  /** What a has added to the cubes collected before. */
  ghost predicate Grown(cs: Shape, before: seq<Cube>, a: Cube, R: seq<Cube>, after: seq<Cube>) {
    && Dominates(after, before)
    && forall q {:trigger HasParts(before, q.parts)} :: q in after ==>
      HasParts(before, q.parts) || Merged(cs, [a], R, q)
  }

  lemma GrownAgain(cs: Shape, s0: seq<Cube>, s1: seq<Cube>, s2: seq<Cube>, a: Cube, R: seq<Cube>, b: Cube)
    requires Grown(cs, s0, a, R, s1) && Grown(cs, s1, a, [b], s2)
    ensures Grown(cs, s0, a, R + [b], s2)
  {
    DominatesTrans(s0, s1, s2);
    forall q | q in s2 ensures HasParts(s0, q.parts) || Merged(cs, [a], R + [b], q) {
      if HasParts(s1, q.parts) {
        var r := WithParts(s1, q.parts);
        assert HasParts(s0, r.parts) || Merged(cs, [a], R, r);
        if HasParts(R, q.parts) {
          var t := WithParts(R, q.parts);
          assert t in R + [b];
        }
      } else if HasParts([b], q.parts) {
        assert b in R + [b];
      }
    }
  }

  /** One cube of the left half against all cubes of the right half. */
  method ConsensusRow(cs: Shape, a: Cube, R: seq<Cube>, saved0: seq<Cube>, buffer0: seq<Cube>)
    returns (saved: seq<Cube>, buffer: seq<Cube>)
    ensures Contained(saved0) ==> Contained(saved)
    ensures Grown(cs, saved0 + buffer0, a, R, saved + buffer)
    ensures ConsensusWithin(cs, [a], R, saved + buffer)
  {
    saved, buffer := saved0, buffer0;
    DominatesSelf(saved0 + buffer0, saved + buffer);
    for k := 0 to |R|
      invariant Contained(saved0) ==> Contained(saved)
      invariant Grown(cs, saved0 + buffer0, a, R[..k], saved + buffer)
      invariant ConsensusWithin(cs, [a], R[..k], saved + buffer)
    {
      var b := R[k];
      assert R[..k + 1] == R[..k] + [b];
      ghost var s0 := saved + buffer;
      var dist := Cdist01(cs, a.parts, b.parts);
      DominatesSelf(s0, s0);
      if dist == 1 {
        saved, buffer := AddConsensus(cs, a, b, saved, buffer);
        ConsensusKept(cs, [a], R[..k], s0, saved + buffer);
      }
      GrownAgain(cs, saved0 + buffer0, s0, saved + buffer, a, R[..k], b);
    }
    assert R[..|R|] == R;
  }

  lemma ConsensusKept(cs: Shape, L: seq<Cube>, R: seq<Cube>, A: seq<Cube>, B: seq<Cube>)
    requires ConsensusWithin(cs, L, R, A) && Dominates(B, A)
    ensures ConsensusWithin(cs, L, R, B)
  {
    forall a, b | a in L && b in R && AtDistance1(cs, a, b) ensures Within(ConsensusSet(cs, a.parts, b.parts), B) {
      WithinTrans(ConsensusSet(cs, a.parts, b.parts), A, B);
    }
  }

  /** Form a consensus in the buffer, flushing it when it is full (500 cubes). */
  method AddConsensus(cs: Shape, a: Cube, b: Cube, saved0: seq<Cube>, buffer0: seq<Cube>)
    returns (saved: seq<Cube>, buffer: seq<Cube>)
    requires AtDistance1(cs, a, b)
    ensures Contained(saved0) ==> Contained(saved)
    ensures Grown(cs, saved0 + buffer0, a, [b], saved + buffer)
    ensures Within(ConsensusSet(cs, a.parts, b.parts), saved + buffer)
  {
    var pt := Consensus(cs, a.parts, b.parts);
    saved, buffer := Collect(saved0, buffer0, pt);
    ghost var all := saved0 + buffer0 + [MkCube(pt)];
    assert MkCube(pt) in all && Within(pt, saved + buffer);
    forall c | c in saved0 + buffer0 ensures Within(c.parts, saved + buffer) {
      assert c in all;
    }
    assert a in [a] && b in [b];
    forall q | q in saved + buffer ensures HasParts(saved0 + buffer0, q.parts) || Merged(cs, [a], [b], q) {
      var r := WithParts(all, q.parts);
      assert r in saved0 + buffer0 || r.parts == pt;
    }
  }

  /** primes_consensus_merge, once both halves have been cut down to their cofactor cubes. */
  method MergeHalves(cs: Shape, L: seq<Cube>, R: seq<Cube>) returns (Q: seq<Cube>)
    ensures forall q :: q in Q ==> Merged(cs, L, R, q)
    ensures Dominates(Q, L) && Dominates(Q, R) && ConsensusWithin(cs, L, R, Q)
    ensures Contained(Q)
  {
    var saved := SfContain(L + R);
    var buffer: seq<Cube> := [];
    assert saved + buffer == saved;
    CollectedFirst(cs, L, R, saved);
    for k := 0 to |L|
      invariant Collected(cs, L, R, saved, buffer)
      invariant ConsensusWithin(cs, L[..k], R, saved + buffer)
    {
      ghost var s0, b0 := saved, buffer;
      saved, buffer := ConsensusRow(cs, L[k], R, saved, buffer);
      CollectedRow(cs, L, R, k, s0, b0, saved, buffer);
    }
    assert L[..|L|] == L;
    ghost var all := saved + buffer;
    Q := Flush(saved, buffer);
    DominatesTrans(L, all, Q);
    DominatesTrans(R, all, Q);
    ConsensusKept(cs, L, R, all, Q);
    forall q | q in Q ensures Merged(cs, L, R, q) {
      var r := WithParts(all, q.parts);
      assert Merged(cs, L, R, r);
    }
  }

  lemma CollectedFirst(cs: Shape, L: seq<Cube>, R: seq<Cube>, saved: seq<Cube>)
    requires PartsFrom(saved, L + R) && Dominates(saved, L + R) && Contained(saved)
    ensures Collected(cs, L, R, saved, [])
  {
    assert saved + [] == saved;
    DominatesSelf(L, L + R);
    DominatesSelf(R, L + R);
    DominatesTrans(L, L + R, saved);
    DominatesTrans(R, L + R, saved);
    forall q | q in saved ensures Merged(cs, L, R, q) {
      var c := WithParts(L + R, q.parts);
      assert c in L || c in R;
    }
  }

  lemma CollectedRow(cs: Shape, L: seq<Cube>, R: seq<Cube>, k: nat, s0: seq<Cube>, b0: seq<Cube>, s: seq<Cube>,
                     b: seq<Cube>)
    requires k < |L| && Collected(cs, L, R, s0, b0) && ConsensusWithin(cs, L[..k], R, s0 + b0)
    requires Contained(s) && Grown(cs, s0 + b0, L[k], R, s + b) && ConsensusWithin(cs, [L[k]], R, s + b)
    ensures Collected(cs, L, R, s, b) && ConsensusWithin(cs, L[..k + 1], R, s + b)
  {
    DominatesTrans(L, s0 + b0, s + b);
    DominatesTrans(R, s0 + b0, s + b);
    ConsensusKept(cs, L[..k], R, s0 + b0, s + b);
    assert L[..k + 1] == L[..k] + [L[k]];
    assert L[k] in L;
    forall x, y | x in L[..k + 1] && y in R && AtDistance1(cs, x, y)
      ensures Within(ConsensusSet(cs, x.parts, y.parts), s + b)
    {
      assert x in L[..k] || x in [L[k]];
    }
    forall q | q in s + b ensures Merged(cs, L, R, q) {
      if HasParts(s0 + b0, q.parts) {
        var r := WithParts(s0 + b0, q.parts);
        assert Merged(cs, L, R, r);
      } else {
        assert Merged(cs, [L[k]], R, q);
      }
    }
  }

  // ---------- the two halves together ----------

  /** A minterm of the whole domain on the side of h is a minterm of the domain of that half. */
  lemma HalfDomain(cs: Shape, cof: set<nat>, v: nat, h: set<nat>, m: seq<nat>)
    requires v < cs.numVars && Half(cs, cof, v, h) && OnDom(cs, cof, m) && m[v] in h
    ensures OnDom(cs, cof + (cs.fullset - h), m)
  {
    forall u | 0 <= u < cs.numVars ensures m[u] !in cof + (cs.fullset - h) {
      HalfCof(cs, cof, v, h, u, m[u]);
    }
  }

  /** The cubes of one half, cut down to it, are implicants of the whole. */
  lemma HalfImplicant(cs: Shape, s: seq<Cube>, cof: set<nat>, v: nat, h: set<nat>, q: set<nat>)
    requires v < cs.numVars && Half(cs, cof, v, h)
    requires Implicant(cs, MeetingIn(cs, s, h, v), cof + (cs.fullset - h), q)
    ensures Implicant(cs, s, cof, q * h)
  {
    var r, f := MeetingIn(cs, s, h, v), cof + (cs.fullset - h);
    forall m | OnDom(cs, cof, m) && In(m, q * h) ensures CoveredBy(m, s, cof, All) {
      assert m[v] in q * h;
      HalfDomain(cs, cof, v, h, m);
      assert CoveredBy(m, r, f, All);
      var c :| c in r && In(m, c.parts + f);
      HalfToWhole(cs, s, cof, v, h, m, c);
    }
  }

  /** L holds the implicants of the half h, cut down to it. */
  ghost predicate HalfImplicants(cs: Shape, s: seq<Cube>, cof: set<nat>, v: nat, h: set<nat>, L: seq<Cube>)
    requires v < cs.numVars
  {
    && (forall l :: l in L ==>
      l.parts <= h && l.parts <= cs.fullset && NonVoid(cs, l.parts) && Implicant(cs, s, cof, l.parts))
    && (forall p {:trigger Within(p * h, L)} ::
          DomImplicant(cs, s, cof, p) && NonVoid(cs, p * h) ==> Within(p * h, L))
  }

  /** An implicant of the whole, cut down to one half, lies within a cube found for that half. */
  lemma HalfContains(cs: Shape, s: seq<Cube>, cof: set<nat>, v: nat, h: set<nat>, Q: seq<Cube>, L: seq<Cube>,
                     p: set<nat>)
    requires v < cs.numVars && Half(cs, cof, v, h) && DomImplicant(cs, s, cof, p) && NonVoid(cs, p * h)
    requires Generates(cs, MeetingIn(cs, s, h, v), cof + (cs.fullset - h), Q) && Restricted(cs, Q, h, L)
    ensures Within(p * h, L)
  {
    var r, f := MeetingIn(cs, s, h, v), cof + (cs.fullset - h);
    forall m | OnDom(cs, f, m) && In(m, p * h) ensures CoveredBy(m, r, f, All) {
      assert m[v] in p * h;
      assert CoveredBy(m, s, cof, All);
      var c :| c in s && In(m, c.parts + cof);
      WholeToHalf(cs, s, cof, v, h, m, c);
    }
    assert DomImplicant(cs, r, f, p * h);
    assert Within(p * h, Q);
    var q :| q in Q && p * h <= q.parts;
    forall u | 0 <= u < cs.numVars ensures q.parts * h * cs.varMask[u] != {} {
      var i :| i in p * h * cs.varMask[u];
      assert i in q.parts * h * cs.varMask[u];
    }
    assert Within(q.parts * h, L);
    var l :| l in L && q.parts * h <= l.parts;
  }

  lemma HalfGenerates(cs: Shape, s: seq<Cube>, cof: set<nat>, v: nat, h: set<nat>, Q: seq<Cube>, L: seq<Cube>)
    requires v < cs.numVars && Half(cs, cof, v, h)
    requires Generates(cs, MeetingIn(cs, s, h, v), cof + (cs.fullset - h), Q) && Restricted(cs, Q, h, L)
    ensures HalfImplicants(cs, s, cof, v, h, L)
  {
    forall l | l in L
      ensures l.parts <= h && l.parts <= cs.fullset && NonVoid(cs, l.parts) && Implicant(cs, s, cof, l.parts)
    {
      var q :| q in Q && l.parts == q.parts * h;
      HalfImplicant(cs, s, cof, v, h, q.parts);
    }
    forall p | DomImplicant(cs, s, cof, p) && NonVoid(cs, p * h) ensures Within(p * h, L) {
      HalfContains(cs, s, cof, v, h, Q, L, p);
    }
  }

  /** A cube of the left half and one of the right half conflict in the split variable. */
  lemma HalvesConflict(cs: Shape, cof: set<nat>, v: nat, cl: set<nat>, cr: set<nat>, a: set<nat>, b: set<nat>)
    requires v < cs.numVars && SplitCubes(cs, cof, v, cl, cr) && a <= cl && b <= cr
    ensures ConflictIn(cs, a, b, v)
    ensures Distance(cs, a, b, cs.numVars) == 1 ==> OnlyConflict(cs, a, b, v, cs.numVars)
  {
    assert a * b * cs.varMask[v] <= cl * cr * cs.varMask[v] == {};
    assert ConflictIn(cs, a, b, v);
    if Distance(cs, a, b, cs.numVars) == 1 {
      var w := OneConflict(cs, a, b, cs.numVars);
      assert w == v;
    }
  }

  /** The consensus of two cubes with a single conflict holds nothing but minterms of the two. */
  lemma ConsensusHolds(cs: Shape, a: set<nat>, b: set<nat>, v: nat, m: seq<nat>)
    requires OnlyConflict(cs, a, b, v, cs.numVars) && cs.Minterm(m) && In(m, ConsensusSet(cs, a, b))
    ensures In(m, a) || In(m, b)
  {
    forall u | 0 <= u < cs.numVars ensures u != v ==> m[u] in a && m[u] in b {
      assert m[u] in cs.varMask[u] && m[u] in ConsensusSet(cs, a, b);
    }
    assert m[v] in cs.varMask[v] && m[v] in ConsensusSet(cs, a, b);
  }

  /** ... and contains every cube whose two halves they contain. */
  lemma ConsensusContains(cs: Shape, cof: set<nat>, v: nat, cl: set<nat>, cr: set<nat>, p: set<nat>, a: set<nat>,
                          b: set<nat>)
    requires v < cs.numVars && SplitCubes(cs, cof, v, cl, cr)
    requires p <= cs.fullset - cof && NonVoid(cs, p) && p * cl <= a && p * cr <= b && a <= cl && b <= cr
    ensures Distance(cs, a, b, cs.numVars) == 1 && p <= ConsensusSet(cs, a, b)
  {
    HalvesConflict(cs, cof, v, cl, cr, a, b);
    forall u | 0 <= u < cs.numVars && u != v ensures !ConflictIn(cs, a, b, u) {
      var i :| i in p * cs.varMask[u];
      assert i in cs.fullset - cs.varMask[v];
      assert i in a * b * cs.varMask[u];
    }
    SingleConflict(cs, a, b, v, cs.numVars);
    forall i | i in p ensures i in ConsensusSet(cs, a, b) {
      assert i in cs.fullset && i in cs.varMask[cs.partVar[i]];
      if cs.partVar[i] != v {
        assert i in cs.fullset - cs.varMask[v];
        assert i in a && i in b;
      }
    }
  }

  /** Every merged cube is an implicant. */
  lemma MergedImplicant(cs: Shape, s: seq<Cube>, cof: set<nat>, v: nat, cl: set<nat>, cr: set<nat>,
                        L: seq<Cube>, R: seq<Cube>, q: Cube)
    requires v < cs.numVars && SplitCubes(cs, cof, v, cl, cr)
    requires HalfImplicants(cs, s, cof, v, cl, L) && HalfImplicants(cs, s, cof, v, cr, R) && Merged(cs, L, R, q)
    ensures q.parts <= cs.fullset && NonVoid(cs, q.parts) && Implicant(cs, s, cof, q.parts)
  {
    if !HasParts(L, q.parts) && !HasParts(R, q.parts) {
      var a, b :| a in L && b in R && AtDistance1(cs, a, b) && q.parts == ConsensusSet(cs, a.parts, b.parts);
      HalvesConflict(cs, cof, v, cl, cr, a.parts, b.parts);
      ConsensusNonVoid(cs, a.parts, b.parts);
      forall m | OnDom(cs, cof, m) && In(m, q.parts) ensures CoveredBy(m, s, cof, All) {
        ConsensusHolds(cs, a.parts, b.parts, v, m);
      }
    }
  }

  lemma ConsensusNonVoid(cs: Shape, a: set<nat>, b: set<nat>)
    requires NonVoid(cs, a)
    ensures NonVoid(cs, ConsensusSet(cs, a, b))
  {
    forall u | 0 <= u < cs.numVars ensures ConsensusSet(cs, a, b) * cs.varMask[u] != {} {
      var i :| i in if ConflictIn(cs, a, b, u) then a * cs.varMask[u] else a * b * cs.varMask[u];
      assert i in cs.varMask[u] && i in ConsensusSet(cs, a, b);
    }
  }

  /** Every implicant lies within a merged cube. */
  lemma MergedContains(cs: Shape, s: seq<Cube>, cof: set<nat>, v: nat, cl: set<nat>, cr: set<nat>,
                       L: seq<Cube>, R: seq<Cube>, Q: seq<Cube>, p: set<nat>)
    requires v < cs.numVars && SplitCubes(cs, cof, v, cl, cr)
    requires HalfImplicants(cs, s, cof, v, cl, L) && HalfImplicants(cs, s, cof, v, cr, R)
    requires Dominates(Q, L) && Dominates(Q, R) && ConsensusWithin(cs, L, R, Q)
    requires DomImplicant(cs, s, cof, p)
    ensures Within(p, Q)
  {
    OneSided(cs, cof, v, cl, cr, p);
    if !NonVoid(cs, p * cr) {
      assert Within(p * cl, L);
      WithinTrans(p, L, Q);
    } else if !NonVoid(cs, p * cl) {
      assert Within(p * cr, R);
      WithinTrans(p, R, Q);
    } else {
      assert Within(p * cl, L) && Within(p * cr, R);
      var a :| a in L && p * cl <= a.parts;
      var b :| b in R && p * cr <= b.parts;
      ConsensusContains(cs, cof, v, cl, cr, p, a.parts, b.parts);
      assert AtDistance1(cs, a, b);
      var q :| q in Q && ConsensusSet(cs, a.parts, b.parts) <= q.parts;
    }
  }

  lemma MergeGenerates(cs: Shape, s: seq<Cube>, cof: set<nat>, v: nat, cl: set<nat>, cr: set<nat>,
                       L: seq<Cube>, R: seq<Cube>, Q: seq<Cube>)
    requires v < cs.numVars && SplitCubes(cs, cof, v, cl, cr)
    requires HalfImplicants(cs, s, cof, v, cl, L) && HalfImplicants(cs, s, cof, v, cr, R)
    requires forall q :: q in Q ==> Merged(cs, L, R, q)
    requires Dominates(Q, L) && Dominates(Q, R) && ConsensusWithin(cs, L, R, Q)
    ensures Generates(cs, s, cof, Q) && forall q :: q in Q ==> NonVoid(cs, q.parts)
  {
    forall q | q in Q ensures q.parts <= cs.fullset && NonVoid(cs, q.parts) && Implicant(cs, s, cof, q.parts) {
      MergedImplicant(cs, s, cof, v, cl, cr, L, R, q);
    }
    forall p | DomImplicant(cs, s, cof, p) ensures Within(p, Q) {
      MergedContains(cs, s, cof, v, cl, cr, L, R, Q, p);
    }
  }

  /** A cube of the domain that has no part in one half lies in the other. */
  lemma OneSided(cs: Shape, cof: set<nat>, v: nat, cl: set<nat>, cr: set<nat>, p: set<nat>)
    requires v < cs.numVars && SplitCubes(cs, cof, v, cl, cr) && p <= cs.fullset - cof && NonVoid(cs, p)
    ensures !NonVoid(cs, p * cr) ==> p * cl == p
    ensures !NonVoid(cs, p * cl) ==> p * cr == p
  {
    VoidHalf(cs, cof, v, cl, cr, p);
    VoidHalf(cs, cof, v, cr, cl, p);
  }

  lemma VoidHalf(cs: Shape, cof: set<nat>, v: nat, cl: set<nat>, cr: set<nat>, p: set<nat>)
    requires v < cs.numVars && SplitCubes(cs, cof, v, cl, cr) && p <= cs.fullset - cof && NonVoid(cs, p)
    ensures !NonVoid(cs, p * cr) ==> p * cl == p
  {
    if !NonVoid(cs, p * cr) {
      var u :| 0 <= u < cs.numVars && p * cr * cs.varMask[u] == {};
      var j :| j in p * cs.varMask[u];
      assert j !in p * cr * cs.varMask[u];
      assert j !in cs.fullset - cs.varMask[v];
      assert u == v;
      forall i | i in p ensures i in cl {
        assert i !in p * cr * cs.varMask[v];
        assert i !in cs.varMask[v] ==> i in cs.fullset - cs.varMask[v];
      }
    }
  }

  // ---------- primes_consensus ----------

  /** Variable v has at most two parts, or every part of it is used by some cube. */
  ghost predicate NoWideZero(cs: Shape, cubes: seq<Cube>, cof: set<nat>, v: nat)
    requires v < cs.numVars
  {
    cs.varMask[v] <= Ceiling(cubes, cof) || |cs.varMask[v]| <= 2
  }

  /** No part of a variable with more than two parts is missing from every cube. */
  ghost predicate NoWideZeroColumn(cs: Shape, cubes: seq<Cube>, cof: set<nat>) {
    forall v :: 0 <= v < cs.numVars ==> NoWideZero(cs, cubes, cof, v)
  }

  /** Every cube has a part of variable v. */
  ghost predicate AllMeet(cs: Shape, Q: seq<Cube>, v: nat)
    requires v < cs.numVars
  {
    forall q :: q in Q ==> q.parts * cs.varMask[v] != {}
  }

  ghost predicate AllNonVoid(cs: Shape, Q: seq<Cube>, cof: set<nat>) {
    forall q :: q in Q ==> NonVoid(cs, q.parts + cof)
  }

  ghost predicate AllFull(cs: Shape, Q: seq<Cube>, cof: set<nat>, v: nat)
    requires v < cs.numVars
  {
    forall q :: q in Q ==> FullIn(cs, q.parts + cof, v)
  }

  /** A variable in which no cube is active stays full. */
  ghost predicate KeepsFull(cs: Shape, cubes: seq<Cube>, cof: set<nat>, Q: seq<Cube>) {
    forall v {:trigger AllFull(cs, Q, {}, v)} :: 0 <= v < cs.numVars && AllFull(cs, cubes, cof, v) ==>
      AllFull(cs, Q, {}, v)
  }

  /** Variables with more than two parts are full in every cube. */
  ghost predicate Narrow(cs: Shape, cubes: seq<Cube>, cof: set<nat>) {
    forall v :: 0 <= v < cs.numVars ==> |cs.varMask[v]| <= 2 || AllFull(cs, cubes, cof, v)
  }

  lemma NarrowAbove(cs: Shape, cubes: seq<Cube>, cof: set<nat>, cubes': seq<Cube>, cof': set<nat>)
    requires Narrow(cs, cubes, cof) && cof <= cof' && forall c :: c in cubes' ==> c in cubes
    ensures Narrow(cs, cubes', cof')
  {
    forall v, c | 0 <= v < cs.numVars && AllFull(cs, cubes, cof, v) && c in cubes'
      ensures FullIn(cs, c.parts + cof', v)
    {
      assert FullIn(cs, c.parts + cof, v);
    }
  }

  ghost predicate Above(cof: set<nat>, Q: seq<Cube>) {
    forall q :: q in Q ==> cof <= q.parts
  }

  /** What primes_consensus makes of the cubelist (cubes, cof). */
  ghost predicate PrimeCover(cs: Shape, cubes: seq<Cube>, cof: set<nat>, Q: seq<Cube>) {
    && Generates(cs, cubes, cof, Q)
    && KeepsFull(cs, cubes, cof, Q)
    && (AllNonVoid(cs, cubes, cof) ==>
          forall v :: 0 <= v < cs.numVars && NoWideZero(cs, cubes, cof, v) ==> AllMeet(cs, Q, v))
    && (Narrow(cs, cubes, cof) ==> Antichain(Q) && Above(cof, Q))
  }

  ghost predicate Fits(cs: Shape, cubes: seq<Cube>, cof: set<nat>) {
    cof <= cs.fullset && forall c :: c in cubes ==> c.parts <= cs.fullset
  }

  lemma FullNonVoid(cs: Shape)
    ensures NonVoid(cs, cs.fullset)
  {
    forall v | 0 <= v < cs.numVars ensures cs.fullset * cs.varMask[v] != {} {
      assert cs.firstPart[v] in cs.varMask[v];
      assert cs.firstPart[v] in cs.fullset * cs.varMask[v];
    }
  }

  lemma EverythingCover(cs: Shape, cubes: seq<Cube>, cof: set<nat>)
    requires Tautologous(cs, cubes, cof, All) && cof <= cs.fullset
    ensures PrimeCover(cs, cubes, cof, [MkCube(cs.fullset)])
  {
    Everything(cs, cubes, cof);
    FullNonVoid(cs);
    var Q := [MkCube(cs.fullset)];
    forall q | q in Q ensures q.parts + {} == cs.fullset {
    }
    forall v | 0 <= v < cs.numVars ensures AllFull(cs, Q, {}, v) {
      forall i | i in cs.varMask[v] ensures i in cs.fullset {
      }
    }
  }

  /** The cubes of Q are some of the input cubes, or-ed with cof. */
  lemma LeafCover(cs: Shape, cubes: seq<Cube>, cof: set<nat>, Q: seq<Cube>)
    requires Generates(cs, cubes, cof, Q) && Antichain(Q)
    requires forall q :: q in Q ==> exists c :: c in cubes && q.parts == c.parts + cof
    ensures PrimeCover(cs, cubes, cof, Q)
  {
    forall q | q in Q ensures q.parts + {} == q.parts {
    }
  }

  /** cubeunlist */
  method CubeUnlist(T: CubeList) returns (A: seq<Cube>)
    ensures |A| == |T.cubes| && forall k :: 0 <= k < |A| ==> A[k].parts == T.cubes[k].parts + T.cof
  {
    A := [];
    for k := 0 to |T.cubes|
      invariant |A| == k && forall j :: 0 <= j < k ==> A[j].parts == T.cubes[j].parts + T.cof
    {
      A := A + [MkCube(T.cubes[k].parts + T.cof)];
    }
  }

  // ---------- the run on two cubes ----------

  /** massive_count chooses v, and the list is neither unate nor active in a single variable. */
  ghost predicate SplitsOn(cs: Shape, s: seq<Cube>, cof: set<nat>, v: nat) {
    forall cd :: CountsOf(cs, s, cof, cd) && BestChosen(cs, cd) ==>
      cd.best == v && cd.varsActive != 1 && cd.varsUnate != cd.varsActive
  }

  /** Two cubes, none of them full, that conflict only in the binary variable v they are split on. */
  ghost predicate TwoApart(cs: Shape, s: seq<Cube>, cof: set<nat>, v: nat) {
    && |s| == 2 && v < cs.numBinaryVars && SplitsOn(cs, s, cof, v)
    && var a, b := s[0].parts + cof, s[1].parts + cof;
       && a + b == cs.fullset && a != cs.fullset && b != cs.fullset
       && NonVoid(cs, a) && NonVoid(cs, b)
       && ConflictIn(cs, a, b, v) && Distance(cs, a, b, cs.numVars) == 1
  }

  /** What the consensus of two cubes or-ed with cof holds. */
  ghost function PairConsensus(cs: Shape, s: seq<Cube>, cof: set<nat>): set<nat>
    requires |s| == 2
  {
    ConsensusSet(cs, s[0].parts + cof, s[1].parts + cof)
  }

  /** Two cubes with columns of zeros, which are factored out first. */
  ghost predicate Factored(cs: Shape, s: seq<Cube>, cof: set<nat>) {
    |s| == 2 && Ceiling(s, cof) != cs.fullset && forall c :: c in s ==> !FullRow(cs, c.parts, cof)
  }

  /** How primes_consensus runs on one cube, and on two. */
  ghost predicate PrimeRun(cs: Shape, s: seq<Cube>, cof: set<nat>, Q: seq<Cube>) {
    && (|s| == 1 ==> |Q| == 1 && Q[0].parts == cof + s[0].parts)
    && (forall v {:trigger TwoApart(cs, s, cof, v)} :: TwoApart(cs, s, cof, v) ==>
      HasParts(Q, PairConsensus(cs, s, cof)))
    && (Factored(cs, s, cof) ==>
          var f := cof + (cs.fullset - Ceiling(s, cof));
          forall v {:trigger TwoApart(cs, s, f, v)} :: TwoApart(cs, s, f, v) ==>
            HasParts(Q, PairConsensus(cs, s, f) * Ceiling(s, cof)))
  }

  lemma FactoredFound(cs: Shape, s: seq<Cube>, cof: set<nat>, Q: seq<Cube>, f: set<nat>, v: nat)
    requires PrimeRun(cs, s, cof, Q) && Factored(cs, s, cof) && f == cof + (cs.fullset - Ceiling(s, cof)) &&
      TwoApart(cs, s, f, v)
    ensures HasParts(Q, PairConsensus(cs, s, f) * Ceiling(s, cof))
  {
  }

  lemma ConsensusSym(cs: Shape, a: set<nat>, b: set<nat>)
    ensures ConsensusSet(cs, a, b) == ConsensusSet(cs, b, a)
  {
    forall v | 0 <= v < cs.numVars ensures ConflictIn(cs, a, b, v) <==> ConflictIn(cs, b, a, v) {
      assert a * b * cs.varMask[v] == b * a * cs.varMask[v];
    }
  }

  lemma CeilingOfTwo(s: seq<Cube>, cof: set<nat>)
    requires |s| == 2
    ensures Ceiling(s, cof) == (s[0].parts + cof) + (s[1].parts + cof)
  {
    assert s[..1] == [s[0]];
    assert s[..1][..0] == [];
  }

  lemma FullMember(cs: Shape, s: seq<Cube>, cof: set<nat>) returns (k: nat)
    requires Fits(cs, s, cof) && exists c :: c in s && FullRow(cs, c.parts, cof)
    ensures k < |s| && FullRow(cs, s[k].parts, cof) && s[k].parts + cof == cs.fullset
  {
    var c :| c in s && FullRow(cs, c.parts, cof);
    k := Position(s, c);
  }

  /** No split where one of the other cases applies. */
  lemma NoSplitRun(cs: Shape, s: seq<Cube>, cof: set<nat>, Q: seq<Cube>)
    requires Fits(cs, s, cof)
    requires |s| == 0 || (|s| >= 2 && exists c :: c in s && FullRow(cs, c.parts, cof))
    ensures PrimeRun(cs, s, cof, Q)
  {
    if |s| == 2 {
      var k := FullMember(cs, s, cof);
      assert !Factored(cs, s, cof) by { assert s[k] in s; }
      forall v ensures !TwoApart(cs, s, cof, v) {
        assert k == 0 || k == 1;
      }
    }
  }

  lemma LeafRun(cs: Shape, s: seq<Cube>, cof: set<nat>, cd: CData, Q: seq<Cube>)
    requires |s| >= 2 && Ceiling(s, cof) == cs.fullset && CountsOf(cs, s, cof, cd) && BestChosen(cs, cd)
    requires cd.varsActive == 1 || cd.varsUnate == cd.varsActive
    ensures PrimeRun(cs, s, cof, Q)
  {
  }

  /** The consensus found for the list with the zero columns in cof, cut down with all others. */
  lemma FactoredRun(cs: Shape, s: seq<Cube>, cof: set<nat>, Q: seq<Cube>, R: seq<Cube>)
    requires |s| >= 2 && Ceiling(s, cof) != cs.fullset && CutBy(Q, Ceiling(s, cof), R)
    requires PrimeRun(cs, s, cof + (cs.fullset - Ceiling(s, cof)), Q)
    ensures PrimeRun(cs, s, cof, R)
  {
    if |s| == 2 {
      CeilingOfTwo(s, cof);
    }
    var f := cof + (cs.fullset - Ceiling(s, cof));
    forall v | Factored(cs, s, cof) && TwoApart(cs, s, f, v)
      ensures HasParts(R, PairConsensus(cs, s, f) * Ceiling(s, cof))
    {
      var q := WithParts(Q, PairConsensus(cs, s, f));
      var k := Position(Q, q);
      assert R[k] in R;
    }
  }

  /** In the half h there is only the cube that has its part of v. */
  lemma OneMeets(cs: Shape, s: seq<Cube>, h: set<nat>, v: nat, k: nat)
    requires |s| == 2 && k < 2 && v < cs.numVars
    requires s[k].parts * (cs.varMask[v] * h) != {} && s[1 - k].parts * (cs.varMask[v] * h) == {}
    ensures MeetingIn(cs, s, h, v) == [s[k]]
  {
    assert s[..1] == [s[0]];
    assert s[..1][..0] == [];
  }

  /** Cut down to its half, that cube is what it was. */
  lemma HalfIsCube(cs: Shape, a: set<nat>, h: set<nat>, Ql: seq<Cube>, L: seq<Cube>)
    requires |Ql| == 1 && Ql[0].parts * h == a && Restricted(cs, Ql, h, L) && NonVoid(cs, a)
    ensures (forall r :: r in L ==> r.parts == a) && HasParts(L, a)
  {
    hide NonVoid, Within;
    forall r | r in L ensures r.parts == a {
      var q :| q in Ql && r.parts == q.parts * h;
      var k := Position(Ql, q);
    }
    assert Ql[0] in Ql && Within(a, L);
    var r := Container(L, a);
    assert r.parts == a;
  }

  lemma HalfParts(cs: Shape, p: set<nat>, cof: set<nat>, h: set<nat>)
    requires p + cof <= h <= cs.fullset
    ensures (cof + (cs.fullset - h) + p) * h == p + cof
  {
  }

  /** Which of the two cubes has the part of the half h. */
  lemma CubeOfHalf(cs: Shape, s: seq<Cube>, cof: set<nat>, v: nat, h: set<nat>) returns (k: nat)
    requires |s| == 2 && v < cs.numBinaryVars && Half(cs, cof, v, h) && |cs.varMask[v] * h| == 1
    requires var a, b := s[0].parts + cof, s[1].parts + cof;
             a + b == cs.fullset && NonVoid(cs, a) && NonVoid(cs, b) && ConflictIn(cs, a, b, v)
    ensures k < 2 && MeetingIn(cs, s, h, v) == [s[k]] && s[k].parts + cof <= h
    ensures exists x :: cs.varMask[v] * h == {x} && x in s[k].parts
  {
    hide Half, MeetingIn, NonVoid;
    var a, b := s[0].parts + cof, s[1].parts + cof;
    var x, y := PartsOfHalf(cs, cof, v, h);
    assert x in a + b;
    OtherPart(cs, a, b, v, x, y);
    OtherPart(cs, b, a, v, x, y);
    k := if x in a then 0 else 1;
    OneMeetsPart(cs, s, h, v, k, x);
    PartOfHalf(cs, s[k].parts + cof, v, h, x, y);
  }

  /** The part of the half, and the other one. */
  lemma PartsOfHalf(cs: Shape, cof: set<nat>, v: nat, h: set<nat>) returns (x: nat, y: nat)
    requires v < cs.numBinaryVars && Half(cs, cof, v, h) && |cs.varMask[v] * h| == 1
    ensures cs.varMask[v] == {x, y} && x != y && cs.varMask[v] * h == {x} && x !in cof && x in cs.fullset
    ensures cs.fullset - cs.varMask[v] <= h && x in h
  {
    x :| x in cs.varMask[v] * h;
    SubsetCard({x}, cs.varMask[v] * h);
    var f := cs.firstPart[v];
    assert cs.varMask[v] == {f, f + 1};
    y := if x == f then f + 1 else f;
  }

  lemma PartOfHalf(cs: Shape, a: set<nat>, v: nat, h: set<nat>, x: nat, y: nat)
    requires v < cs.numVars && cs.varMask[v] == {x, y} && x in h && y !in a && a <= cs.fullset &&
      cs.fullset - cs.varMask[v] <= h
    ensures a <= h
  {
    forall i | i in a ensures i in h {
      assert i in cs.varMask[v] ==> i == x;
    }
  }

  lemma OneMeetsPart(cs: Shape, s: seq<Cube>, h: set<nat>, v: nat, k: nat, x: nat)
    requires |s| == 2 && k < 2 && v < cs.numVars && cs.varMask[v] * h == {x} && x in s[k].parts && x !in s[1 - k].parts
    ensures MeetingIn(cs, s, h, v) == [s[k]]
  {
    assert x in s[k].parts * (cs.varMask[v] * h);
    OneMeets(cs, s, h, v, k);
  }

  /** Of the two parts of v each cube has one. */
  lemma OtherPart(cs: Shape, a: set<nat>, b: set<nat>, v: nat, x: nat, y: nat)
    requires v < cs.numVars && cs.varMask[v] == {x, y} && x != y && NonVoid(cs, a) && NonVoid(cs, b)
    requires a * b * cs.varMask[v] == {}
    ensures x in a ==> x !in b && y !in a && y in b
  {
    var i :| i in a * cs.varMask[v];
    var j :| j in b * cs.varMask[v];
    assert i !in a * b * cs.varMask[v] && j !in a * b * cs.varMask[v];
  }

  method UnateLeafPrimes(cs: Shape, T: CubeList, cd: CData) returns (Q: seq<Cube>)
    requires CountsOf(cs, T.cubes, T.cof, cd) && cd.varsUnate == cd.varsActive && Fits(cs, T.cubes, T.cof)
    ensures PrimeCover(cs, T.cubes, T.cof, Q)
  {
    var A := CubeUnlist(T);
    Q := SfContain(A);
    UnateGenerates(cs, T.cubes, T.cof, cd, A, Q);
    forall q | q in Q ensures exists c :: c in T.cubes && q.parts == c.parts + T.cof {
      var a := WithParts(A, q.parts);
      var k := Position(A, a);
      assert T.cubes[k] in T.cubes;
    }
    LeafCover(cs, T.cubes, T.cof, Q);
  }

  // ---------- zero columns, again ----------

  lemma CutMember(Q: seq<Cube>, ceil: set<nat>, R: seq<Cube>, r: Cube) returns (q: Cube)
    requires CutBy(Q, ceil, R) && r in R
    ensures q in Q && r.parts == q.parts * ceil
  {
    var k :| 0 <= k < |R| && R[k] == r;
    q := Q[k];
  }

  lemma CutKeepsFull(cs: Shape, cubes: seq<Cube>, cof: set<nat>, Q: seq<Cube>, R: seq<Cube>)
    requires cubes != []
    requires var ceil := Ceiling(cubes, cof); KeepsFull(cs, cubes, cof + (cs.fullset - ceil), Q) && CutBy(Q, ceil, R)
    ensures KeepsFull(cs, cubes, cof, R)
  {
    var ceil := Ceiling(cubes, cof);
    var cof' := cof + (cs.fullset - ceil);
    forall v | 0 <= v < cs.numVars && AllFull(cs, cubes, cof, v) ensures AllFull(cs, R, {}, v) {
      assert AllFull(cs, cubes, cof', v);
      assert AllFull(cs, Q, {}, v);
      assert cubes[0] in cubes && FullIn(cs, cubes[0].parts + cof, v);
      forall r | r in R ensures FullIn(cs, r.parts + {}, v) {
        var q := CutMember(Q, ceil, R, r);
        assert FullIn(cs, q.parts + {}, v);
      }
    }
  }

  /** In a variable with at most two parts and a zero column every nonvoid cube has the other part. */
  lemma NarrowZeroColumn(cs: Shape, cubes: seq<Cube>, cof: set<nat>, v: nat, i: nat) returns (j: nat)
    requires v < cs.numVars && i in cs.varMask[v] && i !in Ceiling(cubes, cof) && |cs.varMask[v]| <= 2
    requires cubes != [] && AllNonVoid(cs, cubes, cof)
    ensures j in cs.varMask[v] && j in Ceiling(cubes, cof)
    ensures AllFull(cs, cubes, cof + (cs.fullset - Ceiling(cubes, cof)), v)
  {
    assert cubes[0] in cubes;
    j :| j in (cubes[0].parts + cof) * cs.varMask[v];
    assert j in Ceiling(cubes, cof) && i != j;
    SubsetCard({i, j}, cs.varMask[v]);
    assert cs.varMask[v] == {i, j};
    forall c | c in cubes ensures FullIn(cs, c.parts + (cof + (cs.fullset - Ceiling(cubes, cof))), v) {
      var k :| k in (c.parts + cof) * cs.varMask[v];
      assert k in Ceiling(cubes, cof) && k == j;
      assert i in cs.fullset;
    }
  }

  lemma CutNonVoid(cs: Shape, cubes: seq<Cube>, cof: set<nat>, Q: seq<Cube>, R: seq<Cube>, v: nat)
    requires v < cs.numVars && cubes != [] && AllNonVoid(cs, cubes, cof) && NoWideZero(cs, cubes, cof, v)
    requires var ceil := Ceiling(cubes, cof); PrimeCover(cs, cubes, cof + (cs.fullset - ceil), Q) && CutBy(Q, ceil, R)
    ensures AllMeet(cs, R, v)
  {
    var ceil := Ceiling(cubes, cof);
    var cof' := cof + (cs.fullset - ceil);
    NonVoidAbove(cs, cubes, cof, cof');
    assert cs.varMask[v] <= Ceiling(cubes, cof');
    assert NoWideZero(cs, cubes, cof', v);
    assert AllMeet(cs, Q, v);
    forall r | r in R ensures r.parts * cs.varMask[v] != {} {
      var q := CutMember(Q, ceil, R, r);
      if cs.varMask[v] <= ceil {
        var k :| k in q.parts * cs.varMask[v];
        assert k in r.parts * cs.varMask[v];
      } else {
        var i :| i in cs.varMask[v] && i !in ceil;
        var j := NarrowZeroColumn(cs, cubes, cof, v, i);
        assert AllFull(cs, Q, {}, v);
        assert FullIn(cs, q.parts + {}, v);
        assert j in r.parts * cs.varMask[v];
      }
    }
  }

  lemma NonVoidAbove(cs: Shape, cubes: seq<Cube>, cof: set<nat>, cof': set<nat>)
    requires AllNonVoid(cs, cubes, cof) && cof <= cof'
    ensures AllNonVoid(cs, cubes, cof')
  {
    forall c, v | c in cubes && 0 <= v < cs.numVars ensures (c.parts + cof') * cs.varMask[v] != {} {
      var i :| i in (c.parts + cof) * cs.varMask[v];
      assert i in (c.parts + cof') * cs.varMask[v];
    }
  }

  lemma CutCover(cs: Shape, cubes: seq<Cube>, cof: set<nat>, Q: seq<Cube>, R: seq<Cube>)
    requires cubes != [] && Fits(cs, cubes, cof)
    requires var ceil := Ceiling(cubes, cof); PrimeCover(cs, cubes, cof + (cs.fullset - ceil), Q) && CutBy(Q, ceil, R)
    ensures PrimeCover(cs, cubes, cof, R)
  {
    var ceil := Ceiling(cubes, cof);
    ZeroColumnGenerates(cs, cubes, cof, Q, R);
    CutKeepsFull(cs, cubes, cof, Q, R);
    if AllNonVoid(cs, cubes, cof) {
      forall v | 0 <= v < cs.numVars && NoWideZero(cs, cubes, cof, v) ensures AllMeet(cs, R, v) {
        CutNonVoid(cs, cubes, cof, Q, R, v);
      }
    }
    if Narrow(cs, cubes, cof) {
      NarrowAbove(cs, cubes, cof, cubes, cof + (cs.fullset - ceil));
      forall k | 0 <= k < |Q| ensures cof <= R[k].parts && cs.fullset - ceil <= Q[k].parts <= cs.fullset {
        assert Q[k] in Q;
      }
      forall i, j | 0 <= i < |R| && 0 <= j < |R| && i != j ensures !(R[i].parts <= R[j].parts) {
        var x :| x in Q[i].parts && x !in Q[j].parts;
        assert x in R[i].parts && x !in R[j].parts;
      }
    }
  }

  // ---------- the split, again ----------

  lemma SplitKeepsFull(cs: Shape, s: seq<Cube>, cof: set<nat>, v: nat, h: set<nat>, Q: seq<Cube>, L: seq<Cube>)
    requires v < cs.numVars && Half(cs, cof, v, h) && !AllFull(cs, s, cof, v)
    requires KeepsFull(cs, MeetingIn(cs, s, h, v), cof + (cs.fullset - h), Q) && Restricted(cs, Q, h, L)
    ensures KeepsFull(cs, s, cof, L)
  {
    var r, f := MeetingIn(cs, s, h, v), cof + (cs.fullset - h);
    forall u | 0 <= u < cs.numVars && AllFull(cs, s, cof, u) ensures AllFull(cs, L, {}, u) {
      forall c | c in r ensures FullIn(cs, c.parts + f, u) {
        assert FullIn(cs, c.parts + cof, u);
      }
      assert AllFull(cs, r, f, u);
      assert AllFull(cs, Q, {}, u);
      forall l | l in L ensures FullIn(cs, l.parts + {}, u) {
        var q :| q in Q && l.parts == q.parts * h;
        assert FullIn(cs, q.parts + {}, u);
        forall i | i in cs.varMask[u] ensures i in l.parts {
          assert i in cs.fullset - cs.varMask[v];
        }
      }
    }
  }

  lemma MergedKeepsFull(cs: Shape, s: seq<Cube>, cof: set<nat>, L: seq<Cube>, R: seq<Cube>, Q: seq<Cube>)
    requires KeepsFull(cs, s, cof, L) && KeepsFull(cs, s, cof, R) && forall q :: q in Q ==> Merged(cs, L, R, q)
    ensures KeepsFull(cs, s, cof, Q)
  {
    forall u | 0 <= u < cs.numVars && AllFull(cs, s, cof, u) ensures AllFull(cs, Q, {}, u) {
      assert AllFull(cs, L, {}, u) && AllFull(cs, R, {}, u);
      forall q | q in Q && !HasParts(L, q.parts) && !HasParts(R, q.parts) ensures FullIn(cs, q.parts + {}, u) {
        var a, b :| a in L && b in R && AtDistance1(cs, a, b) && q.parts == ConsensusSet(cs, a.parts, b.parts);
        assert FullIn(cs, a.parts + {}, u) && FullIn(cs, b.parts + {}, u);
        forall i | i in cs.varMask[u] ensures i in q.parts {
          assert i in cs.fullset;
        }
      }
    }
  }

  lemma SplitAbove(cs: Shape, cof: set<nat>, v: nat, h: set<nat>, Q: seq<Cube>, L: seq<Cube>)
    requires v < cs.numVars && Half(cs, cof, v, h) && cof <= cs.fullset
    requires |cs.varMask[v]| <= 2 <= |cs.varMask[v] - cof|
    requires Above(cof + (cs.fullset - h), Q) && Restricted(cs, Q, h, L)
    ensures Above(cof, L)
  {
    SubsetCard(cs.varMask[v] - cof, cs.varMask[v]);
    forall l | l in L ensures cof <= l.parts {
      var q :| q in Q && l.parts == q.parts * h;
      forall i | i in cof ensures i in l.parts {
        assert i !in cs.varMask[v];
        assert i in cs.fullset - cs.varMask[v];
      }
    }
  }

  lemma MergedAbove(cs: Shape, cof: set<nat>, L: seq<Cube>, R: seq<Cube>, Q: seq<Cube>)
    requires cof <= cs.fullset && Above(cof, L) && Above(cof, R) && forall q :: q in Q ==> Merged(cs, L, R, q)
    ensures Above(cof, Q)
  {
  }

  lemma BestNotFull(cs: Shape, s: seq<Cube>, cof: set<nat>, cd: CData, v: nat)
    requires CountsOf(cs, s, cof, cd) && v < cs.numVars && cd.partsActive[v] >= 2
    ensures !AllFull(cs, s, cof, v)
  {
    var a := ActiveParts(cs, cd.partZeros, v);
    assert a != {};
    var i :| i in a;
    PartZeros(cs, s, cof, cd, i);
    var c :| c in s && i !in c.parts + cof;
    assert !FullIn(cs, c.parts + cof, v);
  }

  /** primes_consensus_merge -- the two halves, cut down and merged. */
  method PrimesConsensusMerge(cs: Shape, Tl: Cover, Tr: Cover, cl: set<nat>, cr: set<nat>,
                              ghost s: seq<Cube>, ghost cof: set<nat>, ghost v: nat)
    returns (Q: Cover, ghost L: seq<Cube>, ghost R: seq<Cube>)
    requires Tl != Tr && v < cs.numVars && SplitCubes(cs, cof, v, cl, cr) && Half(cs, cof, v, cl) &&
      Half(cs, cof, v, cr)
    requires Fits(cs, s, cof) && !AllFull(cs, s, cof, v) && |cs.varMask[v] - cof| >= 2
    requires PrimeCover(cs, MeetingIn(cs, s, cl, v), cof + (cs.fullset - cl), Tl.cubes)
    requires PrimeCover(cs, MeetingIn(cs, s, cr, v), cof + (cs.fullset - cr), Tr.cubes)
    modifies Tl, Tr
    ensures fresh(Q) && PrimeCover(cs, s, cof, Q.cubes)
    ensures Restricted(cs, old(Tl.cubes), cl, L) && Restricted(cs, old(Tr.cubes), cr, R)
    ensures (forall q :: q in Q.cubes ==> Merged(cs, L, R, q)) && ConsensusWithin(cs, L, R, Q.cubes)
  {
    ghost var Ql, Qr := Tl.cubes, Tr.cubes;
    AndWithCofactor(cs, Tl, cl);
    AndWithCofactor(cs, Tr, cr);
    var merged := MergeHalves(cs, Tl.cubes, Tr.cubes);
    MergedCover(cs, s, cof, v, cl, cr, Ql, Qr, Tl.cubes, Tr.cubes, merged);
    L, R := Tl.cubes, Tr.cubes;
    Q := new Cover(merged);
  }

  /** Two cubes apart: the halves are the cubes themselves, and their consensus is found. */
  lemma SplitRun(cs: Shape, s: seq<Cube>, cof: set<nat>, v: nat, cl: set<nat>, cr: set<nat>,
                 Ql: seq<Cube>, Qr: seq<Cube>, L: seq<Cube>, R: seq<Cube>, Q: seq<Cube>)
    requires TwoApart(cs, s, cof, v) && SplitCubes(cs, cof, v, cl, cr) && Half(cs, cof, v, cl) && Half(cs, cof, v, cr)
    requires |cs.varMask[v] * cl| == 1 && |cs.varMask[v] * cr| == 1 && Fits(cs, s, cof)
    requires PrimeRun(cs, MeetingIn(cs, s, cl, v), cof + (cs.fullset - cl), Ql) && Restricted(cs, Ql, cl, L)
    requires PrimeRun(cs, MeetingIn(cs, s, cr, v), cof + (cs.fullset - cr), Qr) && Restricted(cs, Qr, cr, R)
    requires (forall q :: q in Q ==> Merged(cs, L, R, q)) && ConsensusWithin(cs, L, R, Q)
    ensures HasParts(Q, PairConsensus(cs, s, cof))
  {
    var k := CubeOfHalf(cs, s, cof, v, cl);
    var j := CubeOfHalf(cs, s, cof, v, cr);
    var a, b := s[k].parts + cof, s[j].parts + cof;
    HalfParts(cs, s[k].parts, cof, cl);
    HalfParts(cs, s[j].parts, cof, cr);
    HalfIsCube(cs, a, cl, Ql, L);
    HalfIsCube(cs, b, cr, Qr, R);
    SplitSides(cs, s, cof, v, cl, cr, k, j);
    ConsensusSym(cs, a, b);
    assert PairConsensus(cs, s, cof) == ConsensusSet(cs, a, b);
    SingleConsensus(cs, L, R, Q, a, b, v);
  }

  lemma SplitSides(cs: Shape, s: seq<Cube>, cof: set<nat>, v: nat, cl: set<nat>, cr: set<nat>, k: nat, j: nat)
    requires TwoApart(cs, s, cof, v) && SplitCubes(cs, cof, v, cl, cr) && k < 2 && j < 2
    requires s[k].parts + cof <= cl && s[j].parts + cof <= cr
    ensures k != j && Distance(cs, s[k].parts + cof, s[j].parts + cof, cs.numVars) == 1
    ensures ConflictIn(cs, s[k].parts + cof, s[j].parts + cof, v)
  {
    var i :| i in (s[k].parts + cof) * cs.varMask[v];
    assert i in cl && i !in cr;
    DistanceSym(cs, s[k].parts + cof, s[j].parts + cof, cs.numVars);
    assert (s[k].parts + cof) * (s[j].parts + cof) * cs.varMask[v] == (s[j].parts + cof) * (s[k].parts + cof) *
      cs.varMask[v];
  }

  lemma {:induction false} DistanceSym(cs: Shape, a: set<nat>, b: set<nat>, n: nat)
    requires n <= cs.numVars
    ensures Distance(cs, a, b, n) == Distance(cs, b, a, n)
  {
    if n > 0 {
      DistanceSym(cs, a, b, n - 1);
      assert a * b * cs.varMask[n - 1] == b * a * cs.varMask[n - 1];
    }
  }

  /** Merging the single cubes a and b gives their consensus. */
  lemma SingleConsensus(cs: Shape, L: seq<Cube>, R: seq<Cube>, Q: seq<Cube>, a: set<nat>, b: set<nat>, v: nat)
    requires (forall r :: r in L ==> r.parts == a) && HasParts(L, a) && (forall r :: r in R ==> r.parts == b) &&
      HasParts(R, b)
    requires (forall q :: q in Q ==> Merged(cs, L, R, q)) && ConsensusWithin(cs, L, R, Q)
    requires v < cs.numVars && Distance(cs, a, b, cs.numVars) == 1 && ConflictIn(cs, a, b, v)
    requires a * cs.varMask[v] != {} && b * cs.varMask[v] != {} && a <= cs.fullset && b <= cs.fullset
    ensures HasParts(Q, ConsensusSet(cs, a, b))
  {
    var x := WithParts(L, a);
    var y := WithParts(R, b);
    assert AtDistance1(cs, x, y);
    var c := ConsensusSet(cs, a, b);
    var q := Container(Q, c);
    var i :| i in a * cs.varMask[v];
    var j :| j in b * cs.varMask[v];
    assert i in c && j in c;
    assert i !in a * b * cs.varMask[v] && j !in a * b * cs.varMask[v];
    assert Merged(cs, L, R, q);
    if HasParts(L, q.parts) {
      var l := WithParts(L, q.parts);
    } else if HasParts(R, q.parts) {
      var r := WithParts(R, q.parts);
    } else {
      var l, r :| l in L && r in R && AtDistance1(cs, l, r) && q.parts == ConsensusSet(cs, l.parts, r.parts);
      assert q.parts == c;
    }
  }

  lemma MergedCover(cs: Shape, s: seq<Cube>, cof: set<nat>, v: nat, cl: set<nat>, cr: set<nat>,
                    Ql: seq<Cube>, Qr: seq<Cube>, L: seq<Cube>, R: seq<Cube>, Q: seq<Cube>)
    requires v < cs.numVars && SplitCubes(cs, cof, v, cl, cr) && Half(cs, cof, v, cl) && Half(cs, cof, v, cr)
    requires Fits(cs, s, cof) && !AllFull(cs, s, cof, v) && |cs.varMask[v] - cof| >= 2
    requires PrimeCover(cs, MeetingIn(cs, s, cl, v), cof + (cs.fullset - cl), Ql) && Restricted(cs, Ql, cl, L)
    requires PrimeCover(cs, MeetingIn(cs, s, cr, v), cof + (cs.fullset - cr), Qr) && Restricted(cs, Qr, cr, R)
    requires forall q :: q in Q ==> Merged(cs, L, R, q)
    requires Dominates(Q, L) && Dominates(Q, R) && ConsensusWithin(cs, L, R, Q) && Antichain(Q)
    ensures PrimeCover(cs, s, cof, Q)
  {
    HalfGenerates(cs, s, cof, v, cl, Ql, L);
    HalfGenerates(cs, s, cof, v, cr, Qr, R);
    MergeGenerates(cs, s, cof, v, cl, cr, L, R, Q);
    SplitKeepsFull(cs, s, cof, v, cl, Ql, L);
    SplitKeepsFull(cs, s, cof, v, cr, Qr, R);
    MergedKeepsFull(cs, s, cof, L, R, Q);
    if Narrow(cs, s, cof) {
      NarrowAbove(cs, s, cof, MeetingIn(cs, s, cl, v), cof + (cs.fullset - cl));
      NarrowAbove(cs, s, cof, MeetingIn(cs, s, cr, v), cof + (cs.fullset - cr));
      SplitAbove(cs, cof, v, cl, Ql, L);
      SplitAbove(cs, cof, v, cr, Qr, R);
      MergedAbove(cs, cof, L, R, Q);
    }
  }

  lemma BranchRun(cs: Shape, s: seq<Cube>, cof: set<nat>, cd: CData, cl: set<nat>, cr: set<nat>,
                  Ql: seq<Cube>, Qr: seq<Cube>, L: seq<Cube>, R: seq<Cube>, Q: seq<Cube>)
    requires CountsOf(cs, s, cof, cd) && BestChosen(cs, cd) && 0 <= cd.best < cs.numVars &&
      Ceiling(s, cof) == cs.fullset
    requires var v := cd.best;
             && SplitCubes(cs, cof, v, cl, cr) && Half(cs, cof, v, cl) && Half(cs, cof, v, cr)
             && |cs.varMask[v] * cl| == |cs.varMask[v] - cof| / 2 && Fits(cs, s, cof) && |s| >= 2
             && PrimeRun(cs, MeetingIn(cs, s, cl, v), cof + (cs.fullset - cl), Ql) && Restricted(cs, Ql, cl, L)
             && PrimeRun(cs, MeetingIn(cs, s, cr, v), cof + (cs.fullset - cr), Qr) && Restricted(cs, Qr, cr, R)
    requires (forall q :: q in Q ==> Merged(cs, L, R, q)) && ConsensusWithin(cs, L, R, Q)
    ensures PrimeRun(cs, s, cof, Q)
  {
    forall v | TwoApart(cs, s, cof, v) ensures HasParts(Q, PairConsensus(cs, s, cof)) {
      assert cd.best == v;
      BinaryHalves(cs, s, cof, v, cl, cr);
      SplitRun(cs, s, cof, v, cl, cr, Ql, Qr, L, R, Q);
    }
  }

  lemma BinaryHalves(cs: Shape, s: seq<Cube>, cof: set<nat>, v: nat, cl: set<nat>, cr: set<nat>)
    requires |s| == 2 && v < cs.numBinaryVars && ConflictIn(cs, s[0].parts + cof, s[1].parts + cof, v)
    requires SplitCubes(cs, cof, v, cl, cr) && |cs.varMask[v] * cl| == |cs.varMask[v] - cof| / 2
    ensures |cs.varMask[v] * cl| == 1 && |cs.varMask[v] * cr| == 1
  {
    var f := cs.firstPart[v];
    var m := cs.varMask[v];
    assert m == {f, f + 1};
    forall i | i in m ensures i !in cof {
      assert i !in (s[0].parts + cof) * (s[1].parts + cof) * m;
    }
    assert m - cof == m;
    assert |{f, f + 1}| == 2;
    assert m * cr == m - m * cl;
    assert m == m * cl + m * cr;
  }

  ghost predicate HalfResult(cs: Shape, s: seq<Cube>, cof: set<nat>, h: set<nat>, v: nat, Q: seq<Cube>)
    requires v < cs.numVars
  {
    && PrimeCover(cs, MeetingIn(cs, s, h, v), cof + (cs.fullset - h), Q)
    && PrimeRun(cs, MeetingIn(cs, s, h, v), cof + (cs.fullset - h), Q)
  }

  /** The recursive call for the half h of variable v. */
  method HalfPrimes(cs: Shape, T: CubeList, h: set<nat>, v: nat, ghost s: seq<Cube>, ghost cof: set<nat>)
    returns (A: Cover)
    requires s == T.cubes && cof == T.cof && v < cs.numVars && h <= cs.fullset && Fits(cs, s, cof)
    requires FreeParts(cs, cof + (cs.fullset - h)) < FreeParts(cs, cof)
    ensures fresh(A) && unchanged(T)
    ensures HalfResult(cs, s, cof, h, v, A.cubes)
    decreases FreeParts(cs, T.cof), 0
  {
    var half := Scofactor(cs, T, h, v);
    A := PrimesConsensus(cs, half);
  }

  /** The two halves of the variable chosen. */
  method ChooseHalves(cs: Shape, T: CubeList, cd: CData) returns (cl: set<nat>, cr: set<nat>)
    requires Fits(cs, T.cubes, T.cof) && CountsOf(cs, T.cubes, T.cof, cd) && cd.varsUnate != cd.varsActive
    ensures 0 <= cd.best < cs.numVars && cl <= cs.fullset && cr <= cs.fullset
    ensures SplitCubes(cs, T.cof, cd.best, cl, cr) && Half(cs, T.cof, cd.best, cl) && Half(cs, T.cof, cd.best, cr)
    ensures |cs.varMask[cd.best] * cl| == |cs.varMask[cd.best] - T.cof| / 2 && |cs.varMask[cd.best] - T.cof| >= 2
    ensures !AllFull(cs, T.cubes, T.cof, cd.best)
    ensures FreeParts(cs, T.cof + (cs.fullset - cl)) < FreeParts(cs, T.cof)
    ensures FreeParts(cs, T.cof + (cs.fullset - cr)) < FreeParts(cs, T.cof)
  {
    BinateChoice(cs, T.cubes, T.cof, cd);
    BestNotFull(cs, T.cubes, T.cof, cd, cd.best);
    cl, cr := BinateSplitSelect(cs, T.cof, cd.best);
    HalvesOf(cs, T.cof, cd.best, cl, cr);
    SplitShrinks(cs, T.cof, cd.best, cl, cr);
  }

  /** The split of primes_consensus on the variable chosen. */
  method PrimesSplit(cs: Shape, T: CubeList, cd: CData) returns (Q: Cover)
    requires Fits(cs, T.cubes, T.cof) && CountsOf(cs, T.cubes, T.cof, cd) && cd.varsUnate != cd.varsActive
    requires BestChosen(cs, cd) && |T.cubes| >= 2 && Ceiling(T.cubes, T.cof) == cs.fullset
    ensures fresh(Q) && PrimeCover(cs, T.cubes, T.cof, Q.cubes)
    ensures PrimeRun(cs, T.cubes, T.cof, Q.cubes)
    decreases FreeParts(cs, T.cof), 1
  {
    hide Fits, CountsOf, BestChosen, PrimeCover, PrimeRun, Ceiling;
    ghost var s, cof := T.cubes, T.cof;
    var cl, cr := ChooseHalves(cs, T, cd);
    var Tl := HalfPrimes(cs, T, cl, cd.best, s, cof);
    var Tr := HalfPrimes(cs, T, cr, cd.best, s, cof);
    Q := MergeSplit(cs, Tl, Tr, cl, cr, s, cof, cd);
  }

  /** The results of both halves merged. */
  method MergeSplit(cs: Shape, Tl: Cover, Tr: Cover, cl: set<nat>, cr: set<nat>, ghost s: seq<Cube>,
                    ghost cof: set<nat>, ghost cd: CData) returns (Q: Cover)
    requires Tl != Tr && CountsOf(cs, s, cof, cd) && BestChosen(cs, cd) && 0 <= cd.best < cs.numVars
    requires Ceiling(s, cof) == cs.fullset && Fits(cs, s, cof) && |s| >= 2 && !AllFull(cs, s, cof, cd.best)
    requires SplitCubes(cs, cof, cd.best, cl, cr) && Half(cs, cof, cd.best, cl) && Half(cs, cof, cd.best, cr)
    requires |cs.varMask[cd.best] * cl| == |cs.varMask[cd.best] - cof| / 2 && |cs.varMask[cd.best] - cof| >= 2
    requires HalfResult(cs, s, cof, cl, cd.best, Tl.cubes) && HalfResult(cs, s, cof, cr, cd.best, Tr.cubes)
    modifies Tl, Tr
    ensures fresh(Q) && PrimeCover(cs, s, cof, Q.cubes) && PrimeRun(cs, s, cof, Q.cubes)
  {
    ghost var Ql, Qr := Tl.cubes, Tr.cubes;
    ghost var L, R;
    Q, L, R := PrimesConsensusMerge(cs, Tl, Tr, cl, cr, s, cof, cd.best);
    BranchRun(cs, s, cof, cd, cl, cr, Ql, Qr, L, R, Q.cubes);
  }

  /** primes_consensus -- T is disposed of. */
  method PrimesConsensus(cs: Shape, T: CubeList) returns (Q: Cover)
    requires Fits(cs, T.cubes, T.cof)
    modifies T
    ensures fresh(Q) && PrimeCover(cs, old(T.cubes), old(T.cof), Q.cubes)
    ensures PrimeRun(cs, old(T.cubes), old(T.cof), Q.cubes)
    decreases FreeParts(cs, T.cof), 2
  {
    var done, cd;
    done, Q, cd := PrimesSpecialCases(cs, T);
    if !done {
      Q := PrimesSplit(cs, T, cd);
    }
  }

  /** primes_consensus_special_cases -- done is false for MAYBE. */
  method PrimesSpecialCases(cs: Shape, T: CubeList) returns (done: bool, Q: Cover, cd: CData)
    requires Fits(cs, T.cubes, T.cof)
    modifies T
    ensures fresh(Q)
    ensures done ==> PrimeCover(cs, old(T.cubes), old(T.cof), Q.cubes)
    ensures done ==> PrimeRun(cs, old(T.cubes), old(T.cof), Q.cubes)
    ensures !done ==> unchanged(T) && CountsOf(cs, T.cubes, T.cof, cd) && cd.varsUnate != cd.varsActive
    ensures !done ==> BestChosen(cs, cd) && |T.cubes| >= 2 && Ceiling(T.cubes, T.cof) == cs.fullset
    decreases FreeParts(cs, T.cof), 1
  {
    cd := NO_COUNTS;
    Q := new Cover([]);
    if |T.cubes| == 0 {
      NoCubes(cs, T.cof);
      LeafCover(cs, [], T.cof, []);
      NoSplitRun(cs, [], T.cof, []);
      return true, Q, cd;
    }
    if |T.cubes| == 1 {
      Q := new Cover([MkCube(T.cof + T.cubes[0].parts)]);
      SingleCover(cs, T.cubes, T.cof, Q.cubes);
      return true, Q, cd;
    }
    for k := 0 to |T.cubes|
      invariant unchanged(T)
    {
      if FullRow(cs, T.cubes[k].parts, T.cof) {
        FullRowCovers(cs, T.cubes, T.cof, All);
        EverythingCover(cs, T.cubes, T.cof);
        Q := new Cover([MkCube(cs.fullset)]);
        assert T.cubes[k] in T.cubes;
        NoSplitRun(cs, T.cubes, T.cof, Q.cubes);
        return true, Q, cd;
      }
    }
    var ceil := Ceil(T);
    if ceil != cs.fullset {
      Q := FactorColumns(cs, T, ceil);
      return true, Q, cd;
    }
    cd := MassiveCount(cs, T);
    if cd.varsActive == 1 {
      SingleActiveVariable(cs, T.cubes, T.cof, cd);
      EverythingCover(cs, T.cubes, T.cof);
      Q := new Cover([MkCube(cs.fullset)]);
      LeafRun(cs, T.cubes, T.cof, cd, Q.cubes);
      return true, Q, cd;
    } else if cd.varsUnate == cd.varsActive {
      var A := UnateLeafPrimes(cs, T, cd);
      Q := new Cover(A);
      LeafRun(cs, T.cubes, T.cof, cd, Q.cubes);
      return true, Q, cd;
    }
    return false, Q, cd;
  }

  lemma SingleCover(cs: Shape, cubes: seq<Cube>, cof: set<nat>, Q: seq<Cube>)
    requires |cubes| == 1 && Fits(cs, cubes, cof) && Q == [MkCube(cof + cubes[0].parts)]
    ensures PrimeCover(cs, cubes, cof, Q)
  {
    assert cubes == [cubes[0]];
    assert cubes[0] in cubes && cof + cubes[0].parts == cubes[0].parts + cof;
    OneCube(cs, cubes[0], cof);
    LeafCover(cs, cubes, cof, Q);
  }

  method CutAll(A: Cover, ceil: set<nat>)
    modifies A
    ensures CutBy(old(A.cubes), ceil, A.cubes)
  {
    ghost var Q := A.cubes;
    for k := 0 to |A.cubes|
      invariant |A.cubes| == |Q|
      invariant forall j :: 0 <= j < k ==> A.cubes[j].parts == Q[j].parts * ceil
      invariant forall j :: k <= j < |Q| ==> A.cubes[j] == Q[j]
    {
      A.cubes := A.cubes[k := A.cubes[k].(parts := A.cubes[k].parts * ceil)];
    }
  }

  /** A column of all 0's: put it into cof, recur, and cut the result down to the other columns. */
  method FactorColumns(cs: Shape, T: CubeList, ceil: set<nat>) returns (A: Cover)
    requires Fits(cs, T.cubes, T.cof) && |T.cubes| >= 2 && ceil == Ceiling(T.cubes, T.cof) && ceil != cs.fullset
    modifies T
    ensures fresh(A) && PrimeCover(cs, old(T.cubes), old(T.cof), A.cubes)
    ensures PrimeRun(cs, old(T.cubes), old(T.cof), A.cubes)
    decreases FreeParts(cs, T.cof), 0
  {
    ghost var cubes, cof := T.cubes, T.cof;
    var p := cs.fullset - ceil;
    assert ceil <= cs.fullset;
    ghost var i :| i in cs.fullset && i !in ceil;
    CofGrows(cs, T.cof, p, i);
    T.cof := T.cof + p;
    A := PrimesConsensus(cs, T);
    ghost var Q := A.cubes;
    CutAll(A, ceil);
    CutCover(cs, cubes, cof, Q, A.cubes);
    FactoredRun(cs, cubes, cof, Q, A.cubes);
  }

  // ---------- what the result is ----------

  /** A prime implicant: no implicant properly contains it. */
  ghost predicate Prime(cs: Shape, cubes: seq<Cube>, p: set<nat>) {
    && DomImplicant(cs, cubes, {}, p)
    && forall q :: DomImplicant(cs, cubes, {}, q) && p <= q ==> p == q
  }

  /** Every prime is generated. */
  lemma AllPrimesFound(cs: Shape, cubes: seq<Cube>, Q: seq<Cube>, p: set<nat>)
    requires Generates(cs, cubes, {}, Q) && Prime(cs, cubes, p)
    ensures exists q :: q in Q && q.parts == p
  {
    assert Within(p, Q);
    var q :| q in Q && p <= q.parts;
    NonVoidGrows(cs, p, q.parts);
    assert q.parts <= cs.fullset - {};
    assert DomImplicant(cs, cubes, {}, q.parts);
  }

  lemma PrimesNonVoid(cs: Shape, cubes: seq<Cube>, P: seq<Cube>)
    requires PrimeCover(cs, cubes, {}, P) && AllNonVoid(cs, cubes, {}) && NoWideZeroColumn(cs, cubes, {})
    ensures AllNonVoid(cs, P, {})
  {
    forall p | p in P ensures NonVoid(cs, p.parts + {}) {
      assert p.parts + {} == p.parts;
      forall v | 0 <= v < cs.numVars ensures p.parts * cs.varMask[v] != {} {
        assert NoWideZero(cs, cubes, {}, v);
        assert AllMeet(cs, P, v);
      }
    }
  }

  /** Binary variables are never void. */
  lemma PrimesBinary(cs: Shape, cubes: seq<Cube>, P: seq<Cube>, p: Cube, v: nat)
    requires PrimeCover(cs, cubes, {}, P) && AllNonVoid(cs, cubes, {}) && p in P && v < cs.numBinaryVars
    ensures p.parts * cs.varMask[v] != {}
  {
    var f := cs.firstPart[v];
    assert cs.varMask[v] == {f, f + 1};
    assert NoWideZero(cs, cubes, {}, v);
    assert AllMeet(cs, P, v);
  }

  /** When every variable has at most two parts, the result is exactly the set of primes. */
  lemma ExactlyThePrimes(cs: Shape, cubes: seq<Cube>, Q: seq<Cube>, p: set<nat>)
    requires PrimeCover(cs, cubes, {}, Q) && Narrow(cs, cubes, {}) && AllNonVoid(cs, cubes, {})
    ensures Prime(cs, cubes, p) <==> exists q :: q in Q && q.parts == p
  {
    if Prime(cs, cubes, p) {
      AllPrimesFound(cs, cubes, Q, p);
    }
    if q :| q in Q && q.parts == p {
      forall v | 0 <= v < cs.numVars ensures p * cs.varMask[v] != {} {
        if |cs.varMask[v]| <= 2 {
          assert NoWideZero(cs, cubes, {}, v);
          assert AllMeet(cs, Q, v);
        } else {
          assert AllFull(cs, Q, {}, v) && FullIn(cs, q.parts + {}, v);
          assert cs.firstPart[v] in p * cs.varMask[v];
        }
      }
      assert p <= cs.fullset - {};
      forall r | DomImplicant(cs, cubes, {}, r) && p <= r ensures p == r {
        assert Within(r, Q);
        var t :| t in Q && r <= t.parts;
        AntichainMembers(Q, q, t);
      }
    }
  }
}
