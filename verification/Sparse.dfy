/** sparse.c: make_sparse and mv_reduce. */
module Sparse {
  import opened Cubes
  import opened Containment
  import opened CoverCost
  import opened Redundancy
  import opened SetOps
  import opened ExpandPass

  // ---------- mv_reduce, one part of one variable ----------

  /** The parts of p with variable v replaced by its part i. */
  ghost function Sliced(cs: Shape, p: set<nat>, v: nat, i: nat): set<nat>
    requires v < cs.numVars
  {
    p - cs.varMask[v] + {i}
  }

  /** The cubes of s that have part i, sliced; index[j] is the position in s of the j-th of them. */
  ghost predicate SliceOf(cs: Shape, s: seq<Cube>, n: nat, v: nat, i: nat, t: seq<Cube>, index: seq<nat>)
    requires n <= |s| && v < cs.numVars
  {
    && |t| == |index|
    && (forall j :: 0 <= j < |t| ==>
      index[j] < n && i in s[index[j]].parts && t[j].parts == Sliced(cs, s[index[j]].parts, v, i))
    && (forall k: nat :: k < n && i in s[k].parts ==> k in index)
    && (forall j, k :: 0 <= j < k < |index| ==> index[j] < index[k])
  }

  /** 'cofactor' against part i of variable v. */
  method SliceCover(cs: Shape, s: seq<Cube>, v: nat, i: nat) returns (t: seq<Cube>, index: seq<nat>)
    requires v < cs.numVars
    ensures SliceOf(cs, s, |s|, v, i, t, index)
  {
    t, index := [], [];
    for k := 0 to |s|
      invariant SliceOf(cs, s, k, v, i, t, index)
    {
      if i in s[k].parts {
        t, index := t + [MkCube(s[k].parts - cs.varMask[v] + {i})], index + [k];
      }
    }
  }

  /** A minterm through part i lies in a cube exactly when it lies in its slice. */
  lemma SliceHolds(cs: Shape, p: set<nat>, v: nat, i: nat, m: seq<nat>)
    requires v < cs.numVars && cs.Minterm(m) && m[v] == i && i in p
    ensures In(m, p) <==> In(m, Sliced(cs, p, v, i))
  {
    forall u | 0 <= u < |m| ensures m[u] in p <==> m[u] in Sliced(cs, p, v, i) {
      assert m[u] in cs.varMask[u];
    }
  }

  /** A cover holds a minterm through part i exactly when its slice does. */
  lemma SliceCovered(cs: Shape, s: seq<Cube>, v: nat, i: nat, t: seq<Cube>, index: seq<nat>, m: seq<nat>)
    requires v < cs.numVars && SliceOf(cs, s, |s|, v, i, t, index) && cs.Minterm(m) && m[v] == i
    ensures Covered(m, s) <==> Covered(m, t)
  {
    if Covered(m, s) {
      var c :| c in s && In(m, c.parts);
      var k: nat :| k < |s| && s[k] == c;
      assert i in c.parts by { assert m[v] in c.parts; }
      assert k in index;
      var j :| 0 <= j < |index| && index[j] == k;
      SliceHolds(cs, c.parts, v, i, m);
      assert t[j] in t;
    }
    if Covered(m, t) {
      var c :| c in t && In(m, c.parts);
      var j :| 0 <= j < |t| && t[j] == c;
      SliceHolds(cs, s[index[j]].parts, v, i, m);
      assert s[index[j]] in s;
    }
  }

  /** s' is s with part i removed from some cubes whose marked slice is inactive. */
  ghost predicate PartRemoved(cs: Shape, s: seq<Cube>, s': seq<Cube>, i: nat, marked: seq<Cube>, index: seq<nat>)
    requires |marked| == |index|
  {
    && |s'| == |s|
    && forall k: nat :: k < |s| ==>
         || s'[k].parts == s[k].parts
         || (s'[k].parts == s[k].parts - {i} && exists j :: 0 <= j < |index| && index[j] == k && !marked[j].active)
  }

  /** Removing the part keeps the union with D. */
  lemma RemovalKeeps(cs: Shape, s: seq<Cube>, s': seq<Cube>, D: seq<Cube>, v: nat, i: nat, t: seq<Cube>,
                     index: seq<nat>, marked: seq<Cube>, D1: seq<Cube>, dindex: seq<nat>)
    requires v < cs.numVars && i in cs.varMask[v]
    requires SliceOf(cs, s, |s|, v, i, t, index) && SliceOf(cs, D, |D|, v, i, D1, dindex)
    requires SameParts(marked, t) && SameUnion(cs, t, ActiveOnly(marked), D1)
    requires PartRemoved(cs, s, s', i, marked, index)
    ensures SameUnion(cs, s, s', D)
  {
    forall m | cs.Minterm(m) ensures Covered(m, s) || Covered(m, D) <==> Covered(m, s') || Covered(m, D) {
      if Covered(m, s') {
        var c :| c in s' && In(m, c.parts);
        var k: nat :| k < |s'| && s'[k] == c;
        assert s[k] in s && In(m, s[k].parts);
      }
      if Covered(m, s) && !Covered(m, D) {
        if m[v] == i {
          KeptThroughPart(cs, s, s', D, v, i, t, index, marked, D1, dindex, m);
        } else {
          KeptBeside(cs, s, s', v, i, marked, index, m);
        }
      }
    }
  }

  lemma KeptBeside(cs: Shape, s: seq<Cube>, s': seq<Cube>, v: nat, i: nat, marked: seq<Cube>, index: seq<nat>,
                   m: seq<nat>)
    requires v < cs.numVars && i in cs.varMask[v] && |marked| == |index| && PartRemoved(cs, s, s', i, marked, index)
    requires cs.Minterm(m) && m[v] != i && Covered(m, s)
    ensures Covered(m, s')
  {
    var c :| c in s && In(m, c.parts);
    var k: nat :| k < |s| && s[k] == c;
    forall u | 0 <= u < |m| ensures m[u] in s'[k].parts {
      assert m[u] in cs.varMask[u];
    }
    assert s'[k] in s';
  }

  lemma KeptThroughPart(cs: Shape, s: seq<Cube>, s': seq<Cube>, D: seq<Cube>, v: nat, i: nat, t: seq<Cube>,
                        index: seq<nat>, marked: seq<Cube>, D1: seq<Cube>, dindex: seq<nat>, m: seq<nat>)
    requires v < cs.numVars && i in cs.varMask[v] && cs.Minterm(m) && m[v] == i
    requires SliceOf(cs, s, |s|, v, i, t, index) && SliceOf(cs, D, |D|, v, i, D1, dindex)
    requires SameParts(marked, t) && SameUnion(cs, t, ActiveOnly(marked), D1)
    requires PartRemoved(cs, s, s', i, marked, index) && Covered(m, s) && !Covered(m, D)
    ensures Covered(m, s')
  {
    SliceCovered(cs, s, v, i, t, index, m);
    SliceCovered(cs, D, v, i, D1, dindex, m);
    var c :| c in ActiveOnly(marked) && In(m, c.parts);
    var j :| 0 <= j < |marked| && marked[j] == c;
    var k := index[j];
    SliceHolds(cs, s[k].parts, v, i, m);
    assert s'[k].parts == s[k].parts by {
      forall l | 0 <= l < |index| && index[l] == k ensures l == j {
      }
    }
    assert s'[k] in s';
  }

  /** Remove part i from the cubes whose slice is redundant, unless the variable is full and not the output. */
  method RemovePart(cs: Shape, F: Cover, v: nat, i: nat, marked: seq<Cube>, index: seq<nat>)
    requires v < cs.numVars && |marked| == |index|
    requires (forall j :: 0 <= j < |index| ==> index[j] < |F.cubes|) &&
      forall j, k :: 0 <= j < k < |index| ==> index[j] < index[k]
    modifies F
    ensures PartRemoved(cs, old(F.cubes), F.cubes, i, marked, index)
  {
    ghost var s := F.cubes;
    for j := 0 to |marked|
      invariant PartRemoved(cs, s, F.cubes, i, marked, index)
      invariant forall k :: j <= k < |index| ==> F.cubes[index[k]].parts == s[index[k]].parts
    {
      if !marked[j].active {
        var p := F.cubes[index[j]];
        var q := if v == cs.numVars - 1 || !(cs.varMask[v] <= p.parts) then p.parts - {i} else p.parts;
        F.cubes := F.cubes[index[j] := p.(parts := q, prime := false)];
      }
    }
  }

  /** One part of one variable. */
  method MvReducePart(cs: Shape, F: Cover, D: seq<Cube>, v: nat, i: nat)
    requires v < cs.numVars && cs.sparse[v] && i in cs.varMask[v]
    modifies F
    ensures SameUnion(cs, old(F.cubes), F.cubes, D) && Reduced(cs, old(F.cubes), F.cubes)
  {
    hide SameUnion, SliceOf, WithNumbers, MarkedBy, SameParts, ActiveOnly, PartRemoved;
    ghost var s := F.cubes;
    var t, index := SliceCover(cs, F.cubes, v, i);
    var D1, dindex := SliceCover(cs, D, v, i);
    var F1 := new Cover(t);
    ghost var work := MarkIrredundant(cs, F1, D1);
    RemovePart(cs, F, v, i, F1.cubes, index);
    SamePartsBack(F1.cubes, t);
    RemovalKeeps(cs, s, F.cubes, D, v, i, t, index, F1.cubes, D1, dindex);
    forall k: nat | k < |s| ensures ReducedCube(cs, s[k].parts, F.cubes[k].parts) {
      forall u | 0 <= u < cs.numVars && !cs.sparse[u] ensures s[k].parts * cs.varMask[u] <= F.cubes[k].parts {
        assert i !in cs.varMask[u];
      }
    }
  }

  lemma SamePartsBack(a: seq<Cube>, b: seq<Cube>)
    requires SameParts(a, b)
    ensures SameParts(b, a)
  {
  }

  /** q is p without some parts of sparse variables. */
  ghost predicate ReducedCube(cs: Shape, p: set<nat>, q: set<nat>) {
    q <= p && forall u {:trigger cs.varMask[u]} :: 0 <= u < cs.numVars && !cs.sparse[u] ==> p * cs.varMask[u] <= q
  }

  ghost predicate Reduced(cs: Shape, s: seq<Cube>, t: seq<Cube>) {
    |t| == |s| && forall k: nat :: k < |s| ==> ReducedCube(cs, s[k].parts, t[k].parts)
  }

  lemma ReducedTrans(cs: Shape, a: seq<Cube>, b: seq<Cube>, c: seq<Cube>)
    requires Reduced(cs, a, b) && Reduced(cs, b, c)
    ensures Reduced(cs, a, c)
  {
    forall k: nat | k < |a| ensures ReducedCube(cs, a[k].parts, c[k].parts) {
      assert ReducedCube(cs, a[k].parts, b[k].parts) && ReducedCube(cs, b[k].parts, c[k].parts);
      forall u | 0 <= u < cs.numVars && !cs.sparse[u] ensures a[k].parts * cs.varMask[u] <= c[k].parts {
        assert a[k].parts * cs.varMask[u] <= b[k].parts * cs.varMask[u];
      }
    }
  }

  lemma SameUnionTrans(cs: Shape, a: seq<Cube>, b: seq<Cube>, c: seq<Cube>, D: seq<Cube>)
    requires SameUnion(cs, a, b, D) && SameUnion(cs, b, c, D)
    ensures SameUnion(cs, a, c, D)
  {
  }

  /** The parts of one variable in turn. */
  method MvReduceVar(cs: Shape, F: Cover, D: seq<Cube>, v: nat)
    requires v < cs.numVars && cs.sparse[v]
    modifies F
    ensures SameUnion(cs, old(F.cubes), F.cubes, D) && Reduced(cs, old(F.cubes), F.cubes)
  {
    ghost var s := F.cubes;
    for i := cs.firstPart[v] to cs.lastPart[v] + 1
      invariant SameUnion(cs, s, F.cubes, D) && Reduced(cs, s, F.cubes)
    {
      ghost var before := F.cubes;
      MvReducePart(cs, F, D, v, i);
      SameUnionTrans(cs, s, before, F.cubes, D);
      ReducedTrans(cs, s, before, F.cubes);
    }
  }

  // ---------- cubes that disappear ----------

  /** Every sparse variable has a part in p. */
  ghost predicate SparseNonVoid(cs: Shape, p: set<nat>, n: nat)
    requires n <= cs.numVars
  {
    forall v :: 0 <= v < n && cs.sparse[v] ==> p * cs.varMask[v] != {}
  }

  /** sf_active, and the loop that drops the cubes void in a sparse variable. */
  method DropVoid(cs: Shape, F: Cover)
    modifies F
    ensures F.cubes == ActiveOnly(Flagged(cs, old(F.cubes), cs.numVars))
  {
    ghost var s := F.cubes;
    F.cubes := seq(|F.cubes|, k requires 0 <= k < |F.cubes| reads F => F.cubes[k].(active := true));
    F.activeCount := |F.cubes|;
    AllActive(F.cubes);
    for v := 0 to cs.numVars
      invariant F.cubes == Flagged(cs, s, v) && Counted(F)
    {
      FlagVoid(cs, F, v, s);
    }
    if |F.cubes| != F.activeCount {
      SfInactive(F);
    } else {
      AllStillActive(F.cubes);
    }
  }

  /** The cubes void in variable v. */
  method FlagVoid(cs: Shape, F: Cover, v: nat, ghost s: seq<Cube>)
    requires v < cs.numVars && F.cubes == Flagged(cs, s, v) && Counted(F)
    modifies F
    ensures F.cubes == Flagged(cs, s, v + 1) && Counted(F)
  {
    hide Counted;
    ghost var before := F.cubes;
    for k := 0 to |F.cubes|
      invariant |F.cubes| == |s| && Counted(F)
      invariant forall j :: 0 <= j < k ==> F.cubes[j] == Flagged(cs, s, v + 1)[j]
      invariant forall j :: k <= j < |s| ==> F.cubes[j] == before[j]
    {
      if cs.sparse[v] && F.cubes[k].active && F.cubes[k].parts * cs.varMask[v] == {} {
        Deactivate(F, k, F.cubes[k].covered);
      }
    }
  }

  /** The cubes of s, active when no sparse variable below n is void. */
  ghost function Flagged(cs: Shape, s: seq<Cube>, n: nat): seq<Cube>
    requires n <= cs.numVars
  {
    seq(|s|, k requires 0 <= k < |s| => s[k].(active := SparseNonVoid(cs, s[k].parts, n)))
  }

  lemma {:induction false} AllStillActive(s: seq<Cube>)
    requires NumActive(s) == |s|
    ensures ActiveOnly(s) == s
  {
    if s != [] {
      var n := |s| - 1;
      FewActive(s[..n]);
      AllStillActive(s[..n]);
    }
  }

  lemma {:induction false} FewActive(s: seq<Cube>)
    ensures NumActive(s) <= |s|
  {
    if s != [] {
      FewActive(s[..|s| - 1]);
    }
  }

  /** A cube void in a sparse variable holds no minterm. */
  lemma DroppedEmpty(cs: Shape, s: seq<Cube>, D: seq<Cube>)
    ensures SameUnion(cs, s, ActiveOnly(Flagged(cs, s, cs.numVars)), D)
  {
    var t := Flagged(cs, s, cs.numVars);
    forall m | cs.Minterm(m) ensures Covered(m, s) <==> Covered(m, ActiveOnly(t)) {
      if Covered(m, s) {
        var c :| c in s && In(m, c.parts);
        var k :| 0 <= k < |s| && s[k] == c;
        forall v | 0 <= v < cs.numVars && cs.sparse[v] ensures c.parts * cs.varMask[v] != {} {
          assert m[v] in c.parts * cs.varMask[v];
        }
        assert t[k] in ActiveOnly(t);
      }
      if Covered(m, ActiveOnly(t)) {
        var c :| c in ActiveOnly(t) && In(m, c.parts);
        var k :| 0 <= k < |t| && t[k] == c;
        assert s[k] in s;
      }
    }
  }

  // ---------- mv_reduce ----------

  /** What mv_reduce makes of a cover: the union with D stays, and no literal is added. */
  ghost predicate MvReduced(cs: Shape, s: seq<Cube>, t: seq<Cube>, D: seq<Cube>) {
    && SameUnion(cs, s, t, D)
    && TotalLiterals(cs, t) <= TotalLiterals(cs, s) && |t| <= SparseCount(cs, s)
    && (forall c {:trigger ReducedFrom(cs, s, c.parts)} :: c in t ==> ReducedFrom(cs, s, c.parts))
    && forall c :: c in t ==> SparseNonVoid(cs, c.parts, cs.numVars)
  }

  /** How many cubes of s are not void in a sparse variable. */
  ghost function SparseCount(cs: Shape, s: seq<Cube>): (n: nat)
    ensures n <= |s|
  {
    |ActiveOnly(Flagged(cs, s, cs.numVars))|
  }

  lemma {:induction false} FewerActive(f: seq<Cube>, g: seq<Cube>)
    requires |f| == |g| && forall k :: 0 <= k < |f| && f[k].active ==> g[k].active
    ensures |ActiveOnly(f)| <= |ActiveOnly(g)|
  {
    if f != [] {
      FewerActive(f[..|f| - 1], g[..|g| - 1]);
    }
  }

  lemma SparseNonVoidGrows(cs: Shape, p: set<nat>, q: set<nat>, n: nat)
    requires n <= cs.numVars && p <= q && SparseNonVoid(cs, p, n)
    ensures SparseNonVoid(cs, q, n)
  {
    forall v | 0 <= v < n && cs.sparse[v] ensures q * cs.varMask[v] != {} {
      var i :| i in p * cs.varMask[v];
      assert i in q * cs.varMask[v];
    }
  }

  ghost predicate ReducedFrom(cs: Shape, s: seq<Cube>, q: set<nat>) {
    exists c :: c in s && ReducedCube(cs, c.parts, q)
  }

  /** mv_reduce */
  method MvReduce(cs: Shape, F: Cover, D: seq<Cube>)
    modifies F
    ensures MvReduced(cs, old(F.cubes), F.cubes, D)
  {
    ghost var s := F.cubes;
    for v := 0 to cs.numVars
      invariant SameUnion(cs, s, F.cubes, D) && Reduced(cs, s, F.cubes)
    {
      if cs.sparse[v] {
        ghost var before := F.cubes;
        MvReduceVar(cs, F, D, v);
        SameUnionTrans(cs, s, before, F.cubes, D);
        ReducedTrans(cs, s, before, F.cubes);
      }
    }
    ghost var t := F.cubes;
    DropVoid(cs, F);
    MvReducedBy(cs, s, t, D);
  }

  lemma MvReducedBy(cs: Shape, s: seq<Cube>, t: seq<Cube>, D: seq<Cube>)
    requires SameUnion(cs, s, t, D) && Reduced(cs, s, t)
    ensures MvReduced(cs, s, ActiveOnly(Flagged(cs, t, cs.numVars)), D)
  {
    var f := Flagged(cs, t, cs.numVars);
    var r := ActiveOnly(f);
    DroppedEmpty(cs, t, D);
    SameUnionTrans(cs, s, t, r, D);
    forall k | 0 <= k < |f| ensures NoDearer(cs, f[k].parts, s[k].parts) {
      assert ReducedCube(cs, s[k].parts, t[k].parts);
    }
    TotalNoDearer(cs, f, s);
    ActiveNoDearer(cs, f);
    forall k | 0 <= k < |f| && f[k].active ensures Flagged(cs, s, cs.numVars)[k].active {
      assert ReducedCube(cs, s[k].parts, t[k].parts);
      SparseNonVoidGrows(cs, t[k].parts, s[k].parts, cs.numVars);
    }
    FewerActive(f, Flagged(cs, s, cs.numVars));
    forall c | c in r ensures ReducedFrom(cs, s, c.parts) && SparseNonVoid(cs, c.parts, cs.numVars) {
      var k :| 0 <= k < |f| && f[k] == c;
      assert s[k] in s && ReducedCube(cs, s[k].parts, t[k].parts);
    }
  }

  // ---------- make_sparse ----------

  /** t and D hold every minterm of s. */
  ghost predicate Keeps(cs: Shape, s: seq<Cube>, t: seq<Cube>, D: seq<Cube>) {
    forall m :: cs.Minterm(m) && Covered(m, s) ==> Covered(m, t) || Covered(m, D)
  }

  lemma DominatesKeeps(cs: Shape, s: seq<Cube>, t: seq<Cube>, D: seq<Cube>)
    requires Dominates(t, s)
    ensures Keeps(cs, s, t, D)
  {
    forall m | cs.Minterm(m) && Covered(m, s) ensures Covered(m, t) {
      var c :| c in s && In(m, c.parts);
      assert Within(c.parts, t);
      var d :| d in t && c.parts <= d.parts;
      assert In(m, d.parts);
    }
  }

  lemma KeepsTrans(cs: Shape, a: seq<Cube>, b: seq<Cube>, c: seq<Cube>, D: seq<Cube>)
    requires Keeps(cs, a, b, D) && Keeps(cs, b, c, D)
    ensures Keeps(cs, a, c, D)
  {
  }

  /** A smaller cube misses the OFF-set too. */
  lemma SmallerOrthogonal(cs: Shape, bb: seq<Cube>, p: set<nat>, q: set<nat>)
    requires Orthogonal(cs, bb, p) && q <= p
    ensures Orthogonal(cs, bb, q)
  {
    forall k | 0 <= k < |bb| ensures !Distance0(cs, bb[k].parts, q) {
      if Distance0(cs, bb[k].parts, q) {
        MeetsLess(cs, bb[k].parts, q, p);
      }
    }
  }

  /** No cube is void in a sparse variable. */
  ghost predicate AllSparseNonVoid(cs: Shape, s: seq<Cube>) {
    forall c :: c in s ==> SparseNonVoid(cs, c.parts, cs.numVars)
  }

  lemma MvReducedNear(cs: Shape, bb: seq<Cube>, s: seq<Cube>, t: seq<Cube>, D: seq<Cube>)
    requires NearOnSet(cs, bb, s) && MvReduced(cs, s, t, D)
    ensures NearOnSet(cs, bb, t) && AllSparseNonVoid(cs, t)
  {
    forall k | 0 <= k < |t| ensures NearOnCube(cs, bb, t[k].parts) {
      assert t[k] in t && ReducedFrom(cs, s, t[k].parts);
      var c :| c in s && ReducedCube(cs, c.parts, t[k].parts);
      var j := Position(s, c);
      assert NearOnCube(cs, bb, s[j].parts);
      forall v | 0 <= v < cs.numBinaryVars ensures t[k].parts * cs.varMask[v] != {} {
        var i :| i in c.parts * cs.varMask[v];
        assert c.parts * cs.varMask[v] <= t[k].parts;
        assert i in t[k].parts * cs.varMask[v];
      }
      SmallerOrthogonal(cs, bb, c.parts, t[k].parts);
    }
  }

  /** Nothing is void after mv_reduce, if no other variable is sparse or nothing was void in it before. */
  lemma MvReducedOnSet(cs: Shape, bb: seq<Cube>, s: seq<Cube>, t: seq<Cube>, D: seq<Cube>)
    requires NearOnSet(cs, bb, s) && MvReduced(cs, s, t, D)
    ensures OnSet(cs, bb, s) || cs.AllSparse() ==> OnSet(cs, bb, t)
  {
    MvReducedNear(cs, bb, s, t, D);
    if OnSet(cs, bb, s) || cs.AllSparse() {
      forall k | 0 <= k < |t| ensures OnCube(cs, bb, t[k].parts) {
        assert NearOnCube(cs, bb, t[k].parts) && t[k] in t;
        assert ReducedFrom(cs, s, t[k].parts);
        var c :| c in s && ReducedCube(cs, c.parts, t[k].parts);
        var j := Position(s, c);
        assert OnSet(cs, bb, s) ==> OnCube(cs, bb, s[j].parts);
        forall v | 0 <= v < cs.numVars ensures t[k].parts * cs.varMask[v] != {} {
          if !cs.sparse[v] && v >= cs.numBinaryVars {
            var i :| i in c.parts * cs.varMask[v];
            assert c.parts * cs.varMask[v] <= t[k].parts;
            assert i in t[k].parts * cs.varMask[v];
          }
        }
      }
    }
  }

  /** mv_reduce on a cover that misses the OFF-set. */
  method ReduceStep(cs: Shape, F: Cover, D: seq<Cube>, R: Cover) returns (cost: Cost)
    requires F != R && NearOnSet(cs, R.cubes, F.cubes)
    modifies F
    ensures NearOnSet(cs, R.cubes, F.cubes) && Keeps(cs, old(F.cubes), F.cubes, D)
    ensures OnSet(cs, R.cubes, old(F.cubes)) || cs.AllSparse() ==> OnSet(cs, R.cubes, F.cubes)
    ensures |F.cubes| <= SparseCount(cs, old(F.cubes))
    ensures cost.total == TotalLiterals(cs, F.cubes) <= TotalLiterals(cs, old(F.cubes))
  {
    ghost var s := F.cubes;
    MvReduce(cs, F, D);
    MvReducedNear(cs, R.cubes, s, F.cubes, D);
    MvReducedOnSet(cs, R.cubes, s, F.cubes, D);
    cost := CoverCostOf(cs, F.cubes);
  }

  /** expand with nonsparse set. */
  method RaiseStep(cs: Shape, F: Cover, ghost D: seq<Cube>, R: Cover) returns (cost: Cost)
    requires F != R && OffSet(cs, R.cubes) && NearOnSet(cs, R.cubes, F.cubes)
    modifies F, R
    ensures PartsKept(old(R.cubes), R.cubes) && OffSet(cs, R.cubes)
    ensures NearOnSet(cs, R.cubes, F.cubes) && (OnSet(cs, old(R.cubes), old(F.cubes)) ==> OnSet(cs, R.cubes, F.cubes))
    ensures Keeps(cs, old(F.cubes), F.cubes, D) && |F.cubes| <= |old(F.cubes)|
    ensures cost.total == TotalLiterals(cs, F.cubes) <= TotalLiterals(cs, old(F.cubes))
  {
    ghost var s, bb := F.cubes, R.cubes;
    ghost var initLower := Expand(cs, F, R, true);
    if OnSet(cs, bb, s) {
      OnSetKept(cs, bb, R.cubes, s);
      ExpansionOnSet(cs, R.cubes, s, F.cubes, initLower);
    }
    ExpansionNear(cs, R.cubes, s, F.cubes, initLower);
    DominatesKeeps(cs, s, F.cubes, D);
    cost := CoverCostOf(cs, F.cubes);
  }

  /**
   make_sparse -- the loop ends because the literal count must drop for it to go on.  Nothing in the result is
   void if nothing was before, or if every variable that is not binary is sparse.
   */
  method MakeSparse(cs: Shape, F: Cover, D: seq<Cube>, R: Cover, forceIrredundant: bool)
    requires F != R && OffSet(cs, R.cubes) && NearOnSet(cs, R.cubes, F.cubes)
    modifies F, R
    ensures PartsKept(old(R.cubes), R.cubes) && OffSet(cs, R.cubes)
    ensures NearOnSet(cs, R.cubes, F.cubes) && Keeps(cs, old(F.cubes), F.cubes, D)
    ensures OnSet(cs, old(R.cubes), old(F.cubes)) || cs.AllSparse() ==> OnSet(cs, R.cubes, F.cubes)
    ensures |F.cubes| <= SparseCount(cs, old(F.cubes))
    ensures TotalLiterals(cs, F.cubes) <= TotalLiterals(cs, old(F.cubes))
  {
    ghost var s, bb, first := F.cubes, R.cubes, true;
    ghost var nonvoid := OnSet(cs, bb, s) || cs.AllSparse();
    var bestCost := CoverCostOf(cs, F.cubes);
    var again := true;
    while again
      invariant PartsKept(bb, R.cubes) && OffSet(cs, R.cubes) && NearOnSet(cs, R.cubes, F.cubes)
      invariant if first then F.cubes == s && R.cubes == bb else
                  |F.cubes| <= SparseCount(cs, s) && (nonvoid ==> OnSet(cs, R.cubes, F.cubes))
      invariant Keeps(cs, s, F.cubes, D) && (!again ==> !first)
      invariant bestCost.total == TotalLiterals(cs, F.cubes) <= TotalLiterals(cs, s)
      decreases again, bestCost.total
    {
      ghost var t := F.cubes;
      var cost := ReduceStep(cs, F, D, R);
      first := false;
      KeepsTrans(cs, s, t, F.cubes, D);
      if cost.total == bestCost.total {
        break;
      }
      bestCost := cost;
      ghost var u := F.cubes;
      cost := RaiseStep(cs, F, D, R);
      KeepsTrans(cs, s, u, F.cubes, D);
      if cost.total == bestCost.total {
        break;
      }
      bestCost := cost;
      again := forceIrredundant;
    }
  }
}
