/** sharp.c: sharp, disjoint sharp and intersection of covers. */
module Sharp {
  import opened Cubes
  import opened Containment
  import opened Recursion

  /** No two cubes share a minterm. */
  ghost predicate PairwiseDisjoint(cs: Shape, s: seq<Cube>) {
    forall i, j, m :: 0 <= i < j < |s| && cs.Minterm(m) && In(m, s[i].parts) ==> !In(m, s[j].parts)
  }

  /** Dropping or rearranging cubes keeps them disjoint. */
  lemma StaysDisjoint(cs: Shape, s: seq<Cube>, t: seq<Cube>)
    requires PairwiseDisjoint(cs, s) && multiset(t) <= multiset(s)
    ensures PairwiseDisjoint(cs, t)
  {
    forall i, j, m | 0 <= i < j < |t| && cs.Minterm(m) && In(m, t[i].parts) ensures !In(m, t[j].parts) {
      if t[i] == t[j] {
        Twice(t, i, j);
        var x, y := Repeated(s, t[i]);
      } else {
        assert t[i] in multiset(s) && t[j] in multiset(s);
        var x := Position(s, t[i]);
        var y := Position(s, t[j]);
      }
    }
  }

  lemma HeldByLarger(m: seq<nat>, A: seq<Cube>, R: seq<Cube>)
    requires Dominates(R, A) && Covered(m, A)
    ensures Covered(m, R)
  {
    var c :| c in A && In(m, c.parts);
    assert Within(c.parts, R);
    var r :| r in R && c.parts <= r.parts;
    assert In(m, r.parts);
  }

  lemma UnionCovered(m: seq<nat>, A: seq<Cube>, B: seq<Cube>, R: seq<Cube>)
    requires (forall r :: r in R ==> HasParts(A, r.parts) || HasParts(B, r.parts)) && Dominates(R, A) && Dominates(R, B)
    ensures Covered(m, R) <==> Covered(m, A) || Covered(m, B)
  {
    if Covered(m, A) {
      HeldByLarger(m, A, R);
    }
    if Covered(m, B) {
      HeldByLarger(m, B, R);
    }
  }

  lemma SingleHolds(m: seq<nat>, c: Cube)
    ensures Covered(m, [c]) <==> In(m, c.parts)
  {
    assert c in [c];
  }

  // ---------- dsharp ----------

  /** v is the first variable in which m leaves b. */
  ghost predicate FirstOut(m: seq<nat>, b: set<nat>, v: nat) {
    v < |m| && m[v] !in b && forall u :: 0 <= u < v ==> m[u] in b
  }

  /** The cube that dsharp makes for variable v: a - b there, a & b in the variables of done, a elsewhere. */
  ghost predicate Piece(cs: Shape, a: set<nat>, b: set<nat>, v: nat, q: set<nat>) {
    forall m :: cs.Minterm(m) ==> (In(m, q) <==> In(m, a) && FirstOut(m, b, v))
  }

  /** done is the union of the variables before v in which a leaves b. */
  ghost predicate DoneMask(cs: Shape, a: set<nat>, b: set<nat>, v: nat, done: set<nat>)
    requires v <= cs.numVars
  {
    forall u, i {:trigger i in done, cs.varMask[u]} :: 0 <= u < cs.numVars && i in cs.varMask[u] ==>
      (i in done <==> u < v && (a - b) * cs.varMask[u] != {})
  }

  lemma PieceMade(cs: Shape, a: set<nat>, b: set<nat>, v: nat, done: set<nat>, q: set<nat>)
    requires v < cs.numVars && DoneMask(cs, a, b, v, done)
    requires q == ((a - b) * cs.varMask[v] + a * b * done) + (a - (done + cs.varMask[v]))
    ensures Piece(cs, a, b, v, q)
  {
    forall m | cs.Minterm(m) ensures In(m, q) <==> In(m, a) && FirstOut(m, b, v) {
      forall u | 0 <= u < |m|
        ensures m[u] in q <==> m[u] in a && (u == v ==> m[u] !in b) && (u < v ==> m[u] in b)
      {
        assert m[u] in cs.varMask[u];
        assert m[u] in done <==> u < v && (a - b) * cs.varMask[u] != {};
        if u < v && m[u] in a && m[u] !in b {
          assert m[u] in (a - b) * cs.varMask[u];
        }
      }
      assert In(m, q) <==> forall u :: 0 <= u < |m| ==> m[u] in q;
      if In(m, q) {
        assert m[v] in q;
      }
    }
  }

  lemma DoneNext(cs: Shape, a: set<nat>, b: set<nat>, v: nat, done: set<nat>, done': set<nat>)
    requires v < cs.numVars && DoneMask(cs, a, b, v, done)
    requires done' == if (a - b) * cs.varMask[v] != {} then done + cs.varMask[v] else done
    ensures DoneMask(cs, a, b, v + 1, done')
  {
    forall u, i | 0 <= u < cs.numVars && i in cs.varMask[u]
      ensures i in done' <==> u < v + 1 && (a - b) * cs.varMask[u] != {}
    {
      assert i in done <==> u < v && (a - b) * cs.varMask[u] != {};
      assert i in cs.varMask[v] <==> u == v;
    }
  }

  /** r[k] is the piece for variable vars[k]; every variable below n in which a leaves b is listed. */
  ghost predicate Pieces(cs: Shape, a: set<nat>, b: set<nat>, n: nat, r: seq<Cube>, vars: seq<nat>)
    requires n <= cs.numVars
  {
    && |r| == |vars|
    && (forall k :: 0 <= k < |r| ==> vars[k] < n && r[k].parts <= a && Piece(cs, a, b, vars[k], r[k].parts))
    && (forall j, k :: 0 <= j < k < |vars| ==> vars[j] < vars[k])
    && (forall v :: 0 <= v < n && (a - b) * cs.varMask[v] != {} ==> v in vars)
  }

  /** A set just allocated: its SIZE field holds whatever was in memory. */
  method NewSet(parts: set<nat>) returns (c: Cube)
    ensures c.parts == parts
  {
    var size: nat := *;
    c := MkCube(parts).(size := size);
  }

  /** dsharp -- the minterms of a outside b, each in the piece of the first variable in which it leaves b. */
  method Dsharp(cs: Shape, a: Cube, b: set<nat>) returns (r: seq<Cube>)
    ensures forall m :: cs.Minterm(m) ==> (Covered(m, r) <==> In(m, a.parts) && !In(m, b))
    ensures PairwiseDisjoint(cs, r) && forall c :: c in r ==> c.parts <= a.parts
  {
    if Distance0(cs, a.parts, b) {
      var diff, both := a.parts - b, a.parts * b;
      var mask: set<nat> := {};
      ghost var vars: seq<nat> := [];
      r := [];
      for v := 0 to cs.numVars
        invariant Pieces(cs, a.parts, b, v, r, vars) && DoneMask(cs, a.parts, b, v, mask)
      {
        ghost var done := mask;
        if diff * cs.varMask[v] != {} {
          var temp := diff * cs.varMask[v];
          temp := temp + both * mask;
          mask := mask + cs.varMask[v];
          temp := temp + (a.parts - mask);
          PieceMade(cs, a.parts, b, v, done, temp);
          var piece := NewSet(temp);
          r, vars := r + [piece], vars + [v];
        }
        DoneNext(cs, a.parts, b, v, done, mask);
      }
      PiecesHold(cs, a.parts, b, r, vars);
    } else {
      r := [a];
      forall m | cs.Minterm(m) ensures Covered(m, r) <==> In(m, a.parts) && !In(m, b) {
        SingleHolds(m, a);
        var v :| 0 <= v < cs.numVars && a.parts * b * cs.varMask[v] == {};
        assert m[v] in cs.varMask[v] && m[v] !in a.parts * b * cs.varMask[v];
      }
    }
  }

  lemma PiecesHold(cs: Shape, a: set<nat>, b: set<nat>, r: seq<Cube>, vars: seq<nat>)
    requires Pieces(cs, a, b, cs.numVars, r, vars)
    ensures forall m :: cs.Minterm(m) ==> (Covered(m, r) <==> In(m, a) && !In(m, b))
    ensures PairwiseDisjoint(cs, r)
  {
    forall m | cs.Minterm(m) ensures Covered(m, r) <==> In(m, a) && !In(m, b) {
      if Covered(m, r) {
        var c :| c in r && In(m, c.parts);
        var k :| 0 <= k < |r| && r[k] == c;
        assert FirstOut(m, b, vars[k]);
      }
      if In(m, a) && !In(m, b) {
        var v := FindFirst(m, b);
        assert m[v] in cs.varMask[v] && m[v] in (a - b) * cs.varMask[v];
        assert v in vars;
        var k :| 0 <= k < |vars| && vars[k] == v;
        assert r[k] in r;
      }
    }
    forall j, k, m | 0 <= j < k < |r| && cs.Minterm(m) && In(m, r[j].parts) ensures !In(m, r[k].parts) {
      assert FirstOut(m, b, vars[j]);
      assert vars[j] != vars[k];
    }
  }

  lemma FindFirst(m: seq<nat>, b: set<nat>) returns (v: nat)
    requires !In(m, b)
    ensures FirstOut(m, b, v)
  {
    v := 0;
    while m[v] in b
      invariant v < |m| && forall u :: 0 <= u < v ==> m[u] in b
      decreases |m| - v
    {
      if v + 1 == |m| {
        assert In(m, b);
      }
      v := v + 1;
    }
  }

  // ---------- disjoint sharp of covers ----------

  /** cb1_dsharp -- what the cover T holds outside the cube c; the families sf_union gets are in no order. */
  method Cb1Dsharp(cs: Shape, T: seq<Cube>, c: set<nat>) returns (R: seq<Cube>)
    requires PairwiseDisjoint(cs, T)
    ensures forall m :: cs.Minterm(m) ==> (Covered(m, R) <==> Covered(m, T) && !In(m, c))
    ensures PairwiseDisjoint(cs, R)
  {
    R := [];
    for k := 0 to |T|
      invariant forall m :: cs.Minterm(m) ==> (Covered(m, R) <==> Covered(m, T[..k]) && !In(m, c))
      invariant PairwiseDisjoint(cs, R)
    {
      var pieces := Dsharp(cs, T[k], c);
      ghost var R0 := R;
      R := SfUnion(R, pieces);
      assert T[..k + 1] == T[..k] + [T[k]];
      forall m | cs.Minterm(m) ensures Covered(m, R) <==> Covered(m, T[..k + 1]) && !In(m, c) {
        UnionCovered(m, R0, pieces, R);
        CoveredAppend(m, T[..k], [T[k]]);
        SingleHolds(m, T[k]);
      }
      StillDisjoint(cs, T, k, c, R0, pieces, R);
    }
    assert T[..|T|] == T;
  }

  lemma StillDisjoint(cs: Shape, T: seq<Cube>, k: nat, c: set<nat>, R0: seq<Cube>, pieces: seq<Cube>, R: seq<Cube>)
    requires k < |T| && PairwiseDisjoint(cs, T) && PairwiseDisjoint(cs, R0) && PairwiseDisjoint(cs, pieces)
    requires forall m :: cs.Minterm(m) ==> (Covered(m, R0) <==> Covered(m, T[..k]) && !In(m, c))
    requires (forall p :: p in pieces ==> p.parts <= T[k].parts) && multiset(R) <= multiset(R0) + multiset(pieces)
    ensures PairwiseDisjoint(cs, R)
  {
    forall m | cs.Minterm(m) && Covered(m, R0) ensures !In(m, T[k].parts) {
      var t :| t in T[..k] && In(m, t.parts);
      var j := Position(T[..k], t);
    }
    forall m | cs.Minterm(m) && Covered(m, pieces) ensures In(m, T[k].parts) {
      var p :| p in pieces && In(m, p.parts);
    }
    DisjointJoin(cs, R0, pieces);
    StaysDisjoint(cs, R0 + pieces, R);
  }

  /** cb_dsharp -- what the cube c holds outside the cover T. */
  method CbDsharp(cs: Shape, c: Cube, T: seq<Cube>) returns (Y: seq<Cube>)
    ensures forall m :: cs.Minterm(m) ==> (Covered(m, Y) <==> In(m, c.parts) && !Covered(m, T))
    ensures PairwiseDisjoint(cs, Y)
  {
    Y := [c];
    forall m ensures Covered(m, Y) <==> In(m, c.parts) {
      SingleHolds(m, c);
    }
    for k := 0 to |T|
      invariant forall m :: cs.Minterm(m) ==> (Covered(m, Y) <==> In(m, c.parts) && !Covered(m, T[..k]))
      invariant PairwiseDisjoint(cs, Y)
    {
      assert T[..k + 1] == T[..k] + [T[k]];
      Y := Cb1Dsharp(cs, Y, T[k].parts);
      forall m | cs.Minterm(m) ensures Covered(m, T[..k + 1]) <==> Covered(m, T[..k]) || In(m, T[k].parts) {
        CoveredAppend(m, T[..k], [T[k]]);
        SingleHolds(m, T[k]);
      }
    }
    assert T[..|T|] == T;
  }

  /** make_disjoint -- pairwise disjoint cubes with the same union. */
  method MakeDisjoint(cs: Shape, A: seq<Cube>) returns (R: seq<Cube>)
    ensures PairwiseDisjoint(cs, R)
    ensures forall m :: cs.Minterm(m) ==> (Covered(m, R) <==> Covered(m, A))
  {
    R := [];
    for k := 0 to |A|
      invariant PairwiseDisjoint(cs, R)
      invariant forall m :: cs.Minterm(m) ==> (Covered(m, R) <==> Covered(m, A[..k]))
    {
      assert A[..k + 1] == A[..k] + [A[k]];
      var more := CbDsharp(cs, A[k], R);
      DisjointJoin(cs, R, more);
      forall m | cs.Minterm(m) ensures Covered(m, R + more) <==> Covered(m, A[..k + 1]) {
        CoveredAppend(m, R, more);
        CoveredAppend(m, A[..k], [A[k]]);
        SingleHolds(m, A[k]);
      }
      R := R + more;
    }
    assert A[..|A|] == A;
  }

  lemma DisjointJoin(cs: Shape, R: seq<Cube>, S: seq<Cube>)
    requires PairwiseDisjoint(cs, R) && PairwiseDisjoint(cs, S) &&
      forall m :: cs.Minterm(m) && Covered(m, S) ==> !Covered(m, R)
    ensures PairwiseDisjoint(cs, R + S)
  {
    var T := R + S;
    forall i, j, m | 0 <= i < j < |T| && cs.Minterm(m) && In(m, T[i].parts) ensures !In(m, T[j].parts) {
      if i < |R| <= j {
        assert T[i] in R && T[j] in S;
      }
    }
  }

  /** cv_dsharp -- A minus B. */
  method CvDsharp(cs: Shape, A: seq<Cube>, B: seq<Cube>) returns (T: seq<Cube>)
    ensures forall m :: cs.Minterm(m) ==> (Covered(m, T) <==> Covered(m, A) && !Covered(m, B))
  {
    T := [];
    for k := 0 to |A|
      invariant forall m :: cs.Minterm(m) ==> (Covered(m, T) <==> Covered(m, A[..k]) && !Covered(m, B))
    {
      assert A[..k + 1] == A[..k] + [A[k]];
      var more := CbDsharp(cs, A[k], B);
      ghost var T0 := T;
      T := SfUnion(T, more);
      forall m | cs.Minterm(m) ensures Covered(m, T) <==> Covered(m, A[..k + 1]) && !Covered(m, B) {
        UnionCovered(m, T0, more, T);
        CoveredAppend(m, A[..k], [A[k]]);
        SingleHolds(m, A[k]);
      }
    }
    assert A[..|A|] == A;
  }

  // ---------- sharp ----------

  /** sharp -- the pieces of a outside b; they may overlap. */
  method SharpCubes(cs: Shape, a: Cube, b: set<nat>) returns (r: seq<Cube>)
    ensures forall m :: cs.Minterm(m) ==> (Covered(m, r) <==> In(m, a.parts) && !In(m, b))
  {
    if Distance0(cs, a.parts, b) {
      var d := a.parts - b;
      r := [];
      for v := 0 to cs.numVars
        invariant forall m :: cs.Minterm(m) ==>
          (Covered(m, r) <==> In(m, a.parts) && exists u :: 0 <= u < v && m[u] !in b)
      {
        var temp := d * cs.varMask[v];
        ghost var r0 := r;
        var piece := NewSet(temp + (a.parts - cs.varMask[v]));
        if temp != {} {
          r := r + [piece];
        }
        forall m | cs.Minterm(m)
          ensures Covered(m, r) <==> In(m, a.parts) && exists u :: 0 <= u < v + 1 && m[u] !in b
        {
          SharpPiece(cs, a.parts, b, v, m);
          if temp != {} {
            CoveredAppend(m, r0, [piece]);
            SingleHolds(m, piece);
          }
        }
      }
    } else {
      r := [a];
      forall m | cs.Minterm(m) ensures Covered(m, r) <==> In(m, a.parts) && !In(m, b) {
        SingleHolds(m, a);
        var v :| 0 <= v < cs.numVars && a.parts * b * cs.varMask[v] == {};
        assert m[v] in cs.varMask[v] && m[v] !in a.parts * b * cs.varMask[v];
      }
    }
  }

  lemma SharpPiece(cs: Shape, a: set<nat>, b: set<nat>, v: nat, m: seq<nat>)
    requires v < cs.numVars && cs.Minterm(m)
    ensures In(m, (a - b) * cs.varMask[v] + (a - cs.varMask[v])) <==> In(m, a) && m[v] !in b
    ensures In(m, a) && m[v] !in b ==> (a - b) * cs.varMask[v] != {}
  {
    var q := (a - b) * cs.varMask[v] + (a - cs.varMask[v]);
    forall u | 0 <= u < |m| ensures m[u] in q <==> m[u] in a && (u == v ==> m[u] !in b) {
      assert m[u] in cs.varMask[u];
      assert m[u] in cs.varMask[v] <==> u == v;
    }
    if In(m, q) {
      assert m[v] in q;
    }
    if In(m, a) && m[v] !in b {
      assert m[v] in (a - b) * cs.varMask[v];
    }
  }

  /** cv_intersect -- pairwise intersections, contained when 500 have been saved. */
  method CvIntersect(cs: Shape, A: seq<Cube>, B: seq<Cube>) returns (R: seq<Cube>)
    ensures forall m :: cs.Minterm(m) ==> (Covered(m, R) <==> Covered(m, A) && Covered(m, B))
  {
    var saved, T: seq<Cube> := [], [];
    for i := 0 to |A|
      invariant forall m :: cs.Minterm(m) ==>
        (Covered(m, saved) || Covered(m, T) <==> Covered(m, A[..i]) && Covered(m, B))
    {
      ghost var saved0, T0 := saved, T;
      saved, T := IntersectRow(cs, A[i], B, saved, T);
      assert A[..i + 1] == A[..i] + [A[i]];
      forall m | cs.Minterm(m) ensures Covered(m, A[..i + 1]) <==> Covered(m, A[..i]) || In(m, A[i].parts) {
        CoveredAppend(m, A[..i], [A[i]]);
        SingleHolds(m, A[i]);
      }
    }
    assert A[..|A|] == A;
    R := SaveBuffer(saved, T);
  }

  /** sf_union(Tsave, sf_contain(T)) */
  method SaveBuffer(saved: seq<Cube>, T: seq<Cube>) returns (R: seq<Cube>)
    ensures forall m :: Covered(m, R) <==> Covered(m, saved) || Covered(m, T)
  {
    R := Flush(saved, T);
    forall m ensures Covered(m, R) <==> Covered(m, saved + T) {
      UnionCovered(m, saved + T, [], R);
    }
    forall m ensures Covered(m, saved + T) <==> Covered(m, saved) || Covered(m, T) {
      CoveredAppend(m, saved, T);
    }
  }

  /** One cube of A against all of B. */
  method IntersectRow(cs: Shape, a: Cube, B: seq<Cube>, saved0: seq<Cube>, T0: seq<Cube>)
    returns (saved: seq<Cube>, T: seq<Cube>)
    ensures forall m :: cs.Minterm(m) ==>
      (Covered(m, saved) || Covered(m, T) <==>
        Covered(m, saved0) || Covered(m, T0) || (In(m, a.parts) && Covered(m, B)))
  {
    saved, T := saved0, T0;
    for j := 0 to |B|
      invariant forall m :: cs.Minterm(m) ==>
        (Covered(m, saved) || Covered(m, T) <==>
          Covered(m, saved0) || Covered(m, T0) || (In(m, a.parts) && Covered(m, B[..j])))
    {
      assert B[..j + 1] == B[..j] + [B[j]];
      ghost var s1, t1 := saved, T;
      saved, T := IntersectPair(cs, a, B[j], saved, T);
      forall m | cs.Minterm(m) ensures Covered(m, B[..j + 1]) <==> Covered(m, B[..j]) || In(m, B[j].parts) {
        CoveredAppend(m, B[..j], [B[j]]);
        SingleHolds(m, B[j]);
      }
    }
    assert B[..|B|] == B;
  }

  lemma CollectHolds(saved0: seq<Cube>, T0: seq<Cube>, pt: set<nat>, saved: seq<Cube>, T: seq<Cube>)
    requires PartsFrom(saved + T, saved0 + T0 + [MkCube(pt)]) && Dominates(saved + T, saved0 + T0 + [MkCube(pt)])
    ensures forall m :: Covered(m, saved) || Covered(m, T) <==> Covered(m, saved0) || Covered(m, T0) || In(m, pt)
  {
    var c := MkCube(pt);
    var all := saved0 + T0 + [c];
    forall m ensures Covered(m, saved) || Covered(m, T) <==> Covered(m, saved0) || Covered(m, T0) || In(m, pt) {
      UnionCovered(m, all, [], saved + T);
      CoveredAppend(m, saved, T);
      CoveredAppend(m, saved0 + T0, [c]);
      CoveredAppend(m, saved0, T0);
      SingleHolds(m, c);
    }
  }

  method IntersectPair(cs: Shape, a: Cube, b: Cube, saved0: seq<Cube>, T0: seq<Cube>)
    returns (saved: seq<Cube>, T: seq<Cube>)
    ensures forall m :: cs.Minterm(m) ==>
      (Covered(m, saved) || Covered(m, T) <==>
        Covered(m, saved0) || Covered(m, T0) || (In(m, a.parts) && In(m, b.parts)))
  {
    saved, T := saved0, T0;
    if Distance0(cs, a.parts, b.parts) {
      saved, T := Collect(saved, T, a.parts * b.parts);
      CollectHolds(saved0, T0, a.parts * b.parts, saved, T);
    } else {
      forall m | cs.Minterm(m) ensures !(In(m, a.parts) && In(m, b.parts)) {
        var v :| 0 <= v < cs.numVars && a.parts * b.parts * cs.varMask[v] == {};
        assert m[v] in cs.varMask[v] && m[v] !in a.parts * b.parts * cs.varMask[v];
      }
    }
  }

  /** cb_recur_sharp -- balanced: c minus the cubes first..last of T. */
  method CbRecurSharp(cs: Shape, c: Cube, T: seq<Cube>, first: nat, last: nat) returns (temp: seq<Cube>)
    requires first <= last < |T|
    ensures forall m :: cs.Minterm(m) ==> (Covered(m, temp) <==> In(m, c.parts) && !Covered(m, T[first..last + 1]))
    decreases last - first
  {
    if first == last {
      temp := SharpCubes(cs, c, T[first].parts);
      assert T[first..last + 1] == [T[first]];
      forall m ensures Covered(m, [T[first]]) <==> In(m, T[first].parts) {
        SingleHolds(m, T[first]);
      }
    } else {
      var middle := (first + last) / 2;
      var left := CbRecurSharp(cs, c, T, first, middle);
      var right := CbRecurSharp(cs, c, T, middle + 1, last);
      temp := CvIntersect(cs, left, right);
      assert T[first..last + 1] == T[first..middle + 1] + T[middle + 1..last + 1];
      var low, high := T[first..middle + 1], T[middle + 1..last + 1];
      forall m | cs.Minterm(m) ensures Covered(m, low + high) <==> Covered(m, low) || Covered(m, high) {
        CoveredAppend(m, low, high);
      }
    }
  }

  /** cb_sharp -- c minus T. */
  method CbSharp(cs: Shape, c: Cube, T: seq<Cube>) returns (r: seq<Cube>)
    ensures forall m :: cs.Minterm(m) ==> (Covered(m, r) <==> In(m, c.parts) && !Covered(m, T))
  {
    if |T| == 0 {
      r := [c];
      forall m ensures Covered(m, r) <==> In(m, c.parts) {
        SingleHolds(m, c);
      }
    } else {
      r := CbRecurSharp(cs, c, T, 0, |T| - 1);
      assert T[0..|T|] == T;
    }
  }

  /** cv_sharp -- A minus B. */
  method CvSharp(cs: Shape, A: seq<Cube>, B: seq<Cube>) returns (T: seq<Cube>)
    ensures forall m :: cs.Minterm(m) ==> (Covered(m, T) <==> Covered(m, A) && !Covered(m, B))
  {
    T := [];
    for k := 0 to |A|
      invariant forall m :: cs.Minterm(m) ==> (Covered(m, T) <==> Covered(m, A[..k]) && !Covered(m, B))
    {
      assert A[..k + 1] == A[..k] + [A[k]];
      var more := CbSharp(cs, A[k], B);
      ghost var T0 := T;
      T := SfUnion(T, more);
      forall m | cs.Minterm(m) ensures Covered(m, T) <==> Covered(m, A[..k + 1]) && !Covered(m, B) {
        UnionCovered(m, T0, more, T);
        CoveredAppend(m, A[..k], [A[k]]);
        SingleHolds(m, A[k]);
      }
    }
    assert A[..|A|] == A;
  }
}
