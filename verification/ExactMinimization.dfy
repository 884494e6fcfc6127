/** exact.c: exact two-level minimization, from prime generation to the minimum column cover. */
module ExactMinimization {
  import opened Cubes
  import opened Cofactor
  import opened Recursion
  import opened Irred
  import opened Containment
  import opened Primes
  import opened SetOps
  import opened SortedLists
  import opened SparseMatrix
  import opened Covering
  import opened CoveringTable
  import opened Redundancy
  import opened Mincov
  import opened ExpandPass
  import opened Sparse

  // ---------- covers by implicants ----------

  /** G covers F up to D, by implicants of F and D. */
  ghost predicate CoverOf(cs: Shape, F: seq<Cube>, D: seq<Cube>, G: seq<Cube>) {
    && (forall g :: g in G ==> g.parts <= cs.fullset && Implicant(cs, F + D, {}, g.parts))
    && (forall m :: cs.Minterm(m) && Covered(m, F) ==> Covered(m, G) || Covered(m, D))
  }

  ghost function NonVoidOnly(cs: Shape, G: seq<Cube>): seq<Cube> {
    if G == [] then [] else
      var n := |G| - 1;
      NonVoidOnly(cs, G[..n]) + (if NonVoid(cs, G[n].parts) then [G[n]] else [])
  }

  lemma {:induction false} NonVoidMembers(cs: Shape, G: seq<Cube>, g: Cube)
    ensures g in NonVoidOnly(cs, G) <==> g in G && NonVoid(cs, g.parts)
  {
    if G != [] {
      var n := |G| - 1;
      assert G == G[..n] + [G[n]];
      NonVoidMembers(cs, G[..n], g);
    }
  }

  lemma {:induction false} NonVoidSize(cs: Shape, G: seq<Cube>)
    ensures |NonVoidOnly(cs, G)| <= |G|
    ensures |NonVoidOnly(cs, G)| == |G| <==> forall g :: g in G ==> NonVoid(cs, g.parts)
  {
    if G != [] {
      var n := |G| - 1;
      assert forall g :: g in G <==> g in G[..n] || g == G[n] by { assert G == G[..n] + [G[n]]; }
      NonVoidSize(cs, G[..n]);
    }
  }

  /** No cover of F up to D by implicants has fewer cubes than G. */
  ghost predicate MinimumSize(cs: Shape, F: seq<Cube>, D: seq<Cube>, G: seq<Cube>) {
    && CoverOf(cs, F, D, G)
    && forall H :: CoverOf(cs, F, D, H) ==> |G| <= |H|
  }

  lemma AppendCovered(m: seq<nat>, A: seq<Cube>, B: seq<Cube>)
    ensures CoveredBy(m, A + B, {}, All) <==> Covered(m, A) || Covered(m, B)
  {
    if CoveredBy(m, A + B, {}, All) {
      var c :| c in A + B && In(m, c.parts + {});
      assert c.parts + {} == c.parts;
    }
    if Covered(m, A) || Covered(m, B) {
      var c :| (c in A || c in B) && In(m, c.parts);
      assert c in A + B && c.parts + {} == c.parts;
    }
  }

  /** The cube that holds nothing but m. */
  lemma MintermCube(cs: Shape, m: seq<nat>, cubes: seq<Cube>) returns (p: set<nat>)
    requires cs.Minterm(m) && CoveredBy(m, cubes, {}, All)
    ensures In(m, p) && DomImplicant(cs, cubes, {}, p)
  {
    p := set v | 0 <= v < |m| :: m[v];
    forall i | i in p ensures i in cs.fullset - {} {
      var v :| 0 <= v < |m| && m[v] == i;
      assert i in cs.varMask[v];
    }
    forall v | 0 <= v < cs.numVars ensures p * cs.varMask[v] != {} {
      assert m[v] in p * cs.varMask[v];
    }
    forall n | OnDom(cs, {}, n) && In(n, p) ensures CoveredBy(n, cubes, {}, All) {
      forall v | 0 <= v < cs.numVars ensures n[v] == m[v] {
        assert n[v] in p;
        var u :| 0 <= u < |m| && m[u] == n[v];
        assert n[v] in cs.varMask[v] && m[u] in cs.varMask[u];
      }
      assert n == m;
    }
  }

  /** The generated implicants hold exactly the minterms of F and D. */
  lemma GeneratedCovers(cs: Shape, F: seq<Cube>, D: seq<Cube>, P: seq<Cube>, m: seq<nat>)
    requires Generates(cs, F + D, {}, P) && cs.Minterm(m)
    ensures Covered(m, P) <==> Covered(m, F) || Covered(m, D)
  {
    AppendCovered(m, F, D);
    if Covered(m, F) || Covered(m, D) {
      var p := MintermCube(cs, m, F + D);
      assert Within(p, P);
      var q :| q in P && p <= q.parts;
    }
    if Covered(m, P) {
      var q :| q in P && In(m, q.parts);
      assert OnDom(cs, {}, m);
    }
  }

  // ---------- selections from the generated implicants ----------

  /** The cubes of P with indices in I hold what P holds, up to D. */
  ghost predicate Selects(cs: Shape, P: seq<Cube>, D: seq<Cube>, I: set<nat>) {
    forall m :: cs.Minterm(m) && Covered(m, P) ==> Covered(m, D) || exists i :: i in I && i < |P| && In(m, P[i].parts)
  }

  ghost function IndicesOf(s: seq<Cube>): set<nat> {
    set c | c in s :: c.size
  }

  /** The nonvoid relatively essential cubes. */
  ghost function EssentialIndices(cs: Shape, P: seq<Cube>, D: seq<Cube>): set<nat> {
    set i | 0 <= i < |P| && NonVoid(cs, P[i].parts) && !Redundant(cs, P, D, i)
  }

  /** Every selection holds them. */
  lemma EssentialSelected(cs: Shape, P: seq<Cube>, D: seq<Cube>, I: set<nat>)
    requires Selects(cs, P, D, I)
    ensures EssentialIndices(cs, P, D) <= I
  {
    forall i | i in EssentialIndices(cs, P, D) ensures i in I {
      assert !CubeCovered(cs, P + D, i, P[i].parts, All);
      var m :| cs.Minterm(m) && In(m, P[i].parts) &&
               forall k :: 0 <= k < |P + D| && k != i ==> !In(m, (P + D)[k].parts);
      assert P[i] in P;
      forall d | d in D ensures !In(m, d.parts) {
        var k :| 0 <= k < |D| && D[k] == d;
        assert (P + D)[|P| + k] == d;
      }
      var j :| j in I && j < |P| && In(m, P[j].parts);
      assert (P + D)[j] == P[j];
    }
  }

  /** The partially redundant cubes of a selection complete the essential ones. */
  lemma SelectionComplete(cs: Shape, P: seq<Cube>, D: seq<Cube>, E: seq<Cube>, Rt: seq<Cube>, Rp: seq<Cube>,
                          I: set<nat>)
    requires SplitOf(cs, P, D, E, Rt, Rp) && Selects(cs, P, D, I)
    ensures Complete(cs, D, E, Rp, I * IndicesOf(Rp), |Rp|)
  {
    var S := I * IndicesOf(Rp);
    forall j, m | 0 <= j < |Rp| && cs.Minterm(m) && In(m, Rp[j].parts) ensures Chosen(m, D, E, Rp, S) {
      assert P[Rp[j].size] in P;
      if !Covered(m, D) {
        var i :| i in I && i < |P| && In(m, P[i].parts);
        if P[i] in Rt {
          var k :| 0 <= k < |E + D| && Uses(All, (E + D)[k]) && In(m, (E + D)[k].parts);
          var x := (E + D)[k];
          assert x in E + D;
        } else if P[i] in Rp {
          assert P[i].size in IndicesOf(Rp);
        }
      }
    }
  }

  /** w and W agree on the columns in X. */
  ghost predicate AgreeOn(w: Weights, W: Weights, X: set<nat>) {
    forall x :: x in X ==> WeightOf(w, x) == WeightOf(W, x)
  }

  lemma {:induction false} CostAgree(w: Weights, W: Weights, S: set<nat>, X: set<nat>)
    requires AgreeOn(w, W, X) && S <= X
    ensures Cost(w, S) == Cost(W, S)
  {
    if S != {} {
      var c :| c in S;
      CostRemove(w, S, c);
      CostRemove(W, S, c);
      CostAgree(w, W, S - {c}, X);
    }
  }

  /** The essential cubes and a minimum cover of the table cost no more than any selection. */
  lemma CheapestSelection(cs: Shape, P: seq<Cube>, D: seq<Cube>, E: seq<Cube>, Rt: seq<Cube>, Rp: seq<Cube>,
                          rows: Rows, w: Weights, W: Weights, S: set<nat>, I: set<nat>)
    requires SplitOf(cs, P, D, E, Rt, Rp) && Exact(cs, D, E, Rp, |Rp|, rows)
    requires MinimumCover(w, rows, S) && S <= IndicesOf(Rp) && AgreeOn(w, W, IndicesOf(Rp))
    requires Selects(cs, P, D, I)
    ensures Cost(W, EssentialIndices(cs, P, D) + S) <= Cost(W, I)
    ensures EssentialIndices(cs, P, D) !! S
  {
    var N, X := EssentialIndices(cs, P, D), IndicesOf(Rp);
    EssentialSelected(cs, P, D, I);
    SelectionComplete(cs, P, D, E, Rt, Rp, I);
    assert IsCover(rows, I * X);
    CostAgree(w, W, S, X);
    CostAgree(w, W, I * X, X);
    forall i | i in N ensures i !in X {
      assert P[i] in E;
      forall c | c in Rp ensures c.size != i {
        assert P[c.size] == c;
      }
    }
    CostUnion(W, N, S);
    CostUnion(W, N, I * X);
    CostSubset(W, N + I * X, I);
  }

  // ---------- from covers to selections ----------

  /** Every cover by implicants yields a selection with no more cubes. */
  lemma {:induction false} SelectionOf(cs: Shape, cubes: seq<Cube>, P: seq<Cube>, G: seq<Cube>) returns (I: set<nat>)
    requires Generates(cs, cubes, {}, P)
    requires forall g :: g in G ==> g.parts <= cs.fullset && Implicant(cs, cubes, {}, g.parts)
    ensures |I| <= |G|
    ensures forall g {:trigger HeldBy(P, I, g.parts)} :: g in G && NonVoid(cs, g.parts) ==> HeldBy(P, I, g.parts)
  {
    if G == [] {
      I := {};
    } else {
      var n := |G| - 1;
      var J := SelectionOf(cs, cubes, P, G[..n]);
      assert G[n] in G;
      if NonVoid(cs, G[n].parts) {
        assert DomImplicant(cs, cubes, {}, G[n].parts);
        assert Within(G[n].parts, P);
        var q :| q in P && G[n].parts <= q.parts;
        var i :| 0 <= i < |P| && P[i] == q;
        I := J + {i};
        assert HeldBy(P, I, G[n].parts);
      } else {
        I := J;
      }
      forall g | g in G && NonVoid(cs, g.parts) ensures HeldBy(P, I, g.parts) {
        if g != G[n] {
          assert g in G[..n];
          assert HeldBy(P, J, g.parts);
        }
      }
    }
  }

  /** Some cube of P with an index in I contains p. */
  ghost predicate HeldBy(P: seq<Cube>, I: set<nat>, p: set<nat>) {
    exists i :: i in I && i < |P| && p <= P[i].parts
  }

  lemma CoverSelects(cs: Shape, F: seq<Cube>, D: seq<Cube>, P: seq<Cube>, G: seq<Cube>) returns (I: set<nat>)
    requires Generates(cs, F + D, {}, P) && CoverOf(cs, F, D, G)
    ensures |I| <= |G| && Selects(cs, P, D, I)
  {
    I := SelectionOf(cs, F + D, P, G);
    forall m | cs.Minterm(m) && Covered(m, P) && !Covered(m, D)
      ensures exists i :: i in I && i < |P| && In(m, P[i].parts)
    {
      GeneratedCovers(cs, F, D, P, m);
      var g :| g in G && In(m, g.parts);
      forall v | 0 <= v < cs.numVars ensures g.parts * cs.varMask[v] != {} {
        assert m[v] in g.parts * cs.varMask[v];
      }
      assert HeldBy(P, I, g.parts);
    }
  }

  // ---------- literal weights ----------

  /** The literals of p: 0's outside the output variable, 1's in it. */
  function Literals(cs: Shape, output: nat, p: set<nat>): nat
    requires output < cs.numVars
  {
    |cs.fullset - cs.varMask[output] - p| + |p * cs.varMask[output]|
  }

  lemma {:induction false} RangeSize(n: nat, s: set<nat>)
    requires forall i :: i in s <==> 0 <= i < n
    ensures |s| == n
  {
    if n > 0 {
      RangeSize(n - 1, s - {n - 1});
    } else {
      assert s == {};
    }
  }

  /** The loop over the output variable: 1's count up, 0's count down. */
  method OutputCorrection(cs: Shape, output: nat, p: set<nat>) returns (d: int)
    requires output < cs.numVars
    ensures d == |p * cs.varMask[output]| - |cs.varMask[output] - p|
  {
    ghost var ones: set<nat>, zeros: set<nat> := {}, {};
    d := 0;
    for i := cs.firstPart[output] to cs.lastPart[output] + 1
      invariant d == |ones| - |zeros|
      invariant forall x :: x in ones <==> cs.firstPart[output] <= x < i && x in p
      invariant forall x :: x in zeros <==> cs.firstPart[output] <= x < i && x !in p
    {
      if i in p {
        d, ones := d + 1, ones + {i};
      } else {
        d, zeros := d - 1, zeros + {i};
      }
    }
    assert ones == p * cs.varMask[output];
    assert zeros == cs.varMask[output] - p;
  }

  /** cube.size - set_ord(p), corrected over the output variable. */
  method LiteralWeight(cs: Shape, output: nat, p: set<nat>) returns (weight: nat)
    requires output < cs.numVars && p <= cs.fullset
    ensures weight == Literals(cs, output, p)
  {
    ghost var out := cs.varMask[output];
    RangeSize(cs.size, cs.fullset);
    var d := OutputCorrection(cs, output, p);
    assert cs.fullset == p + (cs.fullset - p);
    assert out <= cs.fullset;
    assert cs.fullset - p == (cs.fullset - out - p) + (out - p);
    weight := cs.size - |p| + d;
  }

  /** The literal count of every cube of P. */
  ghost function LiteralWeights(cs: Shape, output: nat, P: seq<Cube>): Weights
    requires output < cs.numVars
  {
    PerColumn(map i: nat | 0 <= i < |P| :: Literals(cs, output, P[i].parts))
  }

  /** The weights array, filled for the partially redundant cubes. */
  method FillWeights(cs: Shape, output: nat, ghost P: seq<Cube>, Rp: seq<Cube>) returns (w: Weights)
    requires output < cs.numVars && SubList(P, Rp) && forall p :: p in P ==> p.parts <= cs.fullset
    ensures AgreeOn(w, LiteralWeights(cs, output, P), IndicesOf(Rp))
  {
    hide Literals;
    var weights: map<nat, nat> := map[];
    for k := 0 to |Rp|
      invariant forall j :: 0 <= j < k ==> Rp[j].size in weights
      invariant forall x :: x in weights ==> x < |P| && weights[x] == Literals(cs, output, P[x].parts)
    {
      assert P[Rp[k].size] in P;
      var weight := LiteralWeight(cs, output, Rp[k].parts);
      weights := weights[Rp[k].size := weight];
    }
    w := PerColumn(weights);
  }

  // ---------- do_minimize ----------

  ghost predicate Indexes(cover: seq<nat>, n: nat) {
    forall k :: 0 <= k < |cover| ==> cover[k] < n
  }

  /** The essential cubes followed by the cubes that were chosen. */
  ghost function Result(P: seq<Cube>, E: seq<Cube>, cover: seq<nat>): seq<Cube>
    requires Indexes(cover, |P|)
  {
    E + Taken(P, cover)
  }

  ghost function Taken(P: seq<Cube>, cover: seq<nat>): (r: seq<Cube>)
    requires Indexes(cover, |P|)
    ensures |r| == |cover| && forall k :: 0 <= k < |cover| ==> r[k] == P[cover[k]]
  {
    seq(|cover|, k requires 0 <= k < |cover| => P[cover[k]])
  }

  lemma ResultMembers(P: seq<Cube>, E: seq<Cube>, cover: seq<nat>, c: Cube)
    requires Indexes(cover, |P|)
    ensures c in Result(P, E, cover) <==> c in E || exists k :: 0 <= k < |cover| && P[cover[k]] == c
  {
    var r := Result(P, E, cover);
    if c in r && c !in E {
      var k :| 0 <= k < |r| && r[k] == c;
      assert P[cover[k - |E|]] == c;
    }
    if k :| 0 <= k < |cover| && P[cover[k]] == c {
      assert r[|E| + k] == c;
    }
  }

  /** The result is a cover of F up to D by implicants. */
  lemma ResultCovers(cs: Shape, F: seq<Cube>, D: seq<Cube>, P: seq<Cube>, E: seq<Cube>, Rt: seq<Cube>, Rp: seq<Cube>,
                     cover: seq<nat>)
    requires Generates(cs, F + D, {}, P) && SplitOf(cs, P, D, E, Rt, Rp)
    requires Indexes(cover, |P|) && (forall k :: 0 <= k < |cover| ==> P[cover[k]] in Rp) &&
      Complete(cs, D, E, Rp, Elems(cover), |Rp|)
    ensures CoverOf(cs, F, D, Result(P, E, cover))
    ensures forall g :: g in Result(P, E, cover) ==> g in P
  {
    var G := Result(P, E, cover);
    forall g | g in G ensures g in P {
      ResultMembers(P, E, cover, g);
    }
    forall m | cs.Minterm(m) && Covered(m, F) ensures Covered(m, G) || Covered(m, D) {
      GeneratedCovers(cs, F, D, P, m);
      SplitCovers(cs, P, D, E, Rt, Rp, Elems(cover), m);
      if !Covered(m, D) {
        var c :| (c in E || (c in Rp && c.size in cover)) && In(m, c.parts);
        ResultMembers(P, E, cover, c);
      }
    }
  }

  ghost function NonVoidIndices(cs: Shape, s: seq<Cube>): set<nat> {
    if s == [] then {} else
      var n := |s| - 1;
      NonVoidIndices(cs, s[..n]) + (if NonVoid(cs, s[n].parts) then {s[n].size} else {})
  }

  lemma {:induction false} NonVoidIndexOf(cs: Shape, s: seq<Cube>, x: nat)
    requires x in NonVoidIndices(cs, s)
    ensures exists k :: 0 <= k < |s| && NonVoid(cs, s[k].parts) && s[k].size == x
  {
    var n := |s| - 1;
    if !NonVoid(cs, s[n].parts) || s[n].size != x {
      NonVoidIndexOf(cs, s[..n], x);
      var k :| 0 <= k < n && NonVoid(cs, s[..n][k].parts) && s[..n][k].size == x;
      assert s[k] == s[..n][k];
    }
  }

  lemma {:induction false} NonVoidIndexIn(cs: Shape, s: seq<Cube>, k: nat)
    requires k < |s| && NonVoid(cs, s[k].parts)
    ensures s[k].size in NonVoidIndices(cs, s)
  {
    if k < |s| - 1 {
      NonVoidIndexIn(cs, s[..|s| - 1], k);
    }
  }

  ghost predicate Increasing(s: seq<Cube>) {
    forall j, k :: 0 <= j < k < |s| ==> s[j].size < s[k].size
  }

  lemma LastIndexNew(cs: Shape, s: seq<Cube>, c: Cube)
    requires forall k :: 0 <= k < |s| ==> s[k].size < c.size
    ensures c.size !in NonVoidIndices(cs, s)
  {
    if c.size in NonVoidIndices(cs, s) {
      NonVoidIndexOf(cs, s, c.size);
    }
  }

  lemma {:induction false} NonVoidCount(cs: Shape, s: seq<Cube>)
    requires Increasing(s)
    ensures |NonVoidOnly(cs, s)| == |NonVoidIndices(cs, s)|
  {
    if s != [] {
      var n := |s| - 1;
      NonVoidCount(cs, s[..n]);
      LastIndexNew(cs, s[..n], s[n]);
    }
  }

  lemma {:induction false} NonVoidAppend(cs: Shape, A: seq<Cube>, B: seq<Cube>)
    ensures |NonVoidOnly(cs, A + B)| == |NonVoidOnly(cs, A)| + |NonVoidOnly(cs, B)|
  {
    if B == [] {
      assert A + B == A;
    } else {
      var n := |B| - 1;
      var s := A + B;
      NonVoidAppend(cs, A, B[..n]);
      assert s[..|s| - 1] == A + B[..n];
      assert s[|s| - 1] == B[n];
    }
  }

  lemma EssentialsFound(cs: Shape, P: seq<Cube>, D: seq<Cube>, E: seq<Cube>, Rt: seq<Cube>, Rp: seq<Cube>)
    requires SplitOf(cs, P, D, E, Rt, Rp)
    ensures NonVoidIndices(cs, E) == EssentialIndices(cs, P, D)
  {
    forall i | i in EssentialIndices(cs, P, D) ensures i in NonVoidIndices(cs, E) {
      assert P[i] in E;
      var k :| 0 <= k < |E| && E[k] == P[i];
      NonVoidIndexIn(cs, E, k);
    }
    forall i | i in NonVoidIndices(cs, E) ensures i in EssentialIndices(cs, P, D) {
      NonVoidIndexOf(cs, E, i);
      var k :| 0 <= k < |E| && NonVoid(cs, E[k].parts) && E[k].size == i;
      assert P[i] == E[k];
    }
  }

  /** How many nonvoid cubes the result has. */
  lemma ResultCount(cs: Shape, P: seq<Cube>, D: seq<Cube>, E: seq<Cube>, Rt: seq<Cube>, Rp: seq<Cube>, cover: seq<nat>)
    requires SplitOf(cs, P, D, E, Rt, Rp) && Sorted(cover) && Indexes(cover, |P|) &&
      forall k :: 0 <= k < |cover| ==> P[cover[k]] in Rp
    ensures |NonVoidOnly(cs, Result(P, E, cover))| == |EssentialIndices(cs, P, D)| + |Elems(cover)|
  {
    var C := Taken(P, cover);
    NonVoidAppend(cs, E, C);
    NonVoidCount(cs, E);
    EssentialsFound(cs, P, D, E, Rt, Rp);
    forall c | c in C ensures NonVoid(cs, c.parts) {
      var k :| 0 <= k < |C| && C[k] == c;
      assert cover[k] in cover;
    }
    NonVoidSize(cs, C);
    SortedLength(cover);
  }

  /** The result is a minimum cover, once its void cubes are left out of the count. */
  lemma ResultMinimum(cs: Shape, F: seq<Cube>, D: seq<Cube>, P: seq<Cube>, E: seq<Cube>, Rt: seq<Cube>, Rp: seq<Cube>,
                      rows: Rows, cover: seq<nat>, G: seq<Cube>)
    requires Generates(cs, F + D, {}, P) && SplitOf(cs, P, D, E, Rt, Rp) && Exact(cs, D, E, Rp, |Rp|, rows)
    requires Sorted(cover) && Elems(cover) <= ColsOf(rows) && MinimumCover(Unit, rows, Elems(cover))
    requires Indexes(cover, |P|) && (forall k :: 0 <= k < |cover| ==> P[cover[k]] in Rp) && CoverOf(cs, F, D, G)
    ensures |NonVoidOnly(cs, Result(P, E, cover))| <= |G|
  {
    var I := CoverSelects(cs, F, D, P, G);
    var N, S := EssentialIndices(cs, P, D), Elems(cover);
    assert S <= IndicesOf(Rp);
    CheapestSelection(cs, P, D, E, Rt, Rp, rows, Unit, Unit, S, I);
    ResultCount(cs, P, D, E, Rt, Rp, cover);
    UnitCost(I);
    UnitCost(N + S);
  }

  /** Leaving the void cubes out keeps a cover. */
  lemma NonVoidCovers(cs: Shape, F: seq<Cube>, D: seq<Cube>, G: seq<Cube>)
    requires CoverOf(cs, F, D, G)
    ensures CoverOf(cs, F, D, NonVoidOnly(cs, G))
  {
    var H := NonVoidOnly(cs, G);
    forall g ensures g in H <==> g in G && NonVoid(cs, g.parts) {
      NonVoidMembers(cs, G, g);
    }
    forall m | cs.Minterm(m) && Covered(m, F) ensures Covered(m, H) || Covered(m, D) {
      if g :| g in G && In(m, g.parts) {
        forall v | 0 <= v < cs.numVars ensures g.parts * cs.varMask[v] != {} {
          assert m[v] in g.parts * cs.varMask[v];
        }
        assert g in H;
      }
    }
  }

  /** Exactly when the result is minimum: no cube of it is void. */
  lemma MinimumIffNonVoid(cs: Shape, F: seq<Cube>, D: seq<Cube>, G: seq<Cube>)
    requires CoverOf(cs, F, D, G) && forall H :: CoverOf(cs, F, D, H) ==> |NonVoidOnly(cs, G)| <= |H|
    ensures MinimumSize(cs, F, D, G) <==> forall g :: g in G ==> NonVoid(cs, g.parts)
  {
    NonVoidCovers(cs, F, D, G);
    NonVoidSize(cs, G);
  }

  /** newF: the essential cubes, then the cubes chosen by the column cover. */
  method CollectCover(P: seq<Cube>, E: seq<Cube>, cover: seq<nat>) returns (newF: seq<Cube>)
    requires Indexes(cover, |P|)
    ensures newF == Result(P, E, cover)
  {
    newF := [];
    for k := 0 to |E|
      invariant newF == E[..k]
    {
      newF := newF + [E[k]];
    }
    ghost var C := Taken(P, cover);
    for k := 0 to |cover|
      invariant newF == E + C[..k]
    {
      newF := newF + [P[cover[k]]];
      assert C[..k + 1] == C[..k] + [C[k]];
    }
    assert C[..|cover|] == C;
  }

  /**
   What the exact minimizer promises about newF when it minimizes the number of cubes: its nonvoid
   cubes are a minimum, and all of it is exactly when prime generation left no void cube in P.
   */
  ghost predicate Minimal(cs: Shape, F: seq<Cube>, D: seq<Cube>, P: seq<Cube>, newF: seq<Cube>) {
    && (forall G :: CoverOf(cs, F, D, G) ==> |NonVoidOnly(cs, newF)| <= |G|)
    && (MinimumSize(cs, F, D, newF) <==> AllNonVoid(cs, P, {}))
  }

  /** ... and when it minimizes literals: no selection from the generated implicants P has fewer. */
  ghost predicate CheapestFrom(cs: Shape, output: nat, D: seq<Cube>, P: seq<Cube>, N: set<nat>)
    requires output < cs.numVars
  {
    && Selects(cs, P, D, N)
    && forall I :: Selects(cs, P, D, I) ==>
         Cost(LiteralWeights(cs, output, P), N) <= Cost(LiteralWeights(cs, output, P), I)
  }

  /** newF holds cubes N of P, and void cubes. */
  ghost predicate Picks(cs: Shape, P: seq<Cube>, N: set<nat>, newF: seq<Cube>) {
    forall c :: c in newF && NonVoid(cs, c.parts) <==> exists i :: i in N && i < |P| && P[i] == c
  }

  /** Is the result one of the generated implicants?  For variables with at most two parts, all of it is prime. */
  lemma ResultPrime(cs: Shape, F: seq<Cube>, D: seq<Cube>, P: seq<Cube>, g: Cube)
    requires PrimeCover(cs, F + D, {}, P) && Narrow(cs, F + D, {}) && AllNonVoid(cs, F + D, {}) && g in P
    ensures Prime(cs, F + D, g.parts)
  {
    ExactlyThePrimes(cs, F + D, P, g.parts);
  }

  lemma WithinSame(p: set<nat>, Q: seq<Cube>, P: seq<Cube>)
    requires SameParts(P, Q) && Within(p, Q)
    ensures Within(p, P)
  {
    var q :| q in Q && p <= q.parts;
    var i :| 0 <= i < |Q| && Q[i] == q;
    assert P[i] in P;
  }

  /** Numbering the implicants changes nothing that matters. */
  lemma NumberedPrimes(cs: Shape, cubes: seq<Cube>, cof: set<nat>, Q: seq<Cube>, P: seq<Cube>)
    requires PrimeCover(cs, cubes, cof, Q) && SameParts(P, Q)
    ensures PrimeCover(cs, cubes, cof, P)
    ensures PrimeRun(cs, cubes, cof, Q) ==> PrimeRun(cs, cubes, cof, P)
  {
    forall p | HasParts(Q, p) ensures HasParts(P, p) {
      var q := WithParts(Q, p);
      var i := Position(Q, q);
      assert P[i] in P;
    }
    forall p | p in P ensures exists q :: q in Q && q.parts == p.parts {
      var i :| 0 <= i < |P| && P[i] == p;
      assert Q[i] in Q;
    }
    forall p | DomImplicant(cs, cubes, cof, p) ensures Within(p, P) {
      assert Within(p, Q);
      WithinSame(p, Q, P);
    }
    forall v | 0 <= v < cs.numVars && AllFull(cs, cubes, cof, v) ensures AllFull(cs, P, {}, v) {
      assert AllFull(cs, Q, {}, v);
    }
    if Narrow(cs, cubes, cof) {
      forall i, j | 0 <= i < |P| && 0 <= j < |P| && i != j ensures !(P[i].parts <= P[j].parts) {
        assert Q[i].parts == P[i].parts && Q[j].parts == P[j].parts;
      }
    }
  }

  /** The selection behind the result. */
  lemma ResultPicks(cs: Shape, D: seq<Cube>, P: seq<Cube>, E: seq<Cube>, Rt: seq<Cube>, Rp: seq<Cube>, cover: seq<nat>)
    requires SplitOf(cs, P, D, E, Rt, Rp)
    requires Indexes(cover, |P|) && forall k :: 0 <= k < |cover| ==> P[cover[k]] in Rp
    ensures Picks(cs, P, EssentialIndices(cs, P, D) + Elems(cover), Result(P, E, cover))
  {
    var N, G := EssentialIndices(cs, P, D) + Elems(cover), Result(P, E, cover);
    forall c | c in G && NonVoid(cs, c.parts) ensures exists i :: i in N && i < |P| && P[i] == c {
      ResultMembers(P, E, cover, c);
      if c in E {
        assert P[c.size] == c && c.size in N;
      } else {
        var k :| 0 <= k < |cover| && P[cover[k]] == c;
        assert cover[k] in N;
      }
    }
    forall i | i in N && i < |P| ensures P[i] in G && NonVoid(cs, P[i].parts) {
      ResultMembers(P, E, cover, P[i]);
      if i in Elems(cover) {
        var k :| 0 <= k < |cover| && cover[k] == i;
      } else {
        assert P[i] in E;
      }
    }
  }

  lemma PicksSelect(cs: Shape, F: seq<Cube>, D: seq<Cube>, P: seq<Cube>, N: set<nat>, newF: seq<Cube>)
    requires Generates(cs, F + D, {}, P) && CoverOf(cs, F, D, newF) && Picks(cs, P, N, newF)
    ensures Selects(cs, P, D, N)
  {
    forall m | cs.Minterm(m) && Covered(m, P) && !Covered(m, D)
      ensures exists i :: i in N && i < |P| && In(m, P[i].parts)
    {
      GeneratedCovers(cs, F, D, P, m);
      var g :| g in newF && In(m, g.parts);
      forall v | 0 <= v < cs.numVars ensures g.parts * cs.varMask[v] != {} {
        assert m[v] in g.parts * cs.varMask[v];
      }
    }
  }

  /** With literal weights the selection is the cheapest one. */
  lemma ResultCheapest(cs: Shape, output: nat, F: seq<Cube>, D: seq<Cube>, P: seq<Cube>, E: seq<Cube>, Rt: seq<Cube>,
                       Rp: seq<Cube>, rows: Rows, w: Weights, S: set<nat>, newF: seq<Cube>)
    requires output < cs.numVars && Generates(cs, F + D, {}, P) && SplitOf(cs, P, D, E, Rt, Rp)
    requires Exact(cs, D, E, Rp, |Rp|, rows) && MinimumCover(w, rows, S) && S <= IndicesOf(Rp)
    requires AgreeOn(w, LiteralWeights(cs, output, P), IndicesOf(Rp))
    requires CoverOf(cs, F, D, newF) && Picks(cs, P, EssentialIndices(cs, P, D) + S, newF)
    ensures CheapestFrom(cs, output, D, P, EssentialIndices(cs, P, D) + S)
  {
    var N, W := EssentialIndices(cs, P, D) + S, LiteralWeights(cs, output, P);
    PicksSelect(cs, F, D, P, N, newF);
    forall I | Selects(cs, P, D, I) ensures Cost(W, N) <= Cost(W, I) {
      CheapestSelection(cs, P, D, E, Rt, Rp, rows, w, W, S, I);
    }
  }

  /** A void cube is never taken for covered: it becomes an essential cube of the result. */
  lemma VoidCubesKept(cs: Shape, D: seq<Cube>, P: seq<Cube>, E: seq<Cube>, Rt: seq<Cube>, Rp: seq<Cube>,
                      newF: seq<Cube>)
    requires SplitOf(cs, P, D, E, Rt, Rp) && E <= newF && forall c :: c in newF ==> c in P
    ensures (forall g :: g in newF ==> NonVoid(cs, g.parts)) <==> AllNonVoid(cs, P, {})
  {
    forall p | p in P ensures p.parts + {} == p.parts {
    }
    forall i | 0 <= i < |P| && !NonVoid(cs, P[i].parts) ensures P[i] in newF {
      assert P[i] in E;
    }
    if !AllNonVoid(cs, P, {}) {
      var p :| p in P && !NonVoid(cs, p.parts + {});
      var i :| 0 <= i < |P| && P[i] == p;
    }
  }

  lemma ResultMinimal(cs: Shape, F: seq<Cube>, D: seq<Cube>, P: seq<Cube>, E: seq<Cube>, Rt: seq<Cube>, Rp: seq<Cube>,
                      rows: Rows, cover: seq<nat>, newF: seq<Cube>)
    requires PrimeCover(cs, F + D, {}, P) && SplitOf(cs, P, D, E, Rt, Rp) && Exact(cs, D, E, Rp, |Rp|, rows)
    requires Sorted(cover) && Elems(cover) <= ColsOf(rows) && MinimumCover(Unit, rows, Elems(cover))
    requires Indexes(cover, |P|) && forall k :: 0 <= k < |cover| ==> P[cover[k]] in Rp
    requires newF == Result(P, E, cover) && CoverOf(cs, F, D, newF) && forall c :: c in newF ==> c in P
    ensures Minimal(cs, F, D, P, newF)
  {
    forall G | CoverOf(cs, F, D, G) ensures |NonVoidOnly(cs, newF)| <= |G| {
      ResultMinimum(cs, F, D, P, E, Rt, Rp, rows, cover, G);
    }
    VoidCubesKept(cs, D, P, E, Rt, Rp, newF);
    MinimumIffNonVoid(cs, F, D, newF);
  }

  /**
   A check before the call that rules void cubes out: no cube of F and D is void, and every part of a
   variable with more than two parts is used by one of them.
   */
  lemma MinimumGuaranteed(cs: Shape, F: seq<Cube>, D: seq<Cube>, P: seq<Cube>, newF: seq<Cube>)
    requires PrimeCover(cs, F + D, {}, P) && Minimal(cs, F, D, P, newF)
    requires AllNonVoid(cs, F + D, {}) && NoWideZeroColumn(cs, F + D, {})
    ensures MinimumSize(cs, F, D, newF)
  {
    PrimesNonVoid(cs, F + D, P);
  }

  /** For a single cube there is nothing to generate: the result is minimum exactly if it is not void. */
  lemma SingleCubeExactly(cs: Shape, F: seq<Cube>, D: seq<Cube>, P: seq<Cube>, newF: seq<Cube>)
    requires |F + D| == 1 && PrimeRun(cs, F + D, {}, P) && Minimal(cs, F, D, P, newF)
    ensures MinimumSize(cs, F, D, newF) <==> NonVoid(cs, (F + D)[0].parts)
  {
    OneGenerated(cs, F + D, P);
  }

  lemma OneGenerated(cs: Shape, s: seq<Cube>, P: seq<Cube>)
    requires |s| == 1 && PrimeRun(cs, s, {}, P)
    ensures AllNonVoid(cs, P, {}) <==> NonVoid(cs, s[0].parts)
  {
    var p := s[0].parts;
    assert P == [P[0]] && P[0].parts == p by {
      assert P[0].parts == {} + p;
    }
    assert p + {} == p;
  }

  /** One binary variable with parts 0 and 1, one variable with parts 2, 3 and 4. */
  ghost function ExampleShape(): (cs: CubeStruct)
    ensures cs.Valid()
  {
    CubeStruct(1, 2, 5, [0, 2], [1, 4], [{0, 1}, {2, 3, 4}], [0, 0, 1, 1, 1], {0, 1, 2, 3, 4}, [false, true])
  }

  lemma ExampleConsensus()
    ensures var cs: Shape := ExampleShape();
            && Distance(cs, {0, 2, 4}, {1, 3, 4}, 2) == 1 && ConflictIn(cs, {0, 2, 4}, {1, 3, 4}, 0)
            && ConsensusSet(cs, {0, 2, 4}, {1, 3, 4}) == {0, 1, 4}
  {
    var cs: Shape := ExampleShape();
    var a, b: set<nat> := {0, 2, 4}, {1, 3, 4};
    assert a * b == {4};
    assert ConflictIn(cs, a, b, 0);
    assert 4 in a * b * cs.varMask[1];
    assert !ConflictIn(cs, a, b, 1);
    assert OnlyConflict(cs, a, b, 0, 2);
    SingleConflict(cs, a, b, 0, 2);
    assert cs.partVar[2] == 1 && cs.partVar[3] == 1 && cs.partVar[4] == 1;
    assert cs.partVar[0] == 0 && cs.partVar[1] == 0;
  }

  /** The two cubes {0,2} and {1,3}. */
  ghost function ExampleCubes(): seq<Cube> {
    [MkCube({0, 2}), MkCube({1, 3})]
  }

  lemma ExampleCeiling()
    ensures Ceiling(ExampleCubes(), {}) == {0, 1, 2, 3}
  {
    CeilingOfTwo(ExampleCubes(), {});
  }

  lemma ExampleZeros(i: nat)
    requires i < 5
    ensures Zeros(i, ExampleCubes(), {4}) == if i == 4 then 0 else 1
  {
    var s := ExampleCubes();
    assert s[..1] == [s[0]] && s[..1][..0] == [];
    assert Zeros(i, [], {4}) == 0;
    assert Zeros(i, s[..1], {4}) == if i in s[0].parts + {4} then 0 else 1;
  }

  lemma ExampleActive(z: seq<nat>)
    requires z == [1, 1, 1, 1, 0]
    ensures var cs: Shape := ExampleShape(); |ActiveParts(cs, z, 0)| == 2 && |ActiveParts(cs, z, 1)| == 2
    ensures var cs: Shape := ExampleShape(); Imbalance(cs, z, 0) == 1 && Imbalance(cs, z, 1) == 2
  {
    var cs: Shape := ExampleShape();
    assert ActiveParts(cs, z, 0) == {0, 1} && ActiveParts(cs, z, 1) == {2, 3};
    assert |{0, 1}| == 2 && |{2, 3}| == 2;
  }

  /** Both variables have two active parts and two zeros: the binary one is the better balanced. */
  lemma ExampleChoice(cd: CData)
    requires CountsOf(ExampleShape(), ExampleCubes(), {4}, cd) && BestChosen(ExampleShape(), cd)
    ensures cd.best == 0 && cd.varsActive != 1 && cd.varsUnate != cd.varsActive
  {
    hide ExampleCubes, BestChosen, Zeros, ActiveParts, Imbalance, Sum;
    var cs: Shape := ExampleShape();
    var z := cd.partZeros;
    forall i: nat | i < 5 ensures z[i] == if i == 4 then 0 else 1 {
      ExampleZeros(i);
    }
    assert z == [1, 1, 1, 1, 0];
    ExampleActive(z);
    ExampleSums(z);
    assert cd.partsActive == [2, 2] && cd.varZeros == [2, 2];
    ExampleBest(cd);
    assert ActiveVars([2, 2], 2) == {0, 1} && UnateVars([2, 2], 2) == {};
  }

  lemma ExampleBest(cd: CData)
    requires cd.partZeros == [1, 1, 1, 1, 0] && cd.partsActive == [2, 2] && cd.varZeros == [2, 2]
    requires BestChosen(ExampleShape(), cd)
    ensures cd.best == 0
  {
    var cs: Shape := ExampleShape();
    ExampleActive(cd.partZeros);
    assert Preferred(cs, cd.partZeros, cd.varZeros, cd.partsActive, 0, 1);
    assert !Preferred(cs, cd.partZeros, cd.varZeros, cd.partsActive, 0, cd.best);
  }

  lemma ExampleSums(z: seq<nat>)
    requires z == [1, 1, 1, 1, 0]
    ensures Sum(z, 0, 2) == 2 && Sum(z, 2, 5) == 2
  {
    assert Sum(z, 0, 0) == 0 && Sum(z, 0, 1) == 1;
    assert Sum(z, 2, 2) == 0 && Sum(z, 2, 3) == 1 && Sum(z, 2, 4) == 2;
  }

  lemma ExampleApart()
    ensures TwoApart(ExampleShape(), ExampleCubes(), {4}, 0)
  {
    var cs: Shape := ExampleShape();
    var s := ExampleCubes();
    forall cd | CountsOf(cs, s, {4}, cd) && BestChosen(cs, cd)
      ensures cd.best == 0 && cd.varsActive != 1 && cd.varsUnate != cd.varsActive
    {
      ExampleChoice(cd);
    }
    ExampleConsensus();
    assert s[0].parts + {4} == {0, 2, 4} && s[1].parts + {4} == {1, 3, 4};
    assert 0 in {0, 2, 4} * cs.varMask[0] && 2 in {0, 2, 4} * cs.varMask[1];
    assert 1 in {1, 3, 4} * cs.varMask[0] && 3 in {1, 3, 4} * cs.varMask[1];
  }

  /**
   Without the check it fails.  For F = {0,2}, {1,3} part 4 is factored out and variable 0 is split; the halves
   are {0,2,4} and {1,3,4}, and their consensus {0,1,4}, cut down again, is the void cube {0,1}.  It stays in
   the result as an essential cube, so that the result is not minimum.
   */
  lemma NotMinimumExample(P: seq<Cube>, newF: seq<Cube>)
    requires PrimeRun(ExampleShape(), ExampleCubes() + [], {}, P) &&
      Minimal(ExampleShape(), ExampleCubes(), [], P, newF)
    ensures HasParts(P, {0, 1}) && !MinimumSize(ExampleShape(), ExampleCubes(), [], newF)
  {
    assert ExampleCubes() + [] == ExampleCubes();
    ExampleApart();
    ExampleFactored();
    FactoredFound(ExampleShape(), ExampleCubes(), {}, P, {4}, 0);
    VoidExample(P);
  }

  lemma VoidExample(P: seq<Cube>)
    requires HasParts(P, {0, 1})
    ensures !AllNonVoid(ExampleShape(), P, {})
  {
    var cs: Shape := ExampleShape();
    var p := WithParts(P, {0, 1});
    assert p.parts + {} == {0, 1};
    assert {0, 1} * cs.varMask[1] == {};
  }

  lemma ExampleFactored()
    ensures var cs: Shape, s := ExampleShape(), ExampleCubes();
            && Factored(cs, s, {}) && {} + (cs.fullset - Ceiling(s, {})) == {4}
            && PairConsensus(cs, s, {4}) * Ceiling(s, {}) == {0, 1}
  {
    var cs: Shape := ExampleShape();
    var s := ExampleCubes();
    ExampleCeiling();
    ExampleConsensus();
    forall c | c in s ensures !FullRow(cs, c.parts, {}) {
      assert 4 in cs.fullset && 4 !in c.parts + {};
    }
    assert s[0].parts + {4} == {0, 2, 4} && s[1].parts + {4} == {1, 3, 4};
    assert {0, 1, 4} * {0, 1, 2, 3} == {0, 1};
  }

  /** The columns chosen are indices of partially redundant cubes. */
  lemma ChosenIndices(cs: Shape, P: seq<Cube>, D: seq<Cube>, E: seq<Cube>, Rp: seq<Cube>, rows: Rows, cover: seq<nat>)
    requires SubList(P, Rp) && Exact(cs, D, E, Rp, |Rp|, rows) && Elems(cover) <= ColsOf(rows)
    ensures Indexes(cover, |P|) && forall k :: 0 <= k < |cover| ==> P[cover[k]] in Rp
    ensures Elems(cover) <= IndicesOf(Rp)
  {
    CoverIndices(cs, P, D, E, Rp, rows, cover);
    forall k | 0 <= k < |cover| ensures cover[k] < |P| && P[cover[k]] in Rp {
      assert cover[k] in cover;
    }
    forall x | x in Elems(cover) ensures x in IndicesOf(Rp) {
      var c :| c in Rp && c.size == x;
    }
  }

  /** cube2list */
  method Cube2List(A: seq<Cube>, B: seq<Cube>) returns (T: CubeList)
    ensures fresh(T) && T.cof == {} && T.cubes == A + B
  {
    T := new CubeList({}, A + B);
  }

  /** The weights argument of the covering problem: literal counts, or NIL. */
  method ChooseWeights(cs: Shape, output: nat, weighted: bool, ghost P: seq<Cube>, Rp: seq<Cube>) returns (w: Weights)
    requires output < cs.numVars && SubList(P, Rp) && forall p :: p in P ==> p.parts <= cs.fullset
    ensures !weighted ==> w == Unit
    ensures weighted ==> AgreeOn(w, LiteralWeights(cs, output, P), IndicesOf(Rp))
  {
    if weighted {
      w := FillWeights(cs, output, P, Rp);
    } else {
      w := Unit;
    }
  }

  /** do_minimize, up to make_sparse.  P is what prime generation gave, N the cubes of P that were picked. */
  method DoMinimize(cs: Shape, F: seq<Cube>, D: seq<Cube>, exactCover: bool, weighted: bool, output: nat)
    returns (newF: seq<Cube>, ghost P: seq<Cube>, ghost N: set<nat>)
    requires output < cs.numVars && Fits(cs, F + D, {})
    ensures PrimeCover(cs, F + D, {}, P) && CoverOf(cs, F, D, newF) && forall c :: c in newF ==> c in P
    ensures PrimeRun(cs, F + D, {}, P)
    ensures Picks(cs, P, N, newF)
    ensures exactCover && !weighted ==> Minimal(cs, F, D, P, newF)
    ensures exactCover && weighted ==> CheapestFrom(cs, output, D, P, N)
  {
    var T := Cube2List(F, D);
    var Q := PrimesConsensus(cs, T);
    ghost var unnumbered := Q.cubes;
    var E, Rt, Rp := IrredSplitCover(cs, Q, D);
    P := Q.cubes;
    NumberedPrimes(cs, F + D, {}, unnumbered, P);
    forall p | p in Rp ensures NonVoid(cs, p.parts) {
      assert P[p.size] in Rp;
    }
    var table := IrredDeriveTable(cs, D, E, Rp);
    ghost var rows := table.rows;
    var w := ChooseWeights(cs, output, weighted, P, Rp);
    var cover := SmMinimumCover(table, w, !exactCover);
    ChosenIndices(cs, P, D, E, Rp, rows, cover);
    newF := CollectCover(Q.cubes, E, cover);
    N := EssentialIndices(cs, P, D) + Elems(cover);
    ResultCovers(cs, F, D, P, E, Rt, Rp, cover);
    ResultPicks(cs, D, P, E, Rt, Rp, cover);
    if exactCover && !weighted {
      ResultMinimal(cs, F, D, P, E, Rt, Rp, rows, cover, newF);
    }
    if exactCover && weighted {
      ResultCheapest(cs, output, F, D, P, E, Rt, Rp, rows, w, Elems(cover), newF);
    }
  }

  // ---------- minimize_exact ----------

  /** R holds exactly the minterms that F and D do not hold. */
  ghost predicate Complementary(cs: Shape, F: seq<Cube>, D: seq<Cube>, R: seq<Cube>) {
    forall m :: cs.Minterm(m) ==> (Covered(m, R) <==> !Covered(m, F) && !Covered(m, D))
  }

  /** A common minterm of two cubes that meet. */
  lemma CommonMinterm(cs: Shape, a: set<nat>, b: set<nat>) returns (m: seq<nat>)
    requires Distance0(cs, a, b)
    ensures cs.Minterm(m) && In(m, a) && In(m, b)
  {
    m := seq(cs.numVars, v requires 0 <= v < cs.numVars => var i :| i in a * b * cs.varMask[v]; i);
  }

  /** Implicants miss the OFF-set. */
  lemma ImplicantOrthogonal(cs: Shape, F: seq<Cube>, D: seq<Cube>, R: seq<Cube>, p: set<nat>)
    requires Complementary(cs, F, D, R) && Implicant(cs, F + D, {}, p)
    ensures Orthogonal(cs, R, p)
  {
    forall k | 0 <= k < |R| ensures !Distance0(cs, R[k].parts, p) {
      forall m | cs.Minterm(m) && In(m, R[k].parts) ensures !In(m, p) {
        assert R[k] in R && Covered(m, R) && OnDom(cs, {}, m);
        AppendCovered(m, F, D);
      }
      if Distance0(cs, R[k].parts, p) {
        var m := CommonMinterm(cs, R[k].parts, p);
      }
    }
  }

  /** ... and what misses the OFF-set is an implicant. */
  lemma OrthogonalImplicant(cs: Shape, F: seq<Cube>, D: seq<Cube>, R: seq<Cube>, p: set<nat>)
    requires Complementary(cs, F, D, R) && Orthogonal(cs, R, p)
    ensures Implicant(cs, F + D, {}, p)
  {
    forall m | OnDom(cs, {}, m) && In(m, p) ensures CoveredBy(m, F + D, {}, All) {
      AppendCovered(m, F, D);
      forall r | r in R ensures !In(m, r.parts) {
        var k :| 0 <= k < |R| && R[k] == r;
        var v :| 0 <= v < cs.numVars && R[k].parts * p * cs.varMask[v] == {};
        assert m[v] in cs.varMask[v] && m[v] in p;
        assert m[v] !in R[k].parts * p * cs.varMask[v];
      }
      assert !Covered(m, R);
    }
  }

  lemma NewFNear(cs: Shape, F: seq<Cube>, D: seq<Cube>, R: seq<Cube>, P: seq<Cube>, newF: seq<Cube>)
    requires PrimeCover(cs, F + D, {}, P) && AllNonVoid(cs, F + D, {}) && Complementary(cs, F, D, R)
    requires forall c :: c in newF ==> c in P
    ensures NearOnSet(cs, R, newF)
  {
    forall k | 0 <= k < |newF| ensures NearOnCube(cs, R, newF[k].parts) {
      assert newF[k] in P;
      ImplicantOrthogonal(cs, F, D, R, newF[k].parts);
      forall v | 0 <= v < cs.numBinaryVars ensures newF[k].parts * cs.varMask[v] != {} {
        PrimesBinary(cs, F + D, P, newF[k], v);
      }
    }
  }

  /** Only void cubes are void in a sparse variable, when none is void in a binary one and all others are sparse. */
  lemma {:induction false} SparseCountNonVoid(cs: Shape, bb: seq<Cube>, s: seq<Cube>)
    requires NearOnSet(cs, bb, s) && cs.AllSparse()
    ensures SparseCount(cs, s) == |NonVoidOnly(cs, s)|
  {
    var f := Flagged(cs, s, cs.numVars);
    if s == [] {
      assert f == [];
    } else {
      var n := |s| - 1;
      SparseCountNonVoid(cs, bb, s[..n]);
      assert f[..n] == Flagged(cs, s[..n], cs.numVars);
      assert NearOnCube(cs, bb, s[n].parts);
      assert f[n].active <==> NonVoid(cs, s[n].parts) by {
        forall v | 0 <= v < cs.numVars && !cs.sparse[v] ensures s[n].parts * cs.varMask[v] != {} {
          assert v < cs.numBinaryVars;
        }
      }
    }
  }

  lemma SparseMinimum(cs: Shape, F: seq<Cube>, D: seq<Cube>, R: seq<Cube>, P: seq<Cube>, newF: seq<Cube>,
                      result: seq<Cube>)
    requires Complementary(cs, F, D, R) && NearOnSet(cs, R, newF) && NearOnSet(cs, R, result)
    requires CoverOf(cs, F, D, newF) && Keeps(cs, newF, result, D) && |result| <= SparseCount(cs, newF)
    ensures CoverOf(cs, F, D, result)
    ensures cs.AllSparse() && (forall G :: CoverOf(cs, F, D, G) ==> |NonVoidOnly(cs, newF)| <= |G|) ==>
      MinimumSize(cs, F, D, result)
  {
    forall g | g in result ensures g.parts <= cs.fullset && Implicant(cs, F + D, {}, g.parts) {
      var k :| 0 <= k < |result| && result[k] == g;
      assert NearOnCube(cs, R, result[k].parts);
      OrthogonalImplicant(cs, F, D, R, g.parts);
    }
    if cs.AllSparse() {
      SparseCountNonVoid(cs, R, newF);
    }
  }

  lemma KeptComplementary(cs: Shape, F: seq<Cube>, D: seq<Cube>, R: seq<Cube>, R': seq<Cube>)
    requires Complementary(cs, F, D, R) && PartsKept(R, R')
    ensures Complementary(cs, F, D, R')
  {
    forall m | cs.Minterm(m) ensures Covered(m, R) <==> Covered(m, R') {
      if Covered(m, R) {
        var c :| c in R && In(m, c.parts);
        var k :| 0 <= k < |R| && R[k] == c;
        assert R'[k] in R';
      }
      if Covered(m, R') {
        var c :| c in R' && In(m, c.parts);
        var k :| 0 <= k < |R'| && R'[k] == c;
        assert R[k] in R;
      }
    }
  }

  /**
   minimize_exact and minimize_exact_literals.  Without weights, and with make_sparse, the result is a
   minimum cover whatever prime generation left: mv_reduce deletes the void cubes -- in the sparse variables,
   and these are all that are not binary unless variables have been paired.
   */
  method MinimizeExact(cs: Shape, F: seq<Cube>, D: seq<Cube>, R: Cover, exactCover: bool, weighted: bool, output: nat,
                       skipMakeSparse: bool, forceIrredundant: bool) returns (result: Cover, ghost P: seq<Cube>)
    requires output < cs.numVars && Fits(cs, F + D, {}) && AllNonVoid(cs, F + D, {})
    requires OffSet(cs, R.cubes) && Complementary(cs, F, D, R.cubes)
    modifies R
    ensures fresh(result) && PartsKept(old(R.cubes), R.cubes)
    ensures CoverOf(cs, F, D, result.cubes)
    ensures exactCover && !weighted && !skipMakeSparse && cs.AllSparse() ==> MinimumSize(cs, F, D, result.cubes)
    ensures exactCover && !weighted && skipMakeSparse ==>
      Minimal(cs, F, D, P, result.cubes) && PrimeCover(cs, F + D, {}, P)
    ensures !skipMakeSparse ==> NearOnSet(cs, R.cubes, result.cubes)
    ensures !skipMakeSparse && cs.AllSparse() ==> OnSet(cs, R.cubes, result.cubes)
  {
    ghost var bb := R.cubes;
    ghost var N;
    var newF;
    newF, P, N := DoMinimize(cs, F, D, exactCover, weighted, output);
    result := new Cover(newF);
    NewFNear(cs, F, D, bb, P, newF);
    if !skipMakeSparse {
      MakeSparse(cs, result, D, R, forceIrredundant);
      KeptComplementary(cs, F, D, bb, R.cubes);
      NewFNear(cs, F, D, R.cubes, P, newF);
      SparseMinimum(cs, F, D, R.cubes, P, newF, result.cubes);
    }
  }
}
