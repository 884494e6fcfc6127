/** irred.c: the tautology question, the split into essential and redundant cubes, and the covering table. */
module Irred {
  import opened Cubes
  import opened Cofactor
  import opened Recursion
  import opened Partition

  datatype Answer = True | False | Maybe

  /** full_row: p | cof is the full set. */
  predicate FullRow(cs: Shape, p: set<nat>, cof: set<nat>) {
    cs.fullset <= p + cof
  }

  /** The `ceil` loop: cof or-ed with every cube. */
  method Ceil(T: CubeList) returns (ceil: set<nat>)
    ensures ceil == Ceiling(T.cubes, T.cof)
  {
    ceil := T.cof;
    for k := 0 to |T.cubes|
      invariant ceil == Ceiling(T.cubes[..k], T.cof)
    {
      assert T.cubes[..k + 1][..k] == T.cubes[..k];
      ceil := ceil + T.cubes[k].parts;
    }
    assert T.cubes[..|T.cubes|] == T.cubes;
  }

  /** The Tsave loop: keep, in place, the cubes that are full in all unate variables. */
  method UnateReduce(cs: Shape, T: CubeList, cd: CData)
    requires CountsOf(cs, T.cubes, T.cof, cd) && cd.varsUnate != 0
    modifies T
    ensures T.cof == old(T.cof)
    ensures forall c :: c in T.cubes <==> c in old(T.cubes) && FullInUnate(cs, cd, c.parts + T.cof)
    ensures |T.cubes| < |old(T.cubes)|
  {
    hide FullInUnate;
    var ceil: set<nat> := {};
    for v := 0 to cs.numVars
      invariant unchanged(T)
      invariant forall i :: i in ceil <==> exists u :: 0 <= u < v && cd.isUnate[u] && i in cs.varMask[u]
    {
      if cd.isUnate[v] {
        ceil := ceil + cs.varMask[v];
      }
    }
    ghost var k0 := ReductionShrinks(cs, T.cubes, T.cof, cd);
    var saved: seq<Cube> := [];
    for k := 0 to |T.cubes|
      invariant unchanged(T)
      invariant |saved| <= k && (k0 < k ==> |saved| < k)
      invariant forall c :: c in saved <==> c in T.cubes[..k] && FullInUnate(cs, cd, c.parts + T.cof)
    {
      var p := T.cubes[k];
      CeilingOfUnate(cs, cd, ceil, p.parts + T.cof);
      if ceil <= p.parts + T.cof {
        saved := saved + [p];
      }
    }
    T.cubes := saved;
  }

  lemma CeilingOfUnate(cs: Shape, cd: CData, ceil: set<nat>, p: set<nat>)
    requires |cd.isUnate| == cs.numVars
    requires forall i :: i in ceil <==> exists u :: 0 <= u < cs.numVars && cd.isUnate[u] && i in cs.varMask[u]
    ensures ceil <= p <==> FullInUnate(cs, cd, p)
  {
  }

  /** tautology -- T is disposed of. */
  method Tautology(cs: Shape, T: CubeList) returns (result: bool)
    modifies T
    ensures result <==> old(Tautologous(cs, T.cubes, T.cof, All))
    decreases FreeParts(cs, T.cof), |T.cubes|, 2
  {
    var answer, cd := TautSpecialCases(cs, T);
    if answer == Maybe {
      result := TautologySplit(cs, T, cd, T.cubes, T.cof);
    } else {
      result := answer == True;
    }
  }

  /** The split of tautology on the variable chosen. */
  method TautologySplit(cs: Shape, T: CubeList, cd: CData, ghost s: seq<Cube>, ghost cof: set<nat>)
    returns (result: bool)
    requires s == T.cubes && cof == T.cof && CountsOf(cs, s, cof, cd) && cd.varsUnate != cd.varsActive
    ensures result <==> Tautologous(cs, s, cof, All)
    decreases FreeParts(cs, T.cof), |T.cubes|, 1
  {
    var best := cd.best;
    BinateChoice(cs, s, cof, cd);
    var cl, cr := BinateSplitSelect(cs, T.cof, best);
    HalvesOf(cs, cof, best, cl, cr);
    SplitTautology(cs, s, cof, best, cl, cr, All);
    SplitShrinks(cs, cof, best, cl, cr);
    var Tl := Scofactor(cs, T, cl, best);
    result := Tautology(cs, Tl);
    if result {
      var Tr := Scofactor(cs, T, cr, best);
      result := Tautology(cs, Tr);
    }
  }

  /** taut_special_cases -- Maybe leaves a smaller but equivalent T, with the counts of its columns. */
  method TautSpecialCases(cs: Shape, T: CubeList) returns (answer: Answer, cd: CData)
    modifies T
    ensures answer != Maybe ==> (answer == True <==> old(Tautologous(cs, T.cubes, T.cof, All)))
    ensures answer == Maybe ==>
      && T.cof == old(T.cof) && |T.cubes| <= old(|T.cubes|)
      && CountsOf(cs, T.cubes, T.cof, cd) && cd.varsUnate != cd.varsActive
      && (Tautologous(cs, T.cubes, T.cof, All) <==> old(Tautologous(cs, T.cubes, T.cof, All)))
    decreases FreeParts(cs, T.cof), |T.cubes|, 0
  {
    ghost var goal := Tautologous(cs, T.cubes, T.cof, All);
    for k := 0 to |T.cubes|
      invariant unchanged(T)
      invariant forall j :: 0 <= j < k ==> !FullRow(cs, T.cubes[j].parts, T.cof)
    {
      if FullRow(cs, T.cubes[k].parts, T.cof) {
        FullRowCovers(cs, T.cubes, T.cof, All);
        return True, NO_COUNTS;
      }
    }
    while true
      invariant T.cof == old(T.cof) && |T.cubes| <= old(|T.cubes|)
      invariant forall c :: c in T.cubes ==> c in old(T.cubes) && !FullRow(cs, c.parts, T.cof)
      invariant Tautologous(cs, T.cubes, T.cof, All) <==> goal
      decreases |T.cubes|
    {
      var ceil := Ceil(T);
      if !(cs.fullset <= ceil) {
        ZeroColumn(cs, T.cubes, T.cof);
        return False, NO_COUNTS;
      }
      cd := MassiveCount(cs, T);
      if cd.varsUnate == cd.varsActive {
        UnateLeaf(cs, T.cubes, T.cof, cd, All);
        return False, cd;
      } else if cd.varsActive == 1 {
        SingleActiveVariable(cs, T.cubes, T.cof, cd);
        return True, cd;
      } else if cd.varsUnate != 0 {
        ghost var s := T.cubes;
        UnateReduce(cs, T, cd);
        UnateReduction(cs, s, T.cof, cd, T.cubes, All);
      } else if cd.varZeros[cd.best] < |T.cubes| / 2 {
        var rest, A, B := CubelistPartition(cs, T);
        if rest == 0 {
          return Maybe, cd;
        } else {
          ComponentTautology(cs, T.cubes, A.cubes, B.cubes, T.cof);
          var a := Tautology(cs, A);
          if a {
            return True, cd;
          } else {
            var b := Tautology(cs, B);
            return if b then True else False, cd;
          }
        }
      } else {
        return Maybe, cd;
      }
    }
  }

  // ---------- covering a single cube ----------

  /** Every minterm of cube c lies in a participating cube of s other than the one at position self. */
  ghost predicate CubeCovered(cs: Shape, s: seq<Cube>, self: int, c: set<nat>, sel: Selection) {
    forall m :: cs.Minterm(m) && In(m, c) ==>
      exists k :: 0 <= k < |s| && k != self && Uses(sel, s[k]) && In(m, s[k].parts)
  }

  /** m with the parts outside the nonvoid cube c replaced by parts of c. */
  ghost function Project(cs: Shape, m: seq<nat>, c: set<nat>): (p: seq<nat>)
    requires cs.Minterm(m) && NonVoid(cs, c)
    ensures cs.Minterm(p) && In(p, c)
    ensures forall v :: 0 <= v < |m| && m[v] in c ==> p[v] == m[v]
  {
    seq(cs.numVars, v requires 0 <= v < cs.numVars =>
      if m[v] in c then m[v] else var i :| i in c * cs.varMask[v]; i)
  }

  /** The cofactor against c is a tautology exactly when c is covered; against a void cube it never is. */
  lemma CofactorTautology(cs: Shape, s: seq<Cube>, self: int, c: set<nat>, sel: Selection)
    ensures Tautologous(cs, Meeting(cs, s, c, self), {} + (cs.fullset - c), sel) <==>
            NonVoid(cs, c) && CubeCovered(cs, s, self, c, sel)
  {
    var r, f := Meeting(cs, s, c, self), {} + (cs.fullset - c);
    if NonVoid(cs, c) && CubeCovered(cs, s, self, c, sel) {
      forall m | cs.Minterm(m) ensures CoveredBy(m, r, f, sel) {
        ProjectCovered(cs, s, self, c, sel, m);
      }
    }
    if Tautologous(cs, r, f, sel) {
      assert CoveredBy(FirstMinterm(cs), r, f, sel);
      var x :| x in r;
      forall v | 0 <= v < cs.numVars ensures c * cs.varMask[v] != {} {
        var i :| i in x.parts * c * cs.varMask[v];
        assert i in c * cs.varMask[v];
      }
      forall m | cs.Minterm(m) && In(m, c)
        ensures exists k :: 0 <= k < |s| && k != self && Uses(sel, s[k]) && In(m, s[k].parts)
      {
        assert CoveredBy(m, r, f, sel);
        var y :| y in r && Uses(sel, y) && In(m, y.parts + f);
        var k :| 0 <= k < |s| && k != self && s[k] == y;
        assert In(m, s[k].parts);
      }
    }
  }

  lemma ProjectCovered(cs: Shape, s: seq<Cube>, self: int, c: set<nat>, sel: Selection, m: seq<nat>)
    requires NonVoid(cs, c) && CubeCovered(cs, s, self, c, sel) && cs.Minterm(m)
    ensures CoveredBy(m, Meeting(cs, s, c, self), {} + (cs.fullset - c), sel)
  {
    var r, f := Meeting(cs, s, c, self), {} + (cs.fullset - c);
    var p := Project(cs, m, c);
    var k :| 0 <= k < |s| && k != self && Uses(sel, s[k]) && In(p, s[k].parts);
    forall v | 0 <= v < cs.numVars ensures s[k].parts * c * cs.varMask[v] != {} {
      assert p[v] in s[k].parts * c * cs.varMask[v];
    }
    assert s[k] in r;
    forall v | 0 <= v < |m| ensures m[v] in s[k].parts + f {
      assert m[v] in cs.varMask[v] && m[v] in cs.fullset;
    }
  }

  /** cube_is_covered -- self is the position of c among the pointers of T. */
  method CubeIsCovered(cs: Shape, T: CubeList, self: int, c: set<nat>) returns (yes: bool)
    requires T.cof == {}
    ensures yes <==> NonVoid(cs, c) && CubeCovered(cs, T.cubes, self, c, All)
  {
    var Tc := CofactorOf(cs, T, c, self);
    CofactorTautology(cs, T.cubes, self, c, All);
    yes := Tautology(cs, Tc);
  }
}
