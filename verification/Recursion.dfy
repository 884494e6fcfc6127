/**
 What the unate recursive paradigm rests on: how a split, a unate reduction, a unate leaf, a zero
 column and a partition into components act on the minterms of a cubelist.
 */
module Recursion {
  import opened Cubes
  import opened Cofactor
  import opened Sets

  // ---------- reading the counts ----------

  ghost predicate ZeroAt(i: nat, s: seq<Cube>, cof: set<nat>) {
    exists c :: c in s && i !in c.parts + cof
  }

  lemma PartZeros(cs: Shape, s: seq<Cube>, cof: set<nat>, cd: CData, i: nat)
    requires CountsOf(cs, s, cof, cd) && i < cs.size
    ensures cd.partZeros[i] > 0 <==> ZeroAt(i, s, cof)
    ensures cd.partZeros[i] <= |s|
  {
    ZerosPositive(i, s, cof);
  }

  lemma NoActivePart(cs: Shape, cd: CData, s: seq<Cube>, cof: set<nat>, v: nat, i: nat)
    requires CountsOf(cs, s, cof, cd) && v < cs.numVars && cd.partsActive[v] == 0 && i in cs.varMask[v]
    ensures cd.partZeros[i] == 0
  {
    var a := ActiveParts(cs, cd.partZeros, v);
    assert a == {} && i !in a;
  }

  /** The one part of a unate variable whose column holds zeros. */
  ghost function UnatePart(cs: Shape, s: seq<Cube>, cof: set<nat>, cd: CData, v: nat): (z: nat)
    requires CountsOf(cs, s, cof, cd) && v < cs.numVars && cd.isUnate[v]
    ensures z in cs.varMask[v] && cd.partZeros[z] > 0
    ensures forall i :: i in cs.varMask[v] && i != z ==> cd.partZeros[i] == 0
  {
    var a := ActiveParts(cs, cd.partZeros, v);
    var z :| z in a;
    SubsetCard({z}, a);
    assert forall i :: i in cs.varMask[v] ==> (i in a <==> cd.partZeros[i] > 0);
    z
  }

  /** vars_unate == vars_active says that every active variable is unate. */
  lemma UnateFunction(cs: Shape, s: seq<Cube>, cof: set<nat>, cd: CData, v: nat)
    requires CountsOf(cs, s, cof, cd) && cd.varsUnate == cd.varsActive && v < cs.numVars
    ensures cd.partsActive[v] <= 1
  {
    var u, a := UnateVars(cd.partsActive, cs.numVars), ActiveVars(cd.partsActive, cs.numVars);
    SubsetCard(u, a);
    assert v in a <==> v in u;
  }

  /** Otherwise the variable chosen for splitting has two free parts. */
  lemma BinateChoice(cs: Shape, s: seq<Cube>, cof: set<nat>, cd: CData)
    requires CountsOf(cs, s, cof, cd) && cd.varsUnate != cd.varsActive
    ensures 0 <= cd.best < cs.numVars
    ensures cd.partsActive[cd.best] >= 2
    ensures |cs.varMask[cd.best] - cof| >= 2
  {
    var u, a := UnateVars(cd.partsActive, cs.numVars), ActiveVars(cd.partsActive, cs.numVars);
    assert u <= a && u != a;
    assert exists v :: v in a && v !in u;
    var v :| v in a && v !in u;
    assert cd.partsActive[v] >= 2;
    var act := ActiveParts(cs, cd.partZeros, cd.best);
    assert act <= cs.varMask[cd.best] - cof by {
      forall i | i in act ensures i !in cof {
        PartZeros(cs, s, cof, cd, i);
      }
    }
    SubsetCard(act, cs.varMask[cd.best] - cof);
  }

  // ---------- minterms ----------

  /** The minterm made of the first parts. */
  ghost function FirstMinterm(cs: Shape): (m: seq<nat>)
    ensures cs.Minterm(m)
  {
    seq(cs.numVars, v requires 0 <= v < cs.numVars => cs.firstPart[v])
  }

  /** A minterm of a nonvoid cube. */
  ghost function MintermOf(cs: Shape, p: set<nat>): (m: seq<nat>)
    requires NonVoid(cs, p)
    ensures cs.Minterm(m) && In(m, p)
  {
    seq(cs.numVars, v requires 0 <= v < cs.numVars => var i :| i in p * cs.varMask[v]; i)
  }

  lemma FullHoldsAll(cs: Shape, m: seq<nat>, p: set<nat>)
    requires cs.Minterm(m) && cs.fullset <= p
    ensures In(m, p)
  {
    forall v | 0 <= v < |m| ensures m[v] in p {
      assert m[v] in cs.varMask[v];
    }
  }

  // ---------- unate reduction ----------

  /** Minterm m moved to the zero column of every unate variable. */
  ghost function Worst(cs: Shape, s: seq<Cube>, cof: set<nat>, cd: CData, m: seq<nat>): (w: seq<nat>)
    requires CountsOf(cs, s, cof, cd) && cs.Minterm(m)
    ensures cs.Minterm(w)
    ensures forall v :: 0 <= v < cs.numVars && !cd.isUnate[v] ==> w[v] == m[v]
    ensures forall v :: 0 <= v < cs.numVars && cd.isUnate[v] ==> w[v] == UnatePart(cs, s, cof, cd, v)
  {
    seq(cs.numVars, v requires 0 <= v < cs.numVars =>
      if cd.isUnate[v] then UnatePart(cs, s, cof, cd, v) else m[v])
  }

  /** Cube p, or-ed with cof, is full in every unate variable. */
  ghost predicate FullInUnate(cs: Shape, cd: CData, p: set<nat>)
    requires |cd.isUnate| == cs.numVars
  {
    forall v :: 0 <= v < cs.numVars && cd.isUnate[v] ==> cs.varMask[v] <= p
  }

  /** A cube that holds the worst minterm is full in every unate variable. */
  lemma WorstForcesFull(cs: Shape, s: seq<Cube>, cof: set<nat>, cd: CData, m: seq<nat>, c: Cube)
    requires CountsOf(cs, s, cof, cd) && cs.Minterm(m) && c in s
    requires In(Worst(cs, s, cof, cd, m), c.parts + cof)
    ensures FullInUnate(cs, cd, c.parts + cof)
  {
    var w := Worst(cs, s, cof, cd, m);
    forall v | 0 <= v < cs.numVars && cd.isUnate[v]
      ensures cs.varMask[v] <= c.parts + cof
    {
      forall i | i in cs.varMask[v] ensures i in c.parts + cof {
        if i == UnatePart(cs, s, cof, cd, v) {
          assert i == w[v];
        } else {
          PartZeros(cs, s, cof, cd, i);
        }
      }
    }
  }

  /** Keeping only the cubes that are full in the unate variables does not change the question. */
  lemma UnateReduction(cs: Shape, s: seq<Cube>, cof: set<nat>, cd: CData, r: seq<Cube>, sel: Selection)
    requires CountsOf(cs, s, cof, cd)
    requires forall c :: c in r <==> c in s && FullInUnate(cs, cd, c.parts + cof)
    ensures Tautologous(cs, s, cof, sel) <==> Tautologous(cs, r, cof, sel)
  {
    if Tautologous(cs, s, cof, sel) {
      forall m | cs.Minterm(m) ensures CoveredBy(m, r, cof, sel) {
        var w := Worst(cs, s, cof, cd, m);
        assert CoveredBy(w, s, cof, sel);
        var c :| c in s && Uses(sel, c) && In(w, c.parts + cof);
        WorstForcesFull(cs, s, cof, cd, m, c);
        forall v | 0 <= v < |m| ensures m[v] in c.parts + cof {
          assert m[v] in cs.varMask[v];
          if !cd.isUnate[v] {
            assert m[v] == w[v];
          }
        }
        assert c in r;
      }
    }
    if Tautologous(cs, r, cof, sel) {
      forall m | cs.Minterm(m) ensures CoveredBy(m, s, cof, sel) {
        assert CoveredBy(m, r, cof, sel);
        var c :| c in r && Uses(sel, c) && In(m, c.parts + cof);
      }
    }
  }

  /** A reduction with some unate variable removes a cube. */
  lemma ReductionShrinks(cs: Shape, s: seq<Cube>, cof: set<nat>, cd: CData) returns (k: nat)
    requires CountsOf(cs, s, cof, cd) && cd.varsUnate != 0
    ensures k < |s| && !FullInUnate(cs, cd, s[k].parts + cof)
  {
    var v :| v in UnateVars(cd.partsActive, cs.numVars);
    var z := UnatePart(cs, s, cof, cd, v);
    PartZeros(cs, s, cof, cd, z);
    var c :| c in s && z !in c.parts + cof;
    k :| 0 <= k < |s| && s[k] == c;
  }

  /** In a unate cubelist only a full row can cover everything. */
  lemma UnateLeaf(cs: Shape, s: seq<Cube>, cof: set<nat>, cd: CData, sel: Selection)
    requires CountsOf(cs, s, cof, cd) && cd.varsUnate == cd.varsActive
    ensures Tautologous(cs, s, cof, sel) <==>
            exists c :: c in s && Uses(sel, c) && cs.fullset <= c.parts + cof
  {
    if Tautologous(cs, s, cof, sel) {
      var m := FirstMinterm(cs);
      var w := Worst(cs, s, cof, cd, m);
      assert CoveredBy(w, s, cof, sel);
      var c :| c in s && Uses(sel, c) && In(w, c.parts + cof);
      WorstForcesFull(cs, s, cof, cd, m, c);
      forall i | i in cs.fullset ensures i in c.parts + cof {
        var v := cs.partVar[i];
        assert i in cs.varMask[v];
        UnateFunction(cs, s, cof, cd, v);
        if !cd.isUnate[v] {
          NoActivePart(cs, cd, s, cof, v, i);
          PartZeros(cs, s, cof, cd, i);
        }
      }
    }
    FullRowCovers(cs, s, cof, sel);
  }

  lemma FullRowCovers(cs: Shape, s: seq<Cube>, cof: set<nat>, sel: Selection)
    ensures (exists c :: c in s && Uses(sel, c) && cs.fullset <= c.parts + cof) ==> Tautologous(cs, s, cof, sel)
  {
    if c :| c in s && Uses(sel, c) && cs.fullset <= c.parts + cof {
      forall m | cs.Minterm(m) ensures CoveredBy(m, s, cof, sel) {
        FullHoldsAll(cs, m, c.parts + cof);
      }
    }
  }

  // ---------- zero columns ----------

  /** The union of cof and the cubes (`ceil`). */
  ghost function Ceiling(s: seq<Cube>, cof: set<nat>): (r: set<nat>)
    ensures forall i :: i in r <==> i in cof || exists c :: c in s && i in c.parts
  {
    if s == [] then cof else Ceiling(s[..|s| - 1], cof) + s[|s| - 1].parts
  }

  lemma ZeroColumn(cs: Shape, s: seq<Cube>, cof: set<nat>)
    requires !(cs.fullset <= Ceiling(s, cof))
    ensures !Tautologous(cs, s, cof, All)
  {
    var i :| i in cs.fullset && i !in Ceiling(s, cof);
    var v := cs.partVar[i];
    assert i in cs.varMask[v];
    var m := FirstMinterm(cs)[v := i];
    assert m[v] == i;
    assert !CoveredBy(m, s, cof, All);
  }

  /** One active variable and no zero column: every minterm is covered. */
  lemma SingleActiveVariable(cs: Shape, s: seq<Cube>, cof: set<nat>, cd: CData)
    requires CountsOf(cs, s, cof, cd) && cd.varsActive == 1 && s != []
    requires cs.fullset <= Ceiling(s, cof)
    ensures Tautologous(cs, s, cof, All)
  {
    hide Ceiling;
    var a := ActiveVars(cd.partsActive, cs.numVars);
    var v :| v in a;
    forall m | cs.Minterm(m) ensures CoveredBy(m, s, cof, All) {
      assert m[v] in cs.varMask[v];
      assert m[v] in Ceiling(s, cof);
      var c :| c in s && m[v] in c.parts + cof;
      forall u | 0 <= u < |m| ensures m[u] in c.parts + cof {
        if u != v {
          if cd.partsActive[u] > 0 {
            assert {u, v} <= a;
            SubsetCard({u, v}, a);
          }
          assert m[u] in cs.varMask[u];
          NoActivePart(cs, cd, s, cof, u, m[u]);
          PartZeros(cs, s, cof, cd, m[u]);
        }
      }
    }
  }

  // ---------- splitting ----------

  /** One half h of a split of variable v. */
  ghost predicate Half(cs: Shape, cof: set<nat>, v: nat, h: set<nat>)
    requires v < cs.numVars
  {
    && h <= cs.fullset && cs.fullset - cs.varMask[v] <= h
    && (forall i :: i in cs.varMask[v] && i in h ==> i !in cof) && cs.varMask[v] * h != {}
  }

  lemma HalvesOf(cs: Shape, cof: set<nat>, v: nat, cl: set<nat>, cr: set<nat>)
    requires v < cs.numVars && SplitCubes(cs, cof, v, cl, cr)
    requires |cs.varMask[v] - cof| >= 2 && |cs.varMask[v] * cl| == |cs.varMask[v] - cof| / 2
    ensures Half(cs, cof, v, cl) && Half(cs, cof, v, cr)
  {
    var m := cs.varMask[v];
    assert m - cof == m * cl + m * cr;
    assert m * cl != {} && m * cr != {};
  }

  /** What membership in cof + (full - h) means. */
  lemma HalfCof(cs: Shape, cof: set<nat>, v: nat, h: set<nat>, u: nat, i: nat)
    requires v < cs.numVars && Half(cs, cof, v, h) && u < cs.numVars && i in cs.varMask[u]
    ensures i in cof + (cs.fullset - h) <==> i in cof || (u == v && i !in h)
  {
    assert i in cs.fullset;
  }

  /** A minterm in the half is covered there by a cube of the whole list. */
  lemma HalfToWhole(cs: Shape, s: seq<Cube>, cof: set<nat>, v: nat, h: set<nat>, m: seq<nat>, c: Cube)
    requires v < cs.numVars && Half(cs, cof, v, h) && cs.Minterm(m) && m[v] in h
    requires c in MeetingIn(cs, s, h, v) && In(m, c.parts + (cof + (cs.fullset - h)))
    ensures c in s && In(m, c.parts + cof)
  {
    forall u | 0 <= u < |m| ensures m[u] in c.parts + cof {
      HalfCof(cs, cof, v, h, u, m[u]);
    }
  }

  lemma WholeToHalf(cs: Shape, s: seq<Cube>, cof: set<nat>, v: nat, h: set<nat>, m: seq<nat>, c: Cube)
    requires v < cs.numVars && Half(cs, cof, v, h) && cs.Minterm(m) && m[v] in h
    requires c in s && In(m, c.parts + cof)
    ensures c in MeetingIn(cs, s, h, v)
    ensures In(m, c.parts + (cof + (cs.fullset - h)))
  {
    assert m[v] in cs.varMask[v] && m[v] in cs.varMask[v] * h;
    assert m[v] !in cof;
    assert m[v] in c.parts * (cs.varMask[v] * h);
  }

  lemma SplitTautology(cs: Shape, s: seq<Cube>, cof: set<nat>, v: nat, cl: set<nat>, cr: set<nat>, sel: Selection)
    requires v < cs.numVars && SplitCubes(cs, cof, v, cl, cr)
    requires Half(cs, cof, v, cl) && Half(cs, cof, v, cr)
    ensures Tautologous(cs, s, cof, sel) <==>
            && Tautologous(cs, MeetingIn(cs, s, cl, v), cof + (cs.fullset - cl), sel)
            && Tautologous(cs, MeetingIn(cs, s, cr, v), cof + (cs.fullset - cr), sel)
  {
    var sl, sr := MeetingIn(cs, s, cl, v), MeetingIn(cs, s, cr, v);
    var fl, fr := cof + (cs.fullset - cl), cof + (cs.fullset - cr);
    if Tautologous(cs, s, cof, sel) {
      HalfTautology(cs, s, cof, v, cl, sel);
      HalfTautology(cs, s, cof, v, cr, sel);
    }
    if Tautologous(cs, sl, fl, sel) && Tautologous(cs, sr, fr, sel) {
      forall m | cs.Minterm(m) ensures CoveredBy(m, s, cof, sel) {
        assert m[v] in cs.varMask[v];
        if m[v] in cof {
          var l :| l in cs.varMask[v] * cl;
          WholeFromHalf(cs, s, cof, v, cl, m[v := l], sel);
          var c :| c in s && Uses(sel, c) && In(m[v := l], c.parts + cof);
          assert In(m, c.parts + cof) by {
            forall u | 0 <= u < |m| ensures m[u] in c.parts + cof {
              assert u != v ==> m[v := l][u] == m[u];
            }
          }
        } else {
            if m[v] in cl {
            WholeFromHalf(cs, s, cof, v, cl, m, sel);
          } else {
            WholeFromHalf(cs, s, cof, v, cr, m, sel);
          }
        }
      }
    }
  }

  lemma WholeFromHalf(cs: Shape, s: seq<Cube>, cof: set<nat>, v: nat, h: set<nat>, m: seq<nat>, sel: Selection)
    requires v < cs.numVars && Half(cs, cof, v, h) && cs.Minterm(m) && m[v] in h
    requires Tautologous(cs, MeetingIn(cs, s, h, v), cof + (cs.fullset - h), sel)
    ensures CoveredBy(m, s, cof, sel)
  {
    assert CoveredBy(m, MeetingIn(cs, s, h, v), cof + (cs.fullset - h), sel);
    var c :| c in MeetingIn(cs, s, h, v) && Uses(sel, c) && In(m, c.parts + (cof + (cs.fullset - h)));
    HalfToWhole(cs, s, cof, v, h, m, c);
  }

  lemma HalfTautology(cs: Shape, s: seq<Cube>, cof: set<nat>, v: nat, h: set<nat>, sel: Selection)
    requires v < cs.numVars && Half(cs, cof, v, h)
    requires Tautologous(cs, s, cof, sel)
    ensures Tautologous(cs, MeetingIn(cs, s, h, v), cof + (cs.fullset - h), sel)
  {
    var r, f := MeetingIn(cs, s, h, v), cof + (cs.fullset - h);
    forall m | cs.Minterm(m) ensures CoveredBy(m, r, f, sel) {
      var l :| l in cs.varMask[v] * h;
      var n := if m[v] in h then m else m[v := l];
      assert m[v] in cs.varMask[v];
      assert cs.Minterm(n) && n[v] in h;
      assert CoveredBy(n, s, cof, sel);
      var c :| c in s && Uses(sel, c) && In(n, c.parts + cof);
      WholeToHalf(cs, s, cof, v, h, n, c);
      forall u | 0 <= u < |m| ensures m[u] in c.parts + f {
        HalfCof(cs, cof, v, h, u, m[u]);
        assert u != v ==> m[u] == n[u];
      }
      assert c in r;
    }
  }

  /** A half has fewer parts outside its cof. */
  ghost function FreeParts(cs: Shape, cof: set<nat>): nat {
    |cs.fullset - cof|
  }

  lemma CofGrows(cs: Shape, cof: set<nat>, more: set<nat>, i: nat)
    requires i in cs.fullset && i !in cof && i in more
    ensures FreeParts(cs, cof + more) < FreeParts(cs, cof)
  {
    var a, b := cs.fullset - (cof + more), cs.fullset - cof;
    assert i in b && i !in a;
    SubsetCard(a, b);
  }

  lemma SplitShrinks(cs: Shape, cof: set<nat>, v: nat, cl: set<nat>, cr: set<nat>)
    requires v < cs.numVars && SplitCubes(cs, cof, v, cl, cr)
    requires Half(cs, cof, v, cl) && Half(cs, cof, v, cr)
    ensures FreeParts(cs, cof + (cs.fullset - cl)) < FreeParts(cs, cof)
    ensures FreeParts(cs, cof + (cs.fullset - cr)) < FreeParts(cs, cof)
  {
    var l :| l in cs.varMask[v] * cl;
    var r :| r in cs.varMask[v] * cr;
    CofGrows(cs, cof, cs.fullset - cl, r);
    CofGrows(cs, cof, cs.fullset - cr, l);
  }

  // ---------- components ----------

  ghost predicate FullIn(cs: Shape, p: set<nat>, v: nat)
    requires v < cs.numVars
  {
    cs.varMask[v] <= p
  }

  /** No variable is active both in a cube of a and in a cube of b. */
  ghost predicate Separate(cs: Shape, a: seq<Cube>, b: seq<Cube>, cof: set<nat>) {
    forall x, y, v :: x in a && y in b && 0 <= v < cs.numVars ==>
      FullIn(cs, x.parts + cof, v) || FullIn(cs, y.parts + cof, v)
  }

  ghost predicate Partitioned(s: seq<Cube>, a: seq<Cube>, b: seq<Cube>) {
    && 0 < |a| < |s| && 0 < |b| < |s|
    && forall x :: x in s <==> x in a || x in b
  }

  /** m1 on the active variables of a, m2 elsewhere. */
  ghost function Combine(cs: Shape, a: seq<Cube>, cof: set<nat>, m1: seq<nat>, m2: seq<nat>): (m: seq<nat>)
    requires cs.Minterm(m1) && cs.Minterm(m2)
    ensures cs.Minterm(m)
    ensures forall v :: 0 <= v < cs.numVars ==>
      m[v] == if exists x :: x in a && !FullIn(cs, x.parts + cof, v) then m1[v] else m2[v]
  {
    seq(cs.numVars, v requires 0 <= v < cs.numVars =>
      if exists x :: x in a && !FullIn(cs, x.parts + cof, v) then m1[v] else m2[v])
  }

  /** A cube of a that holds the combination holds m1; one that is full wherever a is active holds m2. */
  lemma CombineHeld(cs: Shape, a: seq<Cube>, cof: set<nat>, m1: seq<nat>, m2: seq<nat>, p: set<nat>)
    requires cs.Minterm(m1) && cs.Minterm(m2) && In(Combine(cs, a, cof, m1, m2), p)
    ensures (exists x :: x in a && p == x.parts + cof) ==> In(m1, p)
    ensures (forall x, v :: x in a && 0 <= v < cs.numVars && !FullIn(cs, x.parts + cof, v) ==> FullIn(cs, p, v)) ==>
              In(m2, p)
  {
    var m := Combine(cs, a, cof, m1, m2);
    if x :| x in a && p == x.parts + cof {
      forall v | 0 <= v < |m1| ensures m1[v] in p {
        assert m1[v] in cs.varMask[v] && m[v] in p;
        assert FullIn(cs, p, v) || m[v] == m1[v];
      }
    }
    if forall x, v :: x in a && 0 <= v < cs.numVars && !FullIn(cs, x.parts + cof, v) ==> FullIn(cs, p, v) {
      forall v | 0 <= v < |m2| ensures m2[v] in p {
        assert m2[v] in cs.varMask[v] && m[v] in p;
        assert FullIn(cs, p, v) || m[v] == m2[v];
      }
    }
  }

  lemma CombineUncovered(cs: Shape, a: seq<Cube>, b: seq<Cube>, cof: set<nat>, m1: seq<nat>, m2: seq<nat>)
    requires Separate(cs, a, b, cof) && cs.Minterm(m1) && cs.Minterm(m2)
    requires !CoveredBy(m1, a, cof, All) && !CoveredBy(m2, b, cof, All)
    ensures !CoveredBy(Combine(cs, a, cof, m1, m2), a, cof, All)
    ensures !CoveredBy(Combine(cs, a, cof, m1, m2), b, cof, All)
  {
    var m := Combine(cs, a, cof, m1, m2);
    forall c | c in a ensures !In(m, c.parts + cof) {
      if In(m, c.parts + cof) {
        CombineHeld(cs, a, cof, m1, m2, c.parts + cof);
      }
    }
    forall c | c in b ensures !In(m, c.parts + cof) {
      if In(m, c.parts + cof) {
        CombineHeld(cs, a, cof, m1, m2, c.parts + cof);
      }
    }
  }

  lemma ComponentTautology(cs: Shape, s: seq<Cube>, a: seq<Cube>, b: seq<Cube>, cof: set<nat>)
    requires (forall x :: x in s <==> x in a || x in b) && Separate(cs, a, b, cof)
    ensures Tautologous(cs, s, cof, All) <==> Tautologous(cs, a, cof, All) || Tautologous(cs, b, cof, All)
  {
    if !Tautologous(cs, a, cof, All) && !Tautologous(cs, b, cof, All) {
      var m1 :| cs.Minterm(m1) && !CoveredBy(m1, a, cof, All);
      var m2 :| cs.Minterm(m2) && !CoveredBy(m2, b, cof, All);
      CombineUncovered(cs, a, b, cof, m1, m2);
      var m := Combine(cs, a, cof, m1, m2);
      assert !CoveredBy(m, s, cof, All);
    }
    if Tautologous(cs, a, cof, All) || Tautologous(cs, b, cof, All) {
      forall m | cs.Minterm(m) ensures CoveredBy(m, s, cof, All) {
        assert CoveredBy(m, a, cof, All) || CoveredBy(m, b, cof, All);
        var c :| (c in a || c in b) && In(m, c.parts + cof);
        assert c in s;
      }
    }
  }
}
