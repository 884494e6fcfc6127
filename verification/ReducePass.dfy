/** reduce.c: the smallest cube containing the complement, and the reduction of a cover. */
module ReducePass {
  import opened Cubes
  import opened Cofactor
  import opened Recursion
  import opened Partition
  import opened Irred
  import opened Containment
  import opened Ordering
  import opened Primes
  import opened Redundancy

  // ---------- the complement on the domain of a cubelist ----------

  /** A minterm of the domain that no cube covers. */
  ghost predicate Missed(cs: Shape, cubes: seq<Cube>, cof: set<nat>, m: seq<nat>) {
    OnDom(cs, cof, m) && !CoveredBy(m, cubes, cof, All)
  }

  /** Some missed minterm uses part i. */
  ghost predicate MissedAt(cs: Shape, cubes: seq<Cube>, cof: set<nat>, i: nat)
    requires i in cs.fullset
  {
    exists m :: Missed(cs, cubes, cof, m) && m[cs.partVar[i]] == i
  }

  /** On the parts outside cof, r is the smallest cube that holds every missed minterm. */
  ghost predicate Smallest(cs: Shape, cubes: seq<Cube>, cof: set<nat>, r: set<nat>) {
    r <= cs.fullset && forall i :: i in cs.fullset && i !in cof ==> (i in r <==> MissedAt(cs, cubes, cof, i))
  }

  /** A minterm of the domain. */
  ghost function DomainMinterm(cs: Shape, cof: set<nat>): (m: seq<nat>)
    requires HasDomain(cs, cof)
    ensures OnDom(cs, cof, m)
  {
    seq(cs.numVars, v requires 0 <= v < cs.numVars => var i :| i in cs.varMask[v] - cof; i)
  }

  lemma DomainThrough(cs: Shape, cof: set<nat>, m: seq<nat>, i: nat)
    requires OnDom(cs, cof, m) && i in cs.fullset && i !in cof
    ensures OnDom(cs, cof, m[cs.partVar[i] := i])
  {
    assert i in cs.varMask[cs.partVar[i]];
  }

  // ---------- the special cases ----------

  lemma NoCubesMissed(cs: Shape, cof: set<nat>)
    requires HasDomain(cs, cof)
    ensures Smallest(cs, [], cof, cs.fullset)
  {
    forall i | i in cs.fullset && i !in cof ensures MissedAt(cs, [], cof, i) {
      var m := DomainMinterm(cs, cof)[cs.partVar[i] := i];
      DomainThrough(cs, cof, DomainMinterm(cs, cof), i);
      assert Missed(cs, [], cof, m);
    }
  }

  lemma NothingMissed(cs: Shape, cubes: seq<Cube>, cof: set<nat>)
    requires Tautologous(cs, cubes, cof, All)
    ensures Smallest(cs, cubes, cof, {})
  {
  }

  /** p is full in every variable but v (`cactive` returned v). */
  ghost predicate ActiveOnlyIn(cs: Shape, p: set<nat>, v: int) {
    0 <= v < cs.numVars && !FullIn(cs, p, v) && forall u :: 0 <= u < cs.numVars && u != v ==> FullIn(cs, p, u)
  }

  /** cactive -- the only active variable of p, or -1 if there are none or several. */
  method Cactive(cs: Shape, p: set<nat>) returns (active: int)
    ensures -1 <= active < cs.numVars
    ensures active >= 0 ==> ActiveOnlyIn(cs, p, active)
    ensures active < 0 ==> forall v :: !ActiveOnlyIn(cs, p, v)
  {
    active := -1;
    for v := 0 to cs.numVars
      invariant -1 <= active < v
      invariant active >= 0 ==> !FullIn(cs, p, active)
      invariant forall u :: 0 <= u < v && u != active ==> FullIn(cs, p, u)
    {
      if !(cs.varMask[v] <= p) {
        assert !FullIn(cs, p, v);
        if active >= 0 {
          return -1;
        }
        active := v;
      }
    }
  }

  /** What sccc_cube leaves of result: in the only active variable of p, the parts of p go. */
  ghost function WithoutCube(cs: Shape, result: set<nat>, p: set<nat>): (r: set<nat>) {
    set i | i in result && !exists v :: ActiveOnlyIn(cs, p, v) && i in cs.varMask[v] && i in p
  }

  /** sccc_cube */
  method ScccCube(cs: Shape, result: set<nat>, p: set<nat>) returns (r: set<nat>)
    requires result <= cs.fullset
    ensures r == WithoutCube(cs, result, p)
  {
    r := result;
    var v := Cactive(cs, p);
    if v >= 0 {
      var mask := cs.varMask[v];
      var temp := (p - mask) + (mask - p);
      r := r * temp;
      forall i | i in result ensures i in r <==> !(i in mask && i in p) {
        assert i in cs.varMask[cs.partVar[i]];
        assert i !in mask ==> FullIn(cs, p, cs.partVar[i]);
      }
      assert forall u :: ActiveOnlyIn(cs, p, u) ==> u == v;
    }
  }

  /** Part i survives every cube. */
  ghost predicate Survives(cs: Shape, s: seq<Cube>, cof: set<nat>, i: nat) {
    forall c, v :: c in s && ActiveOnlyIn(cs, c.parts + cof, v) && i in cs.varMask[v] ==> i !in c.parts + cof
  }

  /** The loop that applies sccc_cube to every cube. */
  method ScccCubes(cs: Shape, T: CubeList) returns (r: set<nat>)
    ensures r <= cs.fullset && forall i :: i in cs.fullset ==> (i in r <==> Survives(cs, T.cubes, T.cof, i))
  {
    r := cs.fullset;
    for k := 0 to |T.cubes|
      invariant r <= cs.fullset
      invariant forall i :: i in cs.fullset ==> (i in r <==> Survives(cs, T.cubes[..k], T.cof, i))
    {
      assert T.cubes[..k + 1] == T.cubes[..k] + [T.cubes[k]];
      r := ScccCube(cs, r, T.cubes[k].parts + T.cof);
    }
    assert T.cubes[..|T.cubes|] == T.cubes;
  }

  /** In every variable there is a domain part that each cube active there misses. */
  ghost predicate HasWorst(cs: Shape, s: seq<Cube>, cof: set<nat>, w: seq<nat>) {
    && OnDom(cs, cof, w)
    && forall c, v :: c in s && 0 <= v < cs.numVars && !FullIn(cs, c.parts + cof, v) ==> w[v] !in c.parts + cof
  }

  lemma UnateWorst(cs: Shape, s: seq<Cube>, cof: set<nat>, cd: CData) returns (w: seq<nat>)
    requires CountsOf(cs, s, cof, cd) && cd.varsUnate == cd.varsActive && HasDomain(cs, cof)
    ensures HasWorst(cs, s, cof, w)
  {
    var m := DomainMinterm(cs, cof);
    w := Worst(cs, s, cof, cd, m);
    forall v | 0 <= v < cs.numVars
      ensures w[v] !in cof && forall c :: c in s && !FullIn(cs, c.parts + cof, v) ==> w[v] !in c.parts + cof
    {
      UnateFunction(cs, s, cof, cd, v);
      if cd.isUnate[v] {
        PartZeros(cs, s, cof, cd, w[v]);
        assert ZeroAt(w[v], s, cof);
      }
      forall c | c in s && !FullIn(cs, c.parts + cof, v) ensures w[v] !in c.parts + cof {
        var i :| i in cs.varMask[v] && i !in c.parts + cof;
        PartZeros(cs, s, cof, cd, i);
        if !cd.isUnate[v] {
          NoActivePart(cs, cd, s, cof, v, i);
        }
        assert cd.isUnate[v] && i == UnatePart(cs, s, cof, cd, v);
      }
    }
  }

  lemma SingleWorst(cs: Shape, c: Cube, cof: set<nat>) returns (w: seq<nat>)
    requires HasDomain(cs, cof)
    ensures HasWorst(cs, [c], cof, w)
  {
    var p := c.parts + cof;
    forall v | 0 <= v < cs.numVars && !FullIn(cs, p, v) ensures cs.varMask[v] - p != {} {
      var i :| i in cs.varMask[v] && i !in p;
      assert i in cs.varMask[v] - p;
    }
    w := seq(cs.numVars, v requires 0 <= v < cs.numVars =>
      if FullIn(cs, p, v) then (var i :| i in cs.varMask[v] - cof; i) else (var i :| i in cs.varMask[v] - p; i));
  }

  /** The parts that survive are those of the missed minterms. */
  lemma WorstSmallest(cs: Shape, s: seq<Cube>, cof: set<nat>, w: seq<nat>, r: set<nat>)
    requires HasWorst(cs, s, cof, w) && forall c :: c in s ==> !FullRow(cs, c.parts, cof)
    requires r <= cs.fullset && forall i :: i in cs.fullset ==> (i in r <==> Survives(cs, s, cof, i))
    ensures Smallest(cs, s, cof, r)
  {
    forall i | i in cs.fullset && i !in cof ensures i in r <==> MissedAt(cs, s, cof, i) {
      if i in r {
        WorstMissed(cs, s, cof, w, i);
      }
      if MissedAt(cs, s, cof, i) {
        MissedSurvives(cs, s, cof, i);
      }
    }
  }

  lemma WorstMissed(cs: Shape, s: seq<Cube>, cof: set<nat>, w: seq<nat>, i: nat)
    requires HasWorst(cs, s, cof, w) && forall c :: c in s ==> !FullRow(cs, c.parts, cof)
    requires i in cs.fullset && i !in cof && Survives(cs, s, cof, i)
    ensures MissedAt(cs, s, cof, i)
  {
    var v := cs.partVar[i];
    var m := w[v := i];
    DomainThrough(cs, cof, w, i);
    forall c | c in s ensures !In(m, c.parts + cof) {
      var j :| j in cs.fullset && j !in c.parts + cof;
      var u := cs.partVar[j];
      assert j in cs.varMask[u] && i in cs.varMask[v];
      if x :| 0 <= x < cs.numVars && x != v && !FullIn(cs, c.parts + cof, x) {
        assert m[x] == w[x] && m[x] !in c.parts + cof;
      } else {
        assert !FullIn(cs, c.parts + cof, u);
        assert ActiveOnlyIn(cs, c.parts + cof, v);
        assert m[v] == i && i !in c.parts + cof;
      }
    }
    assert Missed(cs, s, cof, m);
  }

  lemma MissedSurvives(cs: Shape, s: seq<Cube>, cof: set<nat>, i: nat)
    requires i in cs.fullset && MissedAt(cs, s, cof, i)
    ensures Survives(cs, s, cof, i)
  {
    var m :| Missed(cs, s, cof, m) && m[cs.partVar[i]] == i;
    forall c, v | c in s && ActiveOnlyIn(cs, c.parts + cof, v) && i in cs.varMask[v] ensures i !in c.parts + cof {
      assert cs.partVar[i] == v;
      assert !In(m, c.parts + cof);
      var u :| 0 <= u < |m| && m[u] !in c.parts + cof;
      assert m[u] in cs.varMask[u];
      assert !FullIn(cs, c.parts + cof, u);
      assert u == v;
    }
  }

  // ---------- zero columns ----------

  /** A minterm outside ceil is missed. */
  lemma OutsideCeiling(cs: Shape, s: seq<Cube>, cof: set<nat>, m: seq<nat>, v: nat)
    requires OnDom(cs, cof, m) && v < cs.numVars && m[v] !in Ceiling(s, cof)
    ensures Missed(cs, s, cof, m)
  {
    forall c | c in s ensures !In(m, c.parts + cof) {
      assert m[v] !in c.parts;
    }
  }

  /** Any part of the domain is missed if another variable has a zero column. */
  lemma MissedBeside(cs: Shape, s: seq<Cube>, cof: set<nat>, i: nat, j: nat)
    requires HasDomain(cs, cof) && i in cs.fullset && i !in cof && j in cs.fullset && j !in Ceiling(s, cof)
    requires cs.partVar[i] != cs.partVar[j] || i == j
    ensures MissedAt(cs, s, cof, i)
  {
    var m := DomainMinterm(cs, cof);
    DomainThrough(cs, cof, m, j);
    DomainThrough(cs, cof, m[cs.partVar[j] := j], i);
    var n: seq<nat> := m[cs.partVar[j] := j][cs.partVar[i] := i];
    OutsideCeiling(cs, s, cof, n, cs.partVar[j]);
  }

  /** Zero columns in several variables: every part is missed. */
  lemma ManyZeroColumns(cs: Shape, s: seq<Cube>, cof: set<nat>)
    requires HasDomain(cs, cof) && !(cs.fullset <= Ceiling(s, cof))
    requires forall v :: !ActiveOnlyIn(cs, Ceiling(s, cof), v)
    ensures Smallest(cs, s, cof, cs.fullset)
  {
    var ceil := Ceiling(s, cof);
    var j :| j in cs.fullset && j !in ceil;
    var u := cs.partVar[j];
    assert j in cs.varMask[u];
    assert !FullIn(cs, ceil, u) && !ActiveOnlyIn(cs, ceil, u);
    var x :| 0 <= x < cs.numVars && x != u && !FullIn(cs, ceil, x);
    var k :| k in cs.varMask[x] && k !in ceil;
    forall i | i in cs.fullset && i !in cof ensures MissedAt(cs, s, cof, i) {
      if cs.partVar[i] != u {
        MissedBeside(cs, s, cof, i, j);
      } else {
        MissedBeside(cs, s, cof, i, k);
      }
    }
  }

  /** A zero column in variable v only: part i of v inside ceil is decided on the smaller domain. */
  lemma InsideCeiling(cs: Shape, s: seq<Cube>, cof: set<nat>, v: nat, i: nat)
    requires InDomain(cs, s, cof) && cof <= cs.fullset
    requires ActiveOnlyIn(cs, Ceiling(s, cof), v) && i in cs.varMask[v] && i in Ceiling(s, cof) && i !in cof
    ensures var ceil := Ceiling(s, cof);
            MissedAt(cs, s, cof, i) <==> MissedAt(cs, Meeting(cs, s, ceil, -1), cof + (cs.fullset - ceil), i)
  {
    var ceil := Ceiling(s, cof);
    AllMeetCeiling(cs, s, cof);
    assert cs.partVar[i] == v;
    forall m | cs.Minterm(m) && m[v] == i
      ensures Missed(cs, s, cof, m) <==> Missed(cs, Meeting(cs, s, ceil, -1), cof + (cs.fullset - ceil), m)
    {
      InsideMissed(cs, s, Meeting(cs, s, ceil, -1), cof, v, m);
    }
  }

  lemma InsideMissed(cs: Shape, s: seq<Cube>, t: seq<Cube>, cof: set<nat>, v: nat, m: seq<nat>)
    requires (forall c :: c in s <==> c in t) && ActiveOnlyIn(cs, Ceiling(s, cof), v)
    requires cs.Minterm(m) && m[v] in Ceiling(s, cof)
    ensures Missed(cs, s, cof, m) <==> Missed(cs, t, cof + (cs.fullset - Ceiling(s, cof)), m)
  {
    var ceil := Ceiling(s, cof);
    var f := cof + (cs.fullset - ceil);
    forall u | 0 <= u < cs.numVars ensures m[u] in f <==> m[u] in cof {
      assert m[u] in cs.varMask[u];
      assert u != v ==> FullIn(cs, ceil, u);
    }
    forall p: set<nat> ensures In(m, p + cof) <==> In(m, p + f) {
      assert forall u :: 0 <= u < |m| ==> (m[u] in p + cof <==> m[u] in p + f);
    }
  }

  lemma AllMeetCeiling(cs: Shape, s: seq<Cube>, cof: set<nat>)
    requires InDomain(cs, s, cof)
    ensures forall c :: c in s <==> c in Meeting(cs, s, Ceiling(s, cof), -1)
    ensures InDomain(cs, Meeting(cs, s, Ceiling(s, cof), -1), cof + (cs.fullset - Ceiling(s, cof)))
  {
    var ceil := Ceiling(s, cof);
    forall c | c in s ensures c in Meeting(cs, s, ceil, -1) {
      forall v | 0 <= v < cs.numVars ensures c.parts * ceil * cs.varMask[v] != {} {
        var i :| i in (c.parts - cof) * cs.varMask[v];
        assert i in c.parts * ceil * cs.varMask[v];
      }
      var k :| 0 <= k < |s| && s[k] == c;
    }
    forall c, v | c in Meeting(cs, s, ceil, -1) && 0 <= v < cs.numVars
      ensures (c.parts - (cof + (cs.fullset - ceil))) * cs.varMask[v] != {}
    {
      var i :| i in (c.parts - cof) * cs.varMask[v];
      assert i in (c.parts - (cof + (cs.fullset - ceil))) * cs.varMask[v];
    }
  }

  /** The domain left after factoring out the zero columns of a nonempty list. */
  lemma CeilingDomain(cs: Shape, s: seq<Cube>, cof: set<nat>)
    requires InDomain(cs, s, cof) && s != []
    ensures HasDomain(cs, cof + (cs.fullset - Ceiling(s, cof)))
  {
    forall v | 0 <= v < cs.numVars ensures cs.varMask[v] - (cof + (cs.fullset - Ceiling(s, cof))) != {} {
      assert s[0] in s;
      var i :| i in (s[0].parts - cof) * cs.varMask[v];
      assert i in cs.varMask[v] - (cof + (cs.fullset - Ceiling(s, cof)));
    }
  }

  /** A zero column in variable v only: the parts outside v and the zero columns are all missed. */
  lemma BesideZeroColumn(cs: Shape, s: seq<Cube>, cof: set<nat>, v: nat, result: set<nat>)
    requires HasDomain(cs, cof)
    requires ActiveOnlyIn(cs, Ceiling(s, cof), v) && result == WithoutCube(cs, cs.fullset, Ceiling(s, cof))
    ensures forall i :: i in result && i !in cof ==> MissedAt(cs, s, cof, i)
  {
    var j :| j in cs.varMask[v] && j !in Ceiling(s, cof);
    forall i | i in result && i !in cof ensures MissedAt(cs, s, cof, i) {
      MissedBeside(cs, s, cof, i, if cs.partVar[i] == v then i else j);
    }
  }

  /** The other parts of v are decided on the smaller domain. */
  lemma InsideZeroColumn(cs: Shape, s: seq<Cube>, cof: set<nat>, v: nat, r: set<nat>, result: set<nat>)
    requires InDomain(cs, s, cof) && cof <= cs.fullset
    requires ActiveOnlyIn(cs, Ceiling(s, cof), v) && result == WithoutCube(cs, cs.fullset, Ceiling(s, cof))
    requires var ceil := Ceiling(s, cof); Smallest(cs, Meeting(cs, s, ceil, -1), cof + (cs.fullset - ceil), r)
    ensures forall i :: i in cs.fullset && i !in cof && i !in result ==>
              (i in r * Ceiling(s, cof) <==> MissedAt(cs, s, cof, i))
  {
    forall i | i in cs.fullset && i !in cof && i !in result
      ensures i in r * Ceiling(s, cof) <==> MissedAt(cs, s, cof, i)
    {
      var u :| ActiveOnlyIn(cs, Ceiling(s, cof), u) && i in cs.varMask[u] && i in Ceiling(s, cof);
      assert u == v;
      InsideCeiling(cs, s, cof, v, i);
    }
  }

  lemma SmallestUnion(cs: Shape, s: seq<Cube>, cof: set<nat>, inside: set<nat>, result: set<nat>)
    requires inside <= cs.fullset && result <= cs.fullset
    requires forall i :: i in result && i !in cof ==> MissedAt(cs, s, cof, i)
    requires forall i :: i in cs.fullset && i !in cof && i !in result ==> (i in inside <==> MissedAt(cs, s, cof, i))
    ensures Smallest(cs, s, cof, inside + cs.fullset * result)
  {
  }

  lemma OneZeroColumn(cs: Shape, s: seq<Cube>, cof: set<nat>, v: nat, r: set<nat>, result: set<nat>)
    requires HasDomain(cs, cof) && InDomain(cs, s, cof) && cof <= cs.fullset
    requires ActiveOnlyIn(cs, Ceiling(s, cof), v) && result == WithoutCube(cs, cs.fullset, Ceiling(s, cof))
    requires var ceil := Ceiling(s, cof); Smallest(cs, Meeting(cs, s, ceil, -1), cof + (cs.fullset - ceil), r)
    ensures Smallest(cs, s, cof, r * Ceiling(s, cof) + cs.fullset * result)
  {
    BesideZeroColumn(cs, s, cof, v, result);
    InsideZeroColumn(cs, s, cof, v, r, result);
    SmallestUnion(cs, s, cof, r * Ceiling(s, cof), result);
  }

  // ---------- components ----------

  lemma CombineDomain(cs: Shape, a: seq<Cube>, cof: set<nat>, m1: seq<nat>, m2: seq<nat>)
    requires OnDom(cs, cof, m1) && OnDom(cs, cof, m2)
    ensures OnDom(cs, cof, Combine(cs, a, cof, m1, m2))
  {
  }

  lemma ComponentsSmallest(cs: Shape, s: seq<Cube>, a: seq<Cube>, b: seq<Cube>, cof: set<nat>, ra: set<nat>,
                           rb: set<nat>)
    requires (forall x :: x in s <==> x in a || x in b) && Separate(cs, a, b, cof)
    requires Smallest(cs, a, cof, ra) && Smallest(cs, b, cof, rb)
    ensures Smallest(cs, s, cof, ra * rb)
  {
    forall i | i in cs.fullset && i !in cof ensures i in ra * rb <==> MissedAt(cs, s, cof, i) {
      var v := cs.partVar[i];
      if i in ra * rb {
        var m1 :| Missed(cs, a, cof, m1) && m1[v] == i;
        var m2 :| Missed(cs, b, cof, m2) && m2[v] == i;
        CombineUncovered(cs, a, b, cof, m1, m2);
        CombineDomain(cs, a, cof, m1, m2);
        assert Missed(cs, s, cof, Combine(cs, a, cof, m1, m2));
      }
      if MissedAt(cs, s, cof, i) {
        var m :| Missed(cs, s, cof, m) && m[v] == i;
        assert Missed(cs, a, cof, m) && Missed(cs, b, cof, m);
      }
    }
  }

  // ---------- the split ----------

  /** A minterm in the half h is missed by the whole exactly when it is missed by that half. */
  lemma HalfMissed(cs: Shape, s: seq<Cube>, cof: set<nat>, v: nat, h: set<nat>, m: seq<nat>)
    requires v < cs.numVars && Half(cs, cof, v, h)
    ensures Missed(cs, MeetingIn(cs, s, h, v), cof + (cs.fullset - h), m) <==>
            Missed(cs, s, cof, m) && m[v] in h
  {
    var r, f := MeetingIn(cs, s, h, v), cof + (cs.fullset - h);
    if cs.Minterm(m) {
      forall u | 0 <= u < cs.numVars ensures m[u] in f <==> m[u] in cof || (u == v && m[u] !in h) {
        HalfCof(cs, cof, v, h, u, m[u]);
      }
    }
    if OnDom(cs, f, m) {
      assert m[v] in h;
      if CoveredBy(m, s, cof, All) {
        var c :| c in s && In(m, c.parts + cof);
        WholeToHalf(cs, s, cof, v, h, m, c);
      }
      if CoveredBy(m, r, f, All) {
        var c :| c in r && In(m, c.parts + f);
        HalfToWhole(cs, s, cof, v, h, m, c);
      }
    }
  }

  /** sccc_merge */
  method ScccMerge(left: set<nat>, right: set<nat>, cl: set<nat>, cr: set<nat>) returns (r: set<nat>)
    ensures r == left * cl + right * cr
  {
    r := left * cl;
    var right' := right * cr;
    r := r + right';
  }

  lemma SplitSmallest(cs: Shape, s: seq<Cube>, cof: set<nat>, v: nat, cl: set<nat>, cr: set<nat>, left: set<nat>,
                      right: set<nat>)
    requires v < cs.numVars && SplitCubes(cs, cof, v, cl, cr) && Half(cs, cof, v, cl) && Half(cs, cof, v, cr)
    requires Smallest(cs, MeetingIn(cs, s, cl, v), cof + (cs.fullset - cl), left)
    requires Smallest(cs, MeetingIn(cs, s, cr, v), cof + (cs.fullset - cr), right)
    ensures Smallest(cs, s, cof, left * cl + right * cr)
  {
    forall i | i in cs.fullset && i !in cof ensures i in left * cl + right * cr <==> MissedAt(cs, s, cof, i) {
      HalfSide(cs, s, cof, v, cl, left, i);
      HalfSide(cs, s, cof, v, cr, right, i);
      if MissedAt(cs, s, cof, i) {
        var m :| Missed(cs, s, cof, m) && m[cs.partVar[i]] == i;
        assert m[v] in cs.varMask[v];
        assert m[v] in cl || m[v] in cr;
        assert MissedIn(cs, s, cof, v, cl, i) || MissedIn(cs, s, cof, v, cr, i);
      }
    }
  }

  /** Some missed minterm through i lies in the half h. */
  ghost predicate MissedIn(cs: Shape, s: seq<Cube>, cof: set<nat>, v: nat, h: set<nat>, i: nat)
    requires v < cs.numVars && i in cs.fullset
  {
    exists m :: Missed(cs, s, cof, m) && m[v] in h && m[cs.partVar[i]] == i
  }

  lemma HalfSide(cs: Shape, s: seq<Cube>, cof: set<nat>, v: nat, h: set<nat>, side: set<nat>, i: nat)
    requires v < cs.numVars && Half(cs, cof, v, h) && i in cs.fullset && i !in cof
    requires Smallest(cs, MeetingIn(cs, s, h, v), cof + (cs.fullset - h), side)
    ensures i in side * h <==> MissedIn(cs, s, cof, v, h, i)
  {
    var r, f := MeetingIn(cs, s, h, v), cof + (cs.fullset - h);
    assert i in cs.varMask[cs.partVar[i]];
    if i in side * h {
      var m :| Missed(cs, r, f, m) && m[cs.partVar[i]] == i;
      HalfMissed(cs, s, cof, v, h, m);
    }
    if m :| Missed(cs, s, cof, m) && m[v] in h && m[cs.partVar[i]] == i {
      HalfMissed(cs, s, cof, v, h, m);
      assert i in h by {
        if cs.partVar[i] != v {
          assert i in cs.fullset - cs.varMask[v];
        }
      }
    }
  }

  // ---------- sccc ----------

  /** What sccc demands of its argument. */
  ghost predicate Domain(cs: Shape, cubes: seq<Cube>, cof: set<nat>) {
    Fits(cs, cubes, cof) && HasDomain(cs, cof) && InDomain(cs, cubes, cof)
  }

  method ScccHalf(cs: Shape, T: CubeList, h: set<nat>, v: nat) returns (r: set<nat>)
    requires v < cs.numVars && Half(cs, T.cof, v, h) && Domain(cs, T.cubes, T.cof)
    requires FreeParts(cs, T.cof + (cs.fullset - h)) < FreeParts(cs, T.cof)
    ensures Smallest(cs, MeetingIn(cs, T.cubes, h, v), T.cof + (cs.fullset - h), r)
    decreases FreeParts(cs, T.cof), |T.cubes|, 0
  {
    HalfInDomain(cs, T.cubes, T.cof, v, h);
    var half := Scofactor(cs, T, h, v);
    r := Sccc(cs, half);
  }

  /** sccc -- T is disposed of. */
  method Sccc(cs: Shape, T: CubeList) returns (r: set<nat>)
    requires T.cubes == [] || Domain(cs, T.cubes, T.cof)
    ensures Domain(cs, T.cubes, T.cof) ==> Smallest(cs, T.cubes, T.cof, r)
    ensures T.cubes == [] ==> r == cs.fullset
    decreases FreeParts(cs, T.cof), |T.cubes|, 3
  {
    var done, cd;
    done, r, cd := ScccSpecialCases(cs, T);
    if !done {
      var best := cd.best;
      BinateChoice(cs, T.cubes, T.cof, cd);
      var cl, cr := BinateSplitSelect(cs, T.cof, best);
      HalvesOf(cs, T.cof, best, cl, cr);
      SplitShrinks(cs, T.cof, best, cl, cr);
      var left := ScccHalf(cs, T, cl, best);
      var right := ScccHalf(cs, T, cr, best);
      r := ScccMerge(left, right, cl, cr);
      SplitSmallest(cs, T.cubes, T.cof, best, cl, cr, left, right);
    }
  }

  /** sccc_special_cases -- done is false for MAYBE. */
  method ScccSpecialCases(cs: Shape, T: CubeList) returns (done: bool, result: set<nat>, cd: CData)
    requires T.cubes == [] || Domain(cs, T.cubes, T.cof)
    ensures done && Domain(cs, T.cubes, T.cof) ==> Smallest(cs, T.cubes, T.cof, result)
    ensures T.cubes == [] ==> done && result == cs.fullset
    ensures !done ==> CountsOf(cs, T.cubes, T.cof, cd) && cd.varsUnate != cd.varsActive
    decreases FreeParts(cs, T.cof), |T.cubes|, 2
  {
    cd := NO_COUNTS;
    if |T.cubes| == 0 {
      if Domain(cs, T.cubes, T.cof) {
        NoCubesMissed(cs, T.cof);
      }
      return true, cs.fullset, cd;
    }
    for k := 0 to |T.cubes|
      invariant forall j :: 0 <= j < k ==> !FullRow(cs, T.cubes[j].parts, T.cof)
    {
      if FullRow(cs, T.cubes[k].parts, T.cof) {
        FullRowCovers(cs, T.cubes, T.cof, All);
        NothingMissed(cs, T.cubes, T.cof);
        return true, {}, cd;
      }
    }
    cd := MassiveCount(cs, T);
    if cd.varsUnate == cd.varsActive || |T.cubes| == 1 {
      result := ScccLeaf(cs, T, cd);
      return true, result, cd;
    }
    var ceil := Ceil(T);
    if ceil != cs.fullset {
      result := ScccZeroColumn(cs, T, ceil);
      return true, result, cd;
    }
    if cd.varsActive == 1 {
      SingleActiveVariable(cs, T.cubes, T.cof, cd);
      NothingMissed(cs, T.cubes, T.cof);
      return true, {}, cd;
    }
    if cd.varZeros[cd.best] < |T.cubes| / 2 {
      done, result := ScccComponents(cs, T);
      return done, result, cd;
    }
    return false, {}, cd;
  }

  method ScccLeaf(cs: Shape, T: CubeList, ghost cd: CData) returns (result: set<nat>)
    requires HasDomain(cs, T.cof) && CountsOf(cs, T.cubes, T.cof, cd)
    requires cd.varsUnate == cd.varsActive || |T.cubes| == 1
    requires forall k :: 0 <= k < |T.cubes| ==> !FullRow(cs, T.cubes[k].parts, T.cof)
    ensures Smallest(cs, T.cubes, T.cof, result)
  {
    result := ScccCubes(cs, T);
    ghost var w;
    if cd.varsUnate == cd.varsActive {
      w := UnateWorst(cs, T.cubes, T.cof, cd);
    } else {
      w := SingleWorst(cs, T.cubes[0], T.cof);
      assert T.cubes == [T.cubes[0]];
    }
    WorstSmallest(cs, T.cubes, T.cof, w, result);
  }

  method ScccZeroColumn(cs: Shape, T: CubeList, ceil: set<nat>) returns (result: set<nat>)
    requires Domain(cs, T.cubes, T.cof) && T.cubes != [] && ceil == Ceiling(T.cubes, T.cof) && ceil != cs.fullset
    ensures Smallest(cs, T.cubes, T.cof, result)
    decreases FreeParts(cs, T.cof), |T.cubes|, 1
  {
    assert ceil <= cs.fullset;
    result := ScccCube(cs, cs.fullset, ceil);
    if result == cs.fullset {
      ManyActive(cs, T.cubes, T.cof);
      ManyZeroColumns(cs, T.cubes, T.cof);
    } else {
      ghost var v :| ActiveOnlyIn(cs, ceil, v);
      var r := ScccFactored(cs, T, ceil, v);
      OneZeroColumn(cs, T.cubes, T.cof, v, r, result);
      result := ScccMerge(r, cs.fullset, ceil, result);
    }
  }

  lemma FactoredDomain(cs: Shape, s: seq<Cube>, cof: set<nat>)
    requires Domain(cs, s, cof) && s != []
    ensures Domain(cs, Meeting(cs, s, Ceiling(s, cof), -1), cof + (cs.fullset - Ceiling(s, cof)))
  {
    AllMeetCeiling(cs, s, cof);
    CeilingDomain(cs, s, cof);
  }

  /** The recursive call after the zero columns of variable v are factored out. */
  method ScccFactored(cs: Shape, T: CubeList, ceil: set<nat>, ghost v: int) returns (r: set<nat>)
    requires Domain(cs, T.cubes, T.cof) && T.cubes != [] && ceil == Ceiling(T.cubes, T.cof) && ActiveOnlyIn(cs, ceil, v)
    ensures Smallest(cs, Meeting(cs, T.cubes, ceil, -1), T.cof + (cs.fullset - ceil), r)
    decreases FreeParts(cs, T.cof), |T.cubes|, 0
  {
    ghost var j :| j in cs.varMask[v] && j !in ceil;
    CofGrows(cs, T.cof, cs.fullset - ceil, j);
    FactoredDomain(cs, T.cubes, T.cof);
    var Tc := CofactorOf(cs, T, ceil, -1);
    r := Sccc(cs, Tc);
  }

  /** sccc_cube left the universe alone: ceil is active in several variables. */
  lemma ManyActive(cs: Shape, s: seq<Cube>, cof: set<nat>)
    requires s != [] && InDomain(cs, s, cof) && WithoutCube(cs, cs.fullset, Ceiling(s, cof)) == cs.fullset
    ensures forall v :: !ActiveOnlyIn(cs, Ceiling(s, cof), v)
  {
    var ceil := Ceiling(s, cof);
    forall v ensures !ActiveOnlyIn(cs, ceil, v) {
      if 0 <= v < cs.numVars {
        assert s[0] in s;
        var i :| i in (s[0].parts - cof) * cs.varMask[v];
        assert i in ceil && i in cs.fullset && i in WithoutCube(cs, cs.fullset, ceil);
      }
    }
  }

  method ScccComponents(cs: Shape, T: CubeList) returns (done: bool, result: set<nat>)
    requires Domain(cs, T.cubes, T.cof) && T.cubes != []
    ensures done ==> Smallest(cs, T.cubes, T.cof, result)
    decreases FreeParts(cs, T.cof), |T.cubes|, 0
  {
    var rest, A, B := CubelistPartition(cs, T);
    if rest == 0 {
      return false, {};
    }
    result := Sccc(cs, A);
    var other := Sccc(cs, B);
    ComponentsSmallest(cs, T.cubes, A.cubes, B.cubes, T.cof, result, other);
    return true, result * other;
  }

  // ---------- reduce ----------

  /** A minterm of cube p that no other cube of s covers. */
  ghost predicate Essential(cs: Shape, s: seq<Cube>, self: int, p: set<nat>, m: seq<nat>) {
    cs.Minterm(m) && In(m, p) && forall k :: 0 <= k < |s| && k != self ==> !In(m, s[k].parts)
  }

  ghost predicate EssentialAt(cs: Shape, s: seq<Cube>, self: int, p: set<nat>, i: nat)
    requires i in cs.fullset
  {
    exists m :: Essential(cs, s, self, p, m) && m[cs.partVar[i]] == i
  }

  /** r is the maximal reduction of cube p at position self of s: the supercube of its essential minterms. */
  ghost predicate Reduction(cs: Shape, s: seq<Cube>, self: int, p: set<nat>, r: set<nat>) {
    && r <= p
    && (NonVoid(cs, p) ==> forall i :: i in p && i in cs.fullset ==> (i in r <==> EssentialAt(cs, s, self, p, i)))
    && (!NonVoid(cs, p) ==> r == p)
  }

  lemma EssentialMissed(cs: Shape, s: seq<Cube>, self: int, p: set<nat>, m: seq<nat>)
    ensures Missed(cs, Meeting(cs, s, p, self), {} + (cs.fullset - p), m) <==> Essential(cs, s, self, p, m)
  {
    var t, f := Meeting(cs, s, p, self), {} + (cs.fullset - p);
    if cs.Minterm(m) {
      forall v | 0 <= v < cs.numVars ensures m[v] in cs.fullset {
        assert m[v] in cs.varMask[v];
      }
      if In(m, p) {
        forall k | 0 <= k < |s| && k != self && In(m, s[k].parts) ensures CoveredBy(m, t, f, All) {
          forall v | 0 <= v < cs.numVars ensures s[k].parts * p * cs.varMask[v] != {} {
            assert m[v] in s[k].parts * p * cs.varMask[v];
          }
          assert s[k] in t;
        }
        if CoveredBy(m, t, f, All) {
          var c :| c in t && In(m, c.parts + f);
          var k :| 0 <= k < |s| && k != self && s[k] == c;
          assert In(m, s[k].parts);
        }
      }
    }
  }

  lemma CofactorDomain(cs: Shape, s: seq<Cube>, self: int, p: set<nat>)
    requires (forall c :: c in s ==> c.parts <= cs.fullset) && NonVoid(cs, p)
    ensures Domain(cs, Meeting(cs, s, p, self), {} + (cs.fullset - p))
  {
    var t, f := Meeting(cs, s, p, self), {} + (cs.fullset - p);
    forall v | 0 <= v < cs.numVars ensures cs.varMask[v] - f != {} {
      var i :| i in p * cs.varMask[v];
      assert i in cs.varMask[v] - f;
    }
    forall c, v | c in t && 0 <= v < cs.numVars ensures (c.parts - f) * cs.varMask[v] != {} {
      var i :| i in c.parts * p * cs.varMask[v];
      assert i in (c.parts - f) * cs.varMask[v];
    }
  }

  /** reduce_cube -- self is the position of p in FD. */
  method ReduceCube(cs: Shape, FD: CubeList, self: nat, p: set<nat>) returns (cunder: set<nat>)
    requires FD.cof == {} && p <= cs.fullset && forall c :: c in FD.cubes ==> c.parts <= cs.fullset
    ensures Reduction(cs, FD.cubes, self, p, cunder)
  {
    if NonVoid(cs, p) {
      CofactorDomain(cs, FD.cubes, self, p);
      forall i | i in p && i in cs.fullset
        ensures MissedAt(cs, Meeting(cs, FD.cubes, p, self), {} + (cs.fullset - p), i) <==>
                EssentialAt(cs, FD.cubes, self, p, i)
      {
        ReductionPart(cs, FD.cubes, self, p, i);
      }
    } else {
      VoidMeetsNothing(cs, FD.cubes, self, p);
    }
    var T := CofactorOf(cs, FD, p, self);
    cunder := Sccc(cs, T);
    cunder := cunder * p;
  }

  lemma ReductionPart(cs: Shape, s: seq<Cube>, self: int, p: set<nat>, i: nat)
    requires i in cs.fullset
    ensures MissedAt(cs, Meeting(cs, s, p, self), {} + (cs.fullset - p), i) <==> EssentialAt(cs, s, self, p, i)
  {
    forall m ensures Missed(cs, Meeting(cs, s, p, self), {} + (cs.fullset - p), m) <==> Essential(cs, s, self, p, m) {
      EssentialMissed(cs, s, self, p, m);
    }
  }

  /** Nothing meets a void cube. */
  lemma {:induction false} VoidMeetsNothing(cs: Shape, s: seq<Cube>, self: int, p: set<nat>)
    requires !NonVoid(cs, p)
    ensures Meeting(cs, s, p, self) == []
  {
    if s != [] {
      var n := |s| - 1;
      VoidMeetsNothing(cs, s[..n], self, p);
      var v :| 0 <= v < cs.numVars && p * cs.varMask[v] == {};
      assert s[n].parts * p * cs.varMask[v] <= p * cs.varMask[v];
      assert !Distance0(cs, s[n].parts, p);
    }
  }

  /** The smallest cube: every cube that holds the essential minterms contains the reduction. */
  lemma ReductionSmallest(cs: Shape, s: seq<Cube>, self: int, p: set<nat>, r: set<nat>, q: set<nat>)
    requires Reduction(cs, s, self, p, r) && NonVoid(cs, p) && p <= cs.fullset
    requires forall m :: Essential(cs, s, self, p, m) ==> In(m, q)
    ensures r <= q
    ensures r == {} <==> cs.numVars == 0 || !exists m :: Essential(cs, s, self, p, m)
  {
    forall i | i in r ensures i in q {
      var m :| Essential(cs, s, self, p, m) && m[cs.partVar[i]] == i;
      assert In(m, q);
    }
    if cs.numVars == 0 {
      assert forall i :: i in cs.fullset ==> cs.partVar[i] < 0;
    } else if m :| Essential(cs, s, self, p, m) {
      assert m[0] in cs.varMask[0];
      assert EssentialAt(cs, s, self, p, m[0]);
    }
  }

  /** An essential minterm lies in the reduction. */
  lemma EssentialInside(cs: Shape, s: seq<Cube>, self: int, p: set<nat>, r: set<nat>, m: seq<nat>)
    requires Reduction(cs, s, self, p, r) && Essential(cs, s, self, p, m)
    ensures In(m, r)
  {
    forall v | 0 <= v < cs.numVars ensures p * cs.varMask[v] != {} {
      assert m[v] in p * cs.varMask[v];
    }
    forall v | 0 <= v < |m| ensures m[v] in r {
      assert m[v] in cs.varMask[v];
      assert EssentialAt(cs, s, self, p, m[v]);
    }
  }

  /** Putting the reduction in the place of the cube keeps the union. */
  lemma ReductionKeeps(cs: Shape, s: seq<Cube>, self: nat, c: Cube, m: seq<nat>)
    requires self < |s| && Reduction(cs, s, self, s[self].parts, c.parts) && cs.Minterm(m)
    ensures Covered(m, s) <==> Covered(m, s[self := c])
  {
    var t := s[self := c];
    if Covered(m, s) {
      var x :| x in s && In(m, x.parts);
      var k :| 0 <= k < |s| && s[k] == x;
      if j :| 0 <= j < |s| && j != self && In(m, s[j].parts) {
        assert t[j] in t;
      } else {
        assert k == self;
        EssentialInside(cs, s, self, s[self].parts, c.parts, m);
        assert t[self] in t;
      }
    }
    if Covered(m, t) {
      var x :| x in t && In(m, x.parts);
      var k :| 0 <= k < |t| && t[k] == x;
      assert s[k] in s && In(m, s[k].parts);
    }
  }

  /** A reduction of a nonvoid cube is nonvoid or empty. */
  lemma ReductionNonVoid(cs: Shape, s: seq<Cube>, self: int, p: set<nat>, r: set<nat>)
    requires Reduction(cs, s, self, p, r) && NonVoid(cs, p) && p <= cs.fullset && r != {}
    ensures NonVoid(cs, r)
  {
    var i :| i in r;
    var m :| Essential(cs, s, self, p, m) && m[cs.partVar[i]] == i;
    EssentialInside(cs, s, self, p, r, m);
    forall v | 0 <= v < cs.numVars ensures r * cs.varMask[v] != {} {
      assert m[v] in r * cs.varMask[v];
    }
  }

  /** Each cube of B is the reduction of the cube of A among the cubes reduced before it and those still to come. */
  ghost predicate ReducedInTurn(cs: Shape, A: seq<Cube>, B: seq<Cube>, D: seq<Cube>, n: nat)
    requires n <= |A| == |B|
  {
    forall k :: 0 <= k < n ==> Reduction(cs, B[..k] + A[k..] + D, k, A[k].parts, B[k].parts)
  }

  /** What one pass over A may do to the cubes 0..n-1. */
  ghost predicate PassedOver(cs: Shape, A: seq<Cube>, B: seq<Cube>, n: nat)
    requires n <= |A| == |B|
  {
    && (forall k :: n <= k < |A| ==> B[k] == A[k])
    && (forall k :: 0 <= k < n ==> B[k].parts <= A[k].parts)
    && (forall k :: 0 <= k < n ==> !B[k].active ==> B[k].parts == {} && A[k].parts != {})
    && (forall k :: 0 <= k < n && B[k].active && NonVoid(cs, A[k].parts) ==> NonVoid(cs, B[k].parts))
  }

  lemma StepCube(cs: Shape, A: seq<Cube>, B: seq<Cube>, D: seq<Cube>, k: nat, c: Cube)
    requires k < |A| == |B| && ReducedInTurn(cs, A, B, D, k) && PassedOver(cs, A, B, k)
    requires Reduction(cs, B + D, k, A[k].parts, c.parts) && A[k].parts <= cs.fullset
    requires !c.active <==> c.parts == {} && A[k].parts != {}
    ensures ReducedInTurn(cs, A, B[k := c], D, k + 1) && PassedOver(cs, A, B[k := c], k + 1)
  {
    var B' := B[k := c];
    forall j | 0 <= j < k + 1 ensures Reduction(cs, B'[..j] + A[j..] + D, j, A[j].parts, B'[j].parts) {
      if j < k {
        assert B'[..j] == B[..j];
      } else {
        assert B'[..k] + A[k..] == B;
      }
    }
    if NonVoid(cs, A[k].parts) && c.active {
      if c.parts != {} {
        ReductionNonVoid(cs, B + D, k, A[k].parts, c.parts);
      }
    }
  }

  ghost predicate SameMinterms(cs: Shape, A: seq<Cube>, B: seq<Cube>) {
    forall m :: cs.Minterm(m) ==> (Covered(m, A) <==> Covered(m, B))
  }

  lemma UnionStep(cs: Shape, s0: seq<Cube>, s: seq<Cube>, self: nat, c: Cube)
    requires SameMinterms(cs, s0, s) && self < |s| && Reduction(cs, s, self, s[self].parts, c.parts)
    ensures SameMinterms(cs, s0, s[self := c])
  {
    forall m | cs.Minterm(m) ensures Covered(m, s0) <==> Covered(m, s[self := c]) {
      ReductionKeeps(cs, s, self, c, m);
    }
  }

  /** Reduce cube k of the list. */
  method ReduceOne(cs: Shape, FD: CubeList, k: nat) returns (c: Cube)
    requires FD.cof == {} && Fits(cs, FD.cubes, {}) && k < |FD.cubes|
    ensures Reduction(cs, FD.cubes, k, FD.cubes[k].parts, c.parts)
    ensures !c.active <==> c.parts == {} && FD.cubes[k].parts != {}
  {
    var p := FD.cubes[k];
    var cunder := ReduceCube(cs, FD, k, p.parts);
    if cunder == p.parts {
      c := p.(active := true, prime := true);
    } else {
      c := p.(parts := cunder, prime := false, active := cunder != {});
    }
  }

  /** The loop of reduce; FD points at the cubes of F, so that it changes with them. */
  method ReduceAll(cs: Shape, F: Cover, D: seq<Cube>)
    requires Fits(cs, F.cubes + D, {})
    modifies F
    ensures F.activeCount == old(F.activeCount) && |F.cubes| == |old(F.cubes)|
    ensures ReducedInTurn(cs, old(F.cubes), F.cubes, D, |F.cubes|) && PassedOver(cs, old(F.cubes), F.cubes, |F.cubes|)
    ensures SameMinterms(cs, old(F.cubes) + D, F.cubes + D)
  {
    ghost var A := F.cubes;
    var FD := new CubeList({}, F.cubes + D);
    for k := 0 to |F.cubes|
      invariant |F.cubes| == |A| && F.activeCount == old(F.activeCount)
      invariant FD.cof == {} && FD.cubes == F.cubes + D
      invariant Fits(cs, FD.cubes, {})
      invariant ReducedInTurn(cs, A, F.cubes, D, k) && PassedOver(cs, A, F.cubes, k)
      invariant SameMinterms(cs, A + D, FD.cubes)
    {
      ghost var B, s := F.cubes, FD.cubes;
      assert s[k] == B[k] && s[k] in s;
      var c := ReduceOne(cs, FD, k);
      StepCube(cs, A, B, D, k, c);
      UnionStep(cs, A + D, s, k, c);
      FitsStep(cs, s, k, c);
      F.cubes := F.cubes[k := c];
      FD.cubes := FD.cubes[k := c];
      assert s[k := c] == B[k := c] + D;
    }
  }

  lemma FitsStep(cs: Shape, s: seq<Cube>, k: nat, c: Cube)
    requires Fits(cs, s, {}) && k < |s| && c.parts <= s[k].parts
    ensures Fits(cs, s[k := c], {})
  {
    assert s[k] in s;
  }

  /** A deleted cube held no minterm. */
  lemma DeletedEmpty(cs: Shape, A: seq<Cube>, B: seq<Cube>, m: seq<nat>)
    requires |A| == |B| && PassedOver(cs, A, B, |A|) && Fits(cs, A, {}) && cs.Minterm(m)
    ensures Covered(m, B) <==> Covered(m, ActiveOnly(B))
  {
    forall k | 0 <= k < |B| && !B[k].active ensures !In(m, B[k].parts) {
      assert A[k] in A;
      var i :| i in A[k].parts;
      assert cs.partVar[i] < cs.numVars;
      assert m[0] !in B[k].parts;
    }
    if Covered(m, B) {
      var c :| c in B && In(m, c.parts);
      var k :| 0 <= k < |B| && B[k] == c;
      assert c in ActiveOnly(B);
    }
  }

  /** reduce -- toggle chooses between the two orders; A is F in that order, B what becomes of its cubes. */
  method Reduce(cs: Shape, F: Cover, D: seq<Cube>, toggle: bool) returns (ghost A: seq<Cube>, ghost B: seq<Cube>)
    requires Fits(cs, F.cubes + D, {})
    modifies F
    ensures SameUnion(cs, old(F.cubes), F.cubes, D)
    ensures |A| == |B| && multiset(A) == multiset(old(F.cubes))
    ensures ReducedInTurn(cs, A, B, D, |A|) && F.cubes == ActiveOnly(B)
    ensures Dominates(old(F.cubes), F.cubes) && |F.cubes| <= |old(F.cubes)|
    ensures AllNonVoid(cs, old(F.cubes), {}) ==> AllNonVoid(cs, F.cubes, {})
  {
    ghost var F0 := F.cubes;
    ghost var key;
    if toggle {
      key := SortReduce(cs, F);
    } else {
      ghost var count := MiniSort(cs, F, true);
    }
    A := F.cubes;
    SameMembers(A, F0);
    forall c | c in A + D ensures c.parts <= cs.fullset {
      assert c in F0 + D;
    }
    ReduceAll(cs, F, D);
    B := F.cubes;
    SfInactive(F);
    forall m | cs.Minterm(m) ensures Covered(m, F0) || Covered(m, D) <==> Covered(m, F.cubes) || Covered(m, D) {
      CoveredAppend(m, A, D);
      CoveredAppend(m, B, D);
      assert Fits(cs, A, {}) by {
        forall c | c in A ensures c.parts <= cs.fullset {
          assert c in A + D;
        }
      }
      DeletedEmpty(cs, A, B, m);
      assert Covered(m, F0) <==> Covered(m, A);
    }
    PassShrinks(cs, F0, A, B);
  }

  lemma PassShrinks(cs: Shape, F0: seq<Cube>, A: seq<Cube>, B: seq<Cube>)
    requires |A| == |B| && PassedOver(cs, A, B, |A|) && forall c :: c in A <==> c in F0
    ensures Dominates(F0, ActiveOnly(B))
    ensures AllNonVoid(cs, F0, {}) ==> AllNonVoid(cs, ActiveOnly(B), {})
  {
    forall c | c in ActiveOnly(B)
      ensures Within(c.parts, F0) && (AllNonVoid(cs, F0, {}) ==> NonVoid(cs, c.parts + {}))
    {
      var k :| 0 <= k < |B| && B[k] == c;
      assert A[k] in F0 && c.parts <= A[k].parts;
      assert c.parts + {} == c.parts && A[k].parts + {} == A[k].parts;
    }
  }
}
