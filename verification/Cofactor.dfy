/** cofactor.c: cubelists, cofactors, column counts and the choice of a splitting variable. */
module Cofactor {
  import opened Cubes

  /** A cubelist: T[0] is `cof`, the cubes follow.  Every cube p stands for p | cof. */
  class CubeList {
    var cof: set<nat>
    var cubes: seq<Cube>

    constructor (cof: set<nat>, cubes: seq<Cube>)
      ensures this.cof == cof && this.cubes == cubes
    {
      this.cof, this.cubes := cof, cubes;
    }
  }

  // ---------- cofactors ----------

  /** The cubes of s, other than the one at position self, that meet c in every variable. */
  ghost function Meeting(cs: Shape, s: seq<Cube>, c: set<nat>, self: int): (r: seq<Cube>)
    ensures |r| <= |s|
    ensures forall x :: x in r ==> Distance0(cs, x.parts, c) && exists k :: 0 <= k < |s| && k != self && s[k] == x
    ensures forall k :: 0 <= k < |s| && k != self && Distance0(cs, s[k].parts, c) ==> s[k] in r
  {
    if s == [] then [] else
      var n := |s| - 1;
      Meeting(cs, s[..n], c, self) +
      (if n != self && Distance0(cs, s[n].parts, c) then [s[n]] else [])
  }

  /** cofactor -- self is the position of the pointer c in T, or -1 when c is not one of T's cubes. */
  method CofactorOf(cs: Shape, T: CubeList, c: set<nat>, self: int) returns (Tc: CubeList)
    ensures fresh(Tc)
    ensures Tc.cof == T.cof + (cs.fullset - c)
    ensures Tc.cubes == Meeting(cs, T.cubes, c, self)
  {
    var kept: seq<Cube> := [];
    for k := 0 to |T.cubes|
      invariant kept == Meeting(cs, T.cubes[..k], c, self)
    {
      assert T.cubes[..k + 1][..k] == T.cubes[..k];
      var p := T.cubes[k];
      if k != self && Distance0(cs, p.parts, c) {
        kept := kept + [p];
      }
    }
    assert T.cubes[..|T.cubes|] == T.cubes;
    Tc := new CubeList(T.cof + (cs.fullset - c), kept);
  }

  /** The cubes of s that meet c in variable v. */
  ghost function MeetingIn(cs: Shape, s: seq<Cube>, c: set<nat>, v: nat): (r: seq<Cube>)
    requires v < cs.numVars
    ensures |r| <= |s|
    ensures forall x :: x in r <==> x in s && x.parts * (cs.varMask[v] * c) != {}
  {
    if s == [] then [] else
      var n := |s| - 1;
      MeetingIn(cs, s[..n], c, v) + (if s[n].parts * (cs.varMask[v] * c) != {} then [s[n]] else [])
  }

  /** scofactor -- cofactor against a cube that is active in the single variable v. */
  method Scofactor(cs: Shape, T: CubeList, c: set<nat>, v: nat) returns (Tc: CubeList)
    requires v < cs.numVars
    ensures fresh(Tc)
    ensures Tc.cof == T.cof + (cs.fullset - c)
    ensures Tc.cubes == MeetingIn(cs, T.cubes, c, v)
  {
    var mask := cs.varMask[v] * c;
    var kept: seq<Cube> := [];
    for k := 0 to |T.cubes|
      invariant kept == MeetingIn(cs, T.cubes[..k], c, v)
    {
      assert T.cubes[..k + 1][..k] == T.cubes[..k];
      var p := T.cubes[k];
      if p.parts * mask != {} {
        kept := kept + [p];
      }
    }
    assert T.cubes[..|T.cubes|] == T.cubes;
    Tc := new CubeList(T.cof + (cs.fullset - c), kept);
  }

  // ---------- column counts ----------

  /** The number of cubes with a zero in column i. */
  ghost function Zeros(i: nat, s: seq<Cube>, cof: set<nat>): nat {
    if s == [] then 0 else
      Zeros(i, s[..|s| - 1], cof) + if i in s[|s| - 1].parts + cof then 0 else 1
  }

  lemma {:induction false} ZerosPositive(i: nat, s: seq<Cube>, cof: set<nat>)
    ensures Zeros(i, s, cof) > 0 <==> exists c :: c in s && i !in c.parts + cof
    ensures Zeros(i, s, cof) <= |s|
  {
    if s != [] {
      var n := |s| - 1;
      ZerosPositive(i, s[..n], cof);
      assert s == s[..n] + [s[n]];
    }
  }

  /** The sum of z over the parts lo..hi-1. */
  function Sum(z: seq<nat>, lo: nat, hi: nat): nat
    requires lo <= hi <= |z|
  {
    if lo == hi then 0 else Sum(z, lo, hi - 1) + z[hi - 1]
  }

  /** The parts of variable v, below bound, whose column holds a zero. */
  ghost function ActiveBelow(cs: Shape, z: seq<nat>, v: nat, bound: int): set<nat>
    requires |z| == cs.size && v < cs.numVars
  {
    set i | i in cs.varMask[v] && i < bound && z[i] > 0
  }

  ghost function ActiveParts(cs: Shape, z: seq<nat>, v: nat): set<nat>
    requires |z| == cs.size && v < cs.numVars
  {
    set i | i in cs.varMask[v] && z[i] > 0
  }

  /** The variables below bound with at least (exactly) one active part. */
  ghost function ActiveVars(active: seq<nat>, bound: nat): set<nat>
    requires bound <= |active|
  {
    set v | 0 <= v < bound && active[v] > 0
  }

  ghost function UnateVars(active: seq<nat>, bound: nat): set<nat>
    requires bound <= |active|
  {
    set v | 0 <= v < bound && active[v] == 1
  }

  /** The `cdata` record. */
  datatype CData = CData(partZeros: seq<nat>, varZeros: seq<nat>, partsActive: seq<nat>, isUnate: seq<bool>,
                         varsActive: nat, varsUnate: nat, best: int)

  const NO_COUNTS := CData([], [], [], [], 0, 0, 0)

  ghost predicate CountsOf(cs: Shape, s: seq<Cube>, cof: set<nat>, cd: CData) {
    && |cd.partZeros| == cs.size
    && |cd.varZeros| == |cd.partsActive| == |cd.isUnate| == cs.numVars
    && (forall i :: 0 <= i < cs.size ==> cd.partZeros[i] == Zeros(i, s, cof))
    && (forall v :: 0 <= v < cs.numVars ==>
          && cd.varZeros[v] == Sum(cd.partZeros, cs.firstPart[v], cs.lastPart[v] + 1)
          && cd.partsActive[v] == |ActiveParts(cs, cd.partZeros, v)|
          && cd.isUnate[v] == (cd.partsActive[v] == 1))
    && cd.varsActive == |ActiveVars(cd.partsActive, cs.numVars)|
    && cd.varsUnate == |UnateVars(cd.partsActive, cs.numVars)|
    && (cs.numVars > 0 ==>
          && 0 <= cd.best < cs.numVars
          && forall v :: 0 <= v < cs.numVars ==> cd.partsActive[v] <= cd.partsActive[cd.best])
  }

  /** How unbalanced variable v is: for a binary variable the larger column count, for others the active parts. */
  ghost function Imbalance(cs: Shape, z: seq<nat>, v: nat): nat
    requires |z| == cs.size && v < cs.numVars
  {
    if v < cs.numBinaryVars then
      var f := cs.firstPart[v];
      if z[f] > z[f + 1] then z[f] else z[f + 1]
    else |ActiveParts(cs, z, v)|
  }

  /** Variable u is a better choice than v: more active parts, then more zeros, then better balanced. */
  ghost predicate Preferred(cs: Shape, z: seq<nat>, zeros: seq<nat>, active: seq<nat>, u: nat, v: nat)
    requires |z| == cs.size && u < cs.numVars && v < cs.numVars
    requires u < |zeros| == |active| && v < |active|
  {
    || active[u] > active[v]
    || (active[u] == active[v] && zeros[u] > zeros[v])
    || (active[u] == active[v] && zeros[u] == zeros[v] && Imbalance(cs, z, u) < Imbalance(cs, z, v))
  }

  /** No variable below n is better than best, and none before it is as good. */
  ghost predicate FirstPreferred(cs: Shape, z: seq<nat>, zeros: seq<nat>, active: seq<nat>, n: nat, best: int)
    requires |z| == cs.size && n <= |zeros| == |active| <= cs.numVars && 0 <= best < n
  {
    forall v :: 0 <= v < n ==>
      !Preferred(cs, z, zeros, active, v, best) && (v < best ==> Preferred(cs, z, zeros, active, best, v))
  }

  /** The variable chosen for splitting. */
  ghost predicate BestChosen(cs: Shape, cd: CData) {
    && |cd.partZeros| == cs.size && |cd.varZeros| == |cd.partsActive| == cs.numVars
    && (cs.numVars > 0 ==>
          && 0 <= cd.best < cs.numVars
          && FirstPreferred(cs, cd.partZeros, cd.varZeros, cd.partsActive, cs.numVars, cd.best))
  }

  method CountZeros(cs: Shape, T: CubeList) returns (count: seq<nat>)
    ensures |count| == cs.size
    ensures forall i :: 0 <= i < cs.size ==> count[i] == Zeros(i, T.cubes, T.cof)
  {
    count := seq(cs.size, _ => 0);
    for k := 0 to |T.cubes|
      invariant |count| == cs.size
      invariant forall i :: 0 <= i < cs.size ==> count[i] == Zeros(i, T.cubes[..k], T.cof)
    {
      assert T.cubes[..k + 1][..k] == T.cubes[..k];
      var p := T.cubes[k];
      for i := 0 to cs.size
        invariant |count| == cs.size
        invariant forall j :: 0 <= j < i ==> count[j] == Zeros(j, T.cubes[..k + 1], T.cof)
        invariant forall j :: i <= j < cs.size ==> count[j] == Zeros(j, T.cubes[..k], T.cof)
      {
        if i !in p.parts + T.cof {
          count := count[i := count[i] + 1];
        }
      }
    }
    assert T.cubes[..|T.cubes|] == T.cubes;
  }

  lemma BinaryCounts(cs: Shape, z: seq<nat>, v: nat)
    requires |z| == cs.size && v < cs.numBinaryVars
    ensures var f := cs.firstPart[v];
            && f + 1 < cs.size
            && |ActiveParts(cs, z, v)| == (if z[f] > 0 then 1 else 0) + (if z[f + 1] > 0 then 1 else 0)
            && Sum(z, f, cs.lastPart[v] + 1) == z[f] + z[f + 1]
  {
    var f := cs.firstPart[v];
    assert cs.lastPart[v] == f + 1;
    assert f in cs.varMask[v] && f + 1 in cs.varMask[v];
    assert ActiveParts(cs, z, v) == (if z[f] > 0 then {f} else {}) + (if z[f + 1] > 0 then {f + 1} else {});
    assert Sum(z, f, f) == 0 && Sum(z, f, f + 1) == z[f];
    assert Sum(z, f, f + 2) == Sum(z, f, f + 1) + z[f + 1];
  }

  /** The zeros and the active parts of one variable (the inner loop over its parts). */
  method CountVariable(cs: Shape, count: seq<nat>, v: nat) returns (zeros: nat, active: nat, maxactive: nat)
    requires |count| == cs.size && v < cs.numVars
    ensures zeros == Sum(count, cs.firstPart[v], cs.lastPart[v] + 1)
    ensures active == |ActiveParts(cs, count, v)|
    ensures maxactive == Imbalance(cs, count, v)
  {
    if v < cs.numBinaryVars {
      BinaryCounts(cs, count, v);
      var i, lastbit := count[cs.firstPart[v]], count[cs.firstPart[v] + 1];
      active := (if i > 0 then 1 else 0) + (if lastbit > 0 then 1 else 0);
      zeros := i + lastbit;
      maxactive := if i > lastbit then i else lastbit;
    } else {
      zeros, active, maxactive := 0, 0, 0;
      var i := cs.firstPart[v];
      assert ActiveBelow(cs, count, v, i) == {};
      while i <= cs.lastPart[v]
        invariant cs.firstPart[v] <= i <= cs.lastPart[v] + 1
        invariant zeros == Sum(count, cs.firstPart[v], i)
        invariant active == |ActiveBelow(cs, count, v, i)|
        invariant maxactive == active
      {
        zeros := zeros + count[i];
        assert i in cs.varMask[v];
        assert ActiveBelow(cs, count, v, i + 1) ==
               ActiveBelow(cs, count, v, i) + (if count[i] > 0 then {i} else {});
        active := active + (if count[i] > 0 then 1 else 0);
        if active > maxactive {
          maxactive := active;
        }
        i := i + 1;
      }
      assert ActiveBelow(cs, count, v, i) == ActiveParts(cs, count, v);
    }
  }

  /** The counts of the variables u < |active|. */
  ghost predicate VariableCounts(cs: Shape, count: seq<nat>, zeros: seq<nat>, active: seq<nat>, unate: seq<bool>)
    requires |count| == cs.size
  {
    && |zeros| == |active| == |unate| <= cs.numVars
    && forall u :: 0 <= u < |active| ==>
         && zeros[u] == Sum(count, cs.firstPart[u], cs.lastPart[u] + 1)
         && active[u] == |ActiveParts(cs, count, u)|
         && unate[u] == (active[u] == 1)
  }

  lemma OneMoreVariable(active: seq<nat>, a: nat)
    ensures |ActiveVars(active + [a], |active| + 1)| == |ActiveVars(active, |active|)| + if a > 0 then 1 else 0
    ensures |UnateVars(active + [a], |active| + 1)| == |UnateVars(active, |active|)| + if a == 1 then 1 else 0
  {
    var n := |active|;
    assert ActiveVars(active + [a], n + 1) == ActiveVars(active, n) + (if a > 0 then {n} else {});
    assert UnateVars(active + [a], n + 1) == UnateVars(active, n) + (if a == 1 then {n} else {});
  }

  /** Without an active part there is no zero. */
  lemma NothingActive(cs: Shape, z: seq<nat>, v: nat)
    requires |z| == cs.size && v < cs.numVars
    ensures |ActiveParts(cs, z, v)| == 0 ==> Imbalance(cs, z, v) == 0
  {
    if v < cs.numBinaryVars {
      BinaryCounts(cs, z, v);
    }
  }

  /** One more variable: it replaces the best one only if it is better. */
  lemma NextVariable(cs: Shape, z: seq<nat>, zeros: seq<nat>, active: seq<nat>, zero: nat, act: nat, best: int,
                     best': int)
    requires |z| == cs.size && |zeros| == |active| < cs.numVars && -1 <= best < |active| &&
      (best == -1 ==> active == [])
    requires best >= 0 ==> FirstPreferred(cs, z, zeros, active, |active|, best)
    requires var v := |active|;
             best' == if best == -1 || Preferred(cs, z, zeros + [zero], active + [act], v, best) then v else best
    ensures best' >= 0 && FirstPreferred(cs, z, zeros + [zero], active + [act], |active| + 1, best')
  {
    var v, zeros', active' := |active|, zeros + [zero], active + [act];
    forall u | 0 <= u < v + 1
      ensures !Preferred(cs, z, zeros', active', u, best') &&
        (u < best' ==> Preferred(cs, z, zeros', active', best', u))
    {
      if u < v {
        assert zeros'[u] == zeros[u] && active'[u] == active[u];
        assert !Preferred(cs, z, zeros, active, u, best);
      }
    }
  }

  /** The variable chosen so far, with its counts. */
  ghost predicate Leading(cs: Shape, z: seq<nat>, zeros: seq<nat>, active: seq<nat>,
                          best: int, mostactive: nat, mostzero: nat, mostbalanced: nat)
  {
    && |z| == cs.size && |zeros| == |active| <= cs.numVars && -1 <= best < |active|
    && (best == -1 ==> active == [] && mostactive == 0 && mostzero == 0 && mostbalanced == 32000)
    && (best >= 0 ==>
          && mostactive == active[best] && mostzero == zeros[best]
          && mostbalanced == Imbalance(cs, z, best)
          && FirstPreferred(cs, z, zeros, active, |active|, best))
  }

  lemma LeadingNone(cs: Shape, z: seq<nat>)
    requires |z| == cs.size
    ensures Leading(cs, z, [], [], -1, 0, 0, 32000)
  {
  }

  lemma LeadingNext(cs: Shape, z: seq<nat>, zeros: seq<nat>, active: seq<nat>,
                    best: int, mostactive: nat, mostzero: nat, mostbalanced: nat,
                    zero: nat, act: nat, balance: nat)
    requires Leading(cs, z, zeros, active, best, mostactive, mostzero, mostbalanced)
    requires |active| < cs.numVars && balance == Imbalance(cs, z, |active|)
    requires act == 0 ==> balance == 0
    ensures var better := Better(mostactive, mostzero, mostbalanced, act, zero, balance);
            Leading(cs, z, zeros + [zero], active + [act], if better then |active| else best,
                    if better then act else mostactive, if better then zero else mostzero,
                    if better then balance else mostbalanced)
  {
    var better := Better(mostactive, mostzero, mostbalanced, act, zero, balance);
    NextVariable(cs, z, zeros, active, zero, act, best, if better then |active| else best);
  }

  ghost predicate Better(mostactive: nat, mostzero: nat, mostbalanced: nat, act: nat, zero: nat, balance: nat) {
    act > mostactive || (act == mostactive && (zero > mostzero || (zero == mostzero && balance < mostbalanced)))
  }

  lemma LeadingBest(cs: Shape, z: seq<nat>, zeros: seq<nat>, active: seq<nat>,
                    best: int, mostactive: nat, mostzero: nat, mostbalanced: nat)
    requires Leading(cs, z, zeros, active, best, mostactive, mostzero, mostbalanced) && |active| == cs.numVars
    ensures cs.numVars > 0 ==>
              && 0 <= best < cs.numVars && FirstPreferred(cs, z, zeros, active, cs.numVars, best)
              && forall v :: 0 <= v < cs.numVars ==> active[v] <= active[best]
  {
    if cs.numVars > 0 {
      forall v | 0 <= v < cs.numVars ensures active[v] <= active[best] {
        assert !Preferred(cs, z, zeros, active, v, best);
      }
    }
  }

  /** massive_count -- fill in the cdata record for a cubelist. */
  method MassiveCount(cs: Shape, T: CubeList) returns (cd: CData)
    ensures CountsOf(cs, T.cubes, T.cof, cd) && BestChosen(cs, cd)
  {
    hide Leading, FirstPreferred, Imbalance, Zeros, Sum, ActiveParts;
    var count := CountZeros(cs, T);
    var varZeros: seq<nat>, partsActive: seq<nat>, isUnate: seq<bool> := [], [], [];
    var best: int, mostactive: nat, mostzero: nat, mostbalanced: nat := -1, 0, 0, 32000;
    var varsActive: nat, varsUnate: nat := 0, 0;
    LeadingNone(cs, count);
    for v := 0 to cs.numVars
      invariant |partsActive| == v
      invariant VariableCounts(cs, count, varZeros, partsActive, isUnate)
      invariant varsActive == |ActiveVars(partsActive, v)|
      invariant varsUnate == |UnateVars(partsActive, v)|
      invariant Leading(cs, count, varZeros, partsActive, best, mostactive, mostzero, mostbalanced)
    {
      var zeros, active, maxactive := CountVariable(cs, count, v);
      NothingActive(cs, count, v);
      LeadingNext(cs, count, varZeros, partsActive, best, mostactive, mostzero, mostbalanced,
                  zeros, active, maxactive);
      if active > mostactive {
        best, mostactive, mostzero, mostbalanced := v, active, zeros, maxactive;
      } else if active == mostactive {
        if zeros > mostzero {
          best, mostzero, mostbalanced := v, zeros, maxactive;
        } else if zeros == mostzero {
          if maxactive < mostbalanced {
            best, mostbalanced := v, maxactive;
          }
        }
      }
      OneMoreVariable(partsActive, active);
      varZeros, partsActive, isUnate := varZeros + [zeros], partsActive + [active], isUnate + [active == 1];
      varsActive := varsActive + (if active > 0 then 1 else 0);
      varsUnate := varsUnate + (if active == 1 then 1 else 0);
    }
    LeadingBest(cs, count, varZeros, partsActive, best, mostactive, mostzero, mostbalanced);
    cd := CData(count, varZeros, partsActive, isUnate, varsActive, varsUnate, best);
  }

  // ---------- splitting ----------

  /** cl and cr are full outside variable v, and share out the parts of v that are not in cof. */
  ghost predicate SplitCubes(cs: Shape, cof: set<nat>, v: nat, cl: set<nat>, cr: set<nat>)
    requires v < cs.numVars
  {
    && cl <= cs.fullset && cr <= cs.fullset
    && cs.fullset - cs.varMask[v] <= cl && cs.fullset - cs.varMask[v] <= cr
    && (forall i :: i in cs.varMask[v] ==> !(i in cl && i in cr))
    && (forall i :: i in cs.varMask[v] ==> (i in cl || i in cr <==> i !in cof))
  }

  /** base with the parts lo..i-1 that are not in cof inserted. */
  ghost function Fill(cof: set<nat>, base: set<nat>, lo: nat, i: nat): set<nat>
    requires lo <= i
  {
    if i == lo then base else Fill(cof, base, lo, i - 1) + if i - 1 in cof then {} else {i - 1}
  }

  /** How many of the parts lo..i-1 are not in cof. */
  ghost function FreeCount(cof: set<nat>, lo: nat, i: nat): nat
    requires lo <= i
  {
    if i == lo then 0 else FreeCount(cof, lo, i - 1) + if i - 1 in cof then 0 else 1
  }

  lemma {:induction false} FillHolds(cof: set<nat>, base: set<nat>, lo: nat, i: nat, x: nat)
    requires lo <= i
    ensures x in Fill(cof, base, lo, i) <==> x in base || (lo <= x < i && x !in cof)
  {
    if i != lo {
      FillHolds(cof, base, lo, i - 1, x);
    }
  }

  lemma {:induction false} FreeCountSize(cof: set<nat>, lo: nat, i: nat, s: set<nat>)
    requires lo <= i && forall x :: x in s <==> lo <= x < i && x !in cof
    ensures FreeCount(cof, lo, i) == |s|
  {
    if i != lo {
      FreeCountSize(cof, lo, i - 1, s - {i - 1});
      assert i - 1 in s ==> s == s - {i - 1} + {i - 1};
      assert i - 1 !in s ==> s == s - {i - 1};
    } else {
      assert s == {};
    }
  }

  lemma SplitAt(cs: Shape, cof: set<nat>, v: nat, cut: nat, cl: set<nat>, cr: set<nat>)
    requires v < cs.numVars && cs.firstPart[v] <= cut <= cs.lastPart[v] + 1
    requires cl == Fill(cof, cs.fullset - cs.varMask[v], cs.firstPart[v], cut)
    requires cr == Fill(cof, cs.fullset - cs.varMask[v], cut, cs.lastPart[v] + 1)
    ensures SplitCubes(cs, cof, v, cl, cr)
    ensures |cs.varMask[v] * cl| == FreeCount(cof, cs.firstPart[v], cut)
  {
    var first, end, outside := cs.firstPart[v], cs.lastPart[v] + 1, cs.fullset - cs.varMask[v];
    forall x: nat
      ensures x in cl <==> x in outside || (first <= x < cut && x !in cof)
      ensures x in cr <==> x in outside || (cut <= x < end && x !in cof)
    {
      FillHolds(cof, outside, first, cut, x);
      FillHolds(cof, outside, cut, end, x);
    }
    forall x | x in cl || x in cr ensures x in cs.fullset {
      assert x in outside || x in cs.varMask[v];
    }
    forall x ensures x in cs.varMask[v] * cl <==> first <= x < cut && x !in cof {
      assert x in cs.varMask[v] || x !in cs.varMask[v];
    }
    FreeCountSize(cof, first, cut, cs.varMask[v] * cl);
  }

  /** The number of parts of variable v not in cof. */
  method CountFree(cs: Shape, cof: set<nat>, v: nat) returns (n: nat)
    requires v < cs.numVars
    ensures n == FreeCount(cof, cs.firstPart[v], cs.lastPart[v] + 1)
  {
    n := 0;
    for i := cs.firstPart[v] to cs.lastPart[v] + 1
      invariant n == FreeCount(cof, cs.firstPart[v], i)
    {
      if i !in cof {
        n := n + 1;
      }
    }
  }

  /** The loop that inserts half of the free parts lo..hi-1, from the first one on. */
  method TakeHalf(cof: set<nat>, outside: set<nat>, lo: nat, hi: nat, half: nat) returns (cl: set<nat>, i: nat)
    requires lo <= hi && half <= FreeCount(cof, lo, hi)
    ensures lo <= i <= hi && FreeCount(cof, lo, i) == half && cl == Fill(cof, outside, lo, i)
  {
    cl, i := outside, lo;
    var halfbit: nat := half;
    while halfbit > 0
      invariant lo <= i <= hi
      invariant halfbit + FreeCount(cof, lo, i) == half
      invariant cl == Fill(cof, outside, lo, i)
      decreases hi - i
    {
      if i !in cof {
        halfbit := halfbit - 1;
        cl := cl + {i};
      }
      i := i + 1;
    }
  }

  /** The loop that inserts the free parts that are left. */
  method TakeRest(cof: set<nat>, outside: set<nat>, cut: nat, hi: nat) returns (cr: set<nat>)
    requires cut <= hi
    ensures cr == Fill(cof, outside, cut, hi)
  {
    cr := outside;
    for i := cut to hi
      invariant cr == Fill(cof, outside, cut, i)
    {
      if i !in cof {
        cr := cr + {i};
      }
    }
  }

  /** binate_split_select -- the first half of the free parts of v goes left, the rest goes right. */
  method BinateSplitSelect(cs: Shape, cof: set<nat>, v: nat) returns (cl: set<nat>, cr: set<nat>)
    requires v < cs.numVars
    ensures SplitCubes(cs, cof, v, cl, cr)
    ensures |cs.varMask[v] * cl| == |cs.varMask[v] - cof| / 2
  {
    var first, end, outside := cs.firstPart[v], cs.lastPart[v] + 1, cs.fullset - cs.varMask[v];
    var halfbit := CountFree(cs, cof, v);
    var i;
    cl, i := TakeHalf(cof, outside, first, end, halfbit / 2);
    cr := TakeRest(cof, outside, i, end);
    SplitAt(cs, cof, v, i, cl, cr);
    FreeCountSize(cof, first, end, cs.varMask[v] - cof);
  }
}
