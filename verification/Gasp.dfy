/** gasp.c: the last_gasp heuristic. */
module Gasp {
  import opened Cubes
  import opened Cofactor
  import opened Containment
  import opened ExpandPass
  import opened Primes
  import opened Redundancy
  import opened ReducePass
  import opened SetOps
  import opened Sparse

  // ---------- reduce_gasp ----------

  /** Cube k of F has a minterm of its own. */
  ghost predicate HasEssential(cs: Shape, F: seq<Cube>, D: seq<Cube>, k: nat)
    requires k < |F|
  {
    exists m :: Essential(cs, F + D, k, F[k].parts, m)
  }

  /** G holds the maximal reductions of the first n cubes of F, all taken in F and D. */
  ghost predicate GaspReduced(cs: Shape, F: seq<Cube>, D: seq<Cube>, G: seq<Cube>, n: nat)
    requires n <= |F|
  {
    |G| == n && forall k :: 0 <= k < n ==> Reduction(cs, F + D, k, F[k].parts, G[k].parts) && G[k].parts != {}
  }

  /** The maximal reduction of cube k, which is empty exactly when the cube has no minterm of its own. */
  method ReduceFor(cs: Shape, FD: CubeList, F: seq<Cube>, D: seq<Cube>, k: nat) returns (cunder: set<nat>)
    requires FD.cof == {} && FD.cubes == F + D && k < |F|
    requires Fits(cs, F + D, {}) && AllNonVoid(cs, F, {}) && cs.numVars > 0
    ensures Reduction(cs, F + D, k, F[k].parts, cunder)
    ensures cunder == {} <==> !HasEssential(cs, F, D, k)
  {
    assert (F + D)[k] == F[k] && F[k] in F + D && F[k] in F;
    assert F[k].parts + {} == F[k].parts;
    cunder := ReduceCube(cs, FD, k, F[k].parts);
    ReductionEmpty(cs, F + D, k, F[k].parts, cunder);
  }

  /** reduce_gasp -- ok is false where the source gives up: some cube reduces to nothing. */
  method ReduceGasp(cs: Shape, F: seq<Cube>, D: seq<Cube>) returns (ok: bool, G: seq<Cube>)
    requires Fits(cs, F + D, {}) && AllNonVoid(cs, F, {}) && cs.numVars > 0
    ensures ok ==> GaspReduced(cs, F, D, G, |F|)
    ensures ok <==> forall k :: 0 <= k < |F| ==> HasEssential(cs, F, D, k)
  {
    var FD := new CubeList({}, F + D);
    G := [];
    for k := 0 to |F|
      invariant FD.cof == {} && FD.cubes == F + D
      invariant GaspReduced(cs, F, D, G, k)
    {
      var cunder := ReduceFor(cs, FD, F, D, k);
      GaspReducedStep(cs, F, D, G, k, if cunder == F[k].parts then F[k] else MkCube(cunder));
      if cunder == {} {
        return false, G;
      } else if cunder == F[k].parts {
        G := G + [F[k]];
      } else {
        G := G + [MkCube(cunder)];
      }
    }
    ok := true;
    ReducedHasEssentials(cs, F, D, G);
  }

  lemma GaspReducedStep(cs: Shape, F: seq<Cube>, D: seq<Cube>, G: seq<Cube>, k: nat, c: Cube)
    requires k < |F| && GaspReduced(cs, F, D, G, k) && Reduction(cs, F + D, k, F[k].parts, c.parts)
    ensures c.parts != {} ==> GaspReduced(cs, F, D, G + [c], k + 1)
  {
  }

  lemma ReducedHasEssentials(cs: Shape, F: seq<Cube>, D: seq<Cube>, G: seq<Cube>)
    requires Fits(cs, F + D, {}) && AllNonVoid(cs, F, {}) && cs.numVars > 0 && GaspReduced(cs, F, D, G, |F|)
    ensures forall k :: 0 <= k < |F| ==> HasEssential(cs, F, D, k)
  {
    forall k | 0 <= k < |F| ensures HasEssential(cs, F, D, k) {
      assert (F + D)[k] == F[k] && F[k] in F + D && F[k] in F;
      assert F[k].parts + {} == F[k].parts;
      ReductionEmpty(cs, F + D, k, F[k].parts, G[k].parts);
    }
  }

  lemma ReductionEmpty(cs: Shape, s: seq<Cube>, self: int, p: set<nat>, r: set<nat>)
    requires Reduction(cs, s, self, p, r) && NonVoid(cs, p) && p <= cs.fullset && cs.numVars > 0
    ensures r == {} <==> !exists m :: Essential(cs, s, self, p, m)
  {
    ReductionSmallest(cs, s, self, p, r, p);
  }

  // ---------- expand1_gasp ----------

  /** The setting of expand1_gasp: Forig misses the OFF-set, and F holds its reductions. */
  ghost predicate GaspSetting(cs: Shape, bb: seq<Cube>, F: seq<Cube>, D: seq<Cube>, Forig: seq<Cube>) {
    && OffSet(cs, bb) && OnSet(cs, bb, Forig) && Fits(cs, Forig + D, {})
    && GaspReduced(cs, Forig, D, F, |Forig|)
  }

  lemma ReducedOnCube(cs: Shape, bb: seq<Cube>, F: seq<Cube>, D: seq<Cube>, Forig: seq<Cube>, k: nat)
    requires GaspSetting(cs, bb, F, D, Forig) && k < |Forig|
    ensures OnCube(cs, bb, F[k].parts) && F[k].parts <= Forig[k].parts && OnCube(cs, bb, Forig[k].parts)
  {
    assert OnCube(cs, bb, Forig[k].parts);
    ReductionNonVoid(cs, Forig + D, k, Forig[k].parts, F[k].parts);
    SmallerOrthogonal(cs, bb, Forig[k].parts, F[k].parts);
  }

  /** The reduced ON-set: the other nonprime cubes become active. */
  method SetupReduced(F: Cover, c1: nat)
    requires c1 < |F.cubes|
    modifies F
    ensures Counted(F) && PartsKept(old(F.cubes), F.cubes)
    ensures forall k :: 0 <= k < |F.cubes| ==> (F.cubes[k].active <==> k != c1 && !F.cubes[k].prime)
  {
    ghost var s := F.cubes;
    F.activeCount := |F.cubes|;
    for k := 0 to |F.cubes|
      invariant |F.cubes| == |s| && F.activeCount == |s| - k + NumActive(F.cubes[..k])
      invariant forall j :: 0 <= j < k ==> F.cubes[j] == s[j].(active := j != c1 && !s[j].prime)
      invariant forall j :: k <= j < |s| ==> F.cubes[j] == s[j]
    {
      ghost var before := F.cubes;
      if c1 == k || F.cubes[k].prime {
        F.activeCount := F.activeCount - 1;
        F.cubes := F.cubes[k := F.cubes[k].(active := false)];
      } else {
        F.cubes := F.cubes[k := F.cubes[k].(active := true)];
      }
      NumActivePrefix(before, F.cubes, k);
    }
    assert F.cubes[..|F.cubes|] == F.cubes;
  }

  /** What holds once the parts that must be lowered or can be raised are known. */
  ghost predicate GaspReady(cs: Shape, bb: seq<Cube>, F: seq<Cube>, Forig: seq<Cube>, c1: nat, raise: set<nat>,
                            over: set<nat>)
    requires c1 < |Forig|
  {
    && raise <= over <= cs.fullset && Blocking(cs, bb, over) && Far(cs, bb, raise, 1)
    && Forig[c1].parts <= over && NonVoid(cs, raise)
    && (forall k :: 0 <= k < |F| && F[k].active ==> k != c1 && F[k].parts <= over)
  }

  /** The unreduced cube c1 loses no part to the lowering. */
  lemma OriginalStays(cs: Shape, bb: seq<Cube>, p: set<nat>, raise: set<nat>, free: set<nat>, free': set<nat>)
    requires Orthogonal(cs, bb, p) && raise <= p <= raise + free
    requires forall i: nat :: i in free && i !in free' ==> LoweredBy(cs, bb, raise, i)
    ensures p <= raise + free'
  {
    forall i | i in p ensures i in raise + free' {
      if i in free && i !in free' {
        LoweredBlocked(cs, bb, raise, p, i);
      }
    }
  }

  lemma SettingFacts(cs: Shape, bb: seq<Cube>, F: seq<Cube>, D: seq<Cube>, Forig: seq<Cube>, c1: nat)
    requires GaspSetting(cs, bb, F, D, Forig) && c1 < |F|
    ensures PartsFit(cs, F) && Orthogonal(cs, bb, Forig[c1].parts) && F[c1].parts <= Forig[c1].parts <= cs.fullset
    ensures NonVoid(cs, F[c1].parts)
    ensures forall k :: 0 <= k < |bb| ==> Distance(cs, bb[k].parts, F[c1].parts, cs.numVars) >= 1
  {
    ReducedOnCube(cs, bb, F, D, Forig, c1);
    AllAway(cs, bb, F[c1].parts);
    forall k | 0 <= k < |F| ensures F[k].parts <= cs.fullset {
      ReducedOnCube(cs, bb, F, D, Forig, k);
    }
  }

  /** The families of expand1_gasp before essen_parts. */
  method SetupGasp(cs: Shape, F: Cover, R: Cover, c1: nat)
    requires F != R && c1 < |F.cubes|
    requires forall k :: 0 <= k < |R.cubes| ==> Distance(cs, R.cubes[k].parts, F.cubes[c1].parts, cs.numVars) >= 1
    modifies F, R
    ensures Counted(F) && Counted(R) && PartsKept(old(R.cubes), R.cubes) && PartsKept(old(F.cubes), F.cubes)
    ensures Blocking(cs, R.cubes, cs.fullset) && Far(cs, R.cubes, F.cubes[c1].parts, 1)
    ensures forall k :: 0 <= k < |F.cubes| && F.cubes[k].active ==> k != c1
  {
    SetupBlocking(R);
    SetupReduced(F, c1);
  }

  /** essen_parts on the families just set up: c1 before its reduction keeps all its parts. */
  method LowerGasp(cs: Shape, F: Cover, R: Cover, c1: nat, raise: set<nat>, ghost whole: set<nat>)
    returns (free: set<nat>)
    requires F != R && Counted(F) && Counted(R) && PartsFit(cs, F.cubes) && PartsFit(cs, R.cubes)
    requires Blocking(cs, R.cubes, cs.fullset) && Far(cs, R.cubes, raise, 1) && Orthogonal(cs, R.cubes, whole)
    requires raise <= whole <= cs.fullset
    modifies F, R
    ensures PartsKept(old(R.cubes), R.cubes) && PartsKept(old(F.cubes), F.cubes)
    ensures forall k :: 0 <= k < |F.cubes| && F.cubes[k].active ==> old(F.cubes)[k].active
    ensures Blocking(cs, R.cubes, raise + free) && Far(cs, R.cubes, raise, 2) && Coverable(F.cubes, raise + free)
    ensures raise + free <= cs.fullset && whole <= raise + free
  {
    free := cs.fullset - raise;
    assert raise + free == cs.fullset;
    ghost var bb, free0 := R.cubes, free;
    free := EssenParts(cs, R, F, raise, free);
    OriginalStays(cs, bb, whole, raise, free0, free);
  }

  /** expand1_gasp up to essen_parts. */
  method BeginGasp(cs: Shape, F: Cover, R: Cover, c1: nat, ghost whole: set<nat>)
    returns (raise: set<nat>, free: set<nat>)
    requires F != R && c1 < |F.cubes| && PartsFit(cs, F.cubes) && PartsFit(cs, R.cubes)
    requires F.cubes[c1].parts <= whole <= cs.fullset && Orthogonal(cs, R.cubes, whole)
    requires forall k :: 0 <= k < |R.cubes| ==> Distance(cs, R.cubes[k].parts, F.cubes[c1].parts, cs.numVars) >= 1
    modifies F, R
    ensures PartsKept(old(R.cubes), R.cubes) && PartsKept(old(F.cubes), F.cubes)
    ensures raise == old(F.cubes)[c1].parts && whole <= raise + free <= cs.fullset
    ensures Blocking(cs, R.cubes, raise + free) && Far(cs, R.cubes, raise, 2)
    ensures forall k :: 0 <= k < |F.cubes| && F.cubes[k].active ==> k != c1 && F.cubes[k].parts <= raise + free
  {
    raise := F.cubes[c1].parts;
    SetupGasp(cs, F, R, c1);
    free := LowerGasp(cs, F, R, c1, raise, whole);
  }

  /** expand1_gasp up to the loop over the other cubes. */
  method StartGasp(cs: Shape, F: Cover, ghost D: seq<Cube>, R: Cover, ghost Forig: seq<Cube>, c1: nat)
    returns (raise: set<nat>, ghost over: set<nat>)
    requires F != R && GaspSetting(cs, R.cubes, F.cubes, D, Forig) && c1 < |F.cubes|
    modifies F, R
    ensures PartsKept(old(R.cubes), R.cubes) && PartsKept(old(F.cubes), F.cubes)
    ensures GaspReady(cs, R.cubes, F.cubes, Forig, c1, raise, over)
  {
    SettingFacts(cs, R.cubes, F.cubes, D, Forig, c1);
    var free;
    raise, free := BeginGasp(cs, F, R, c1, Forig[c1].parts);
    over := raise + free;
    ghost var raise0 := raise;
    raise, free := EssenRaising(cs, R, raise, free);
    FarKept(cs, R.cubes, raise0, raise, 2);
    NonVoidGrows(cs, raise0, raise);
  }

  /** A minterm that c2 alone holds once c1 is reduced lies in c1 or in the reduction of c2. */
  lemma EssentialEither(cs: Shape, F: seq<Cube>, D: seq<Cube>, Forig: seq<Cube>, c1: nat, c2: nat, m: seq<nat>)
    requires GaspReduced(cs, Forig, D, F, |Forig|) && c1 < |Forig| && c2 < |Forig| && c1 != c2
    requires Essential(cs, Forig[c1 := F[c1]] + D, c2, Forig[c2].parts, m)
    ensures In(m, Forig[c1].parts) || In(m, F[c2].parts)
  {
    var s := Forig + D;
    var s1 := Forig[c1 := F[c1]] + D;
    if !In(m, Forig[c1].parts) {
      forall k | 0 <= k < |s| && k != c2 ensures !In(m, s[k].parts) {
        assert k != c1 ==> s1[k] == s[k];
      }
      assert Essential(cs, s, c2, Forig[c2].parts, m);
      EssentialInside(cs, s, c2, Forig[c2].parts, F[c2].parts, m);
    }
  }

  /** c2essential stays inside the overexpanded cube. */
  lemma EssentialStaysInside(cs: Shape, F: seq<Cube>, D: seq<Cube>, Forig: seq<Cube>, c1: nat, c2: nat, over: set<nat>,
                             r: set<nat>)
    requires GaspReduced(cs, Forig, D, F, |Forig|) && c1 < |Forig| && c2 < |Forig| && c1 != c2
    requires NonVoid(cs, Forig[c2].parts) && Forig[c2].parts <= cs.fullset
    requires Forig[c1].parts <= over && F[c2].parts <= over
    requires Reduction(cs, Forig[c1 := F[c1]] + D, c2, Forig[c2].parts, r)
    ensures r <= over
  {
    forall i | i in r ensures i in over {
      assert EssentialAt(cs, Forig[c1 := F[c1]] + D, c2, Forig[c2].parts, i);
      var m :| Essential(cs, Forig[c1 := F[c1]] + D, c2, Forig[c2].parts, m) && m[cs.partVar[i]] == i;
      EssentialEither(cs, F, D, Forig, c1, c2, m);
      assert m[cs.partVar[i]] in Forig[c1].parts || m[cs.partVar[i]] in F[c2].parts;
    }
  }

  /** The cube added misses every OFF-set cube, tested or not. */
  lemma AddedOnCube(cs: Shape, bb: seq<Cube>, F: seq<Cube>, Forig: seq<Cube>, c1: nat, raise: set<nat>, over: set<nat>,
                    r: set<nat>)
    requires c1 < |Forig| && GaspReady(cs, bb, F, Forig, c1, raise, over) && r <= over && Feasible(cs, bb, raise, r)
    ensures OnCube(cs, bb, raise + r)
  {
    RaisedOrthogonal(cs, bb, raise + r, over);
    NonVoidGrows(cs, raise, raise + r);
  }

  /** One cube c2 of the loop of expand1_gasp. */
  method TryCover(cs: Shape, F: Cover, D: seq<Cube>, R: Cover, Forig: seq<Cube>, c1: nat, c2: nat,
                  raise: set<nat>, ghost over: set<nat>, G: seq<Cube>) returns (G': seq<Cube>)
    requires GaspSetting(cs, R.cubes, F.cubes, D, Forig) && c1 < |F.cubes| && c2 < |F.cubes|
    requires GaspReady(cs, R.cubes, F.cubes, Forig, c1, raise, over) && OnSet(cs, R.cubes, G)
    ensures OnSet(cs, R.cubes, G')
  {
    G' := G;
    if F.cubes[c2].active {
      var covered := F.cubes[c2].parts <= raise;
      if !covered {
        var temp;
        covered, temp := FeasiblyCovered(cs, R, F.cubes[c2].parts, raise);
      }
      if covered {
        G' := AddExpansion(cs, F, D, R, Forig, c1, c2, raise, over, G);
      }
    }
  }

  /** c2 reduced once more, against c1 as reduced and the other cubes as they were. */
  method ReduceAgain(cs: Shape, F: Cover, D: seq<Cube>, ghost bb: seq<Cube>, Forig: seq<Cube>, c1: nat, c2: nat,
                     ghost raise: set<nat>, ghost over: set<nat>) returns (c2essential: set<nat>)
    requires GaspSetting(cs, bb, F.cubes, D, Forig) && c1 < |F.cubes| && c2 < |F.cubes| && F.cubes[c2].active
    requires GaspReady(cs, bb, F.cubes, Forig, c1, raise, over)
    ensures c2essential <= over
  {
    ReplacedFits(cs, bb, F.cubes, D, Forig, c1);
    ReducedOnCube(cs, bb, F.cubes, D, Forig, c2);
    var FD := new CubeList({}, Forig[c1 := F.cubes[c1]] + D);
    c2essential := ReduceCube(cs, FD, c2, Forig[c2].parts);
    EssentialStaysInside(cs, F.cubes, D, Forig, c1, c2, over, c2essential);
  }

  /** Add the cube that covers c2 reduced once more, if there is one. */
  method AddExpansion(cs: Shape, F: Cover, D: seq<Cube>, R: Cover, Forig: seq<Cube>, c1: nat, c2: nat,
                      raise: set<nat>, ghost over: set<nat>, G: seq<Cube>) returns (G': seq<Cube>)
    requires GaspSetting(cs, R.cubes, F.cubes, D, Forig) && c1 < |F.cubes| && c2 < |F.cubes| && F.cubes[c2].active
    requires GaspReady(cs, R.cubes, F.cubes, Forig, c1, raise, over) && OnSet(cs, R.cubes, G)
    ensures OnSet(cs, R.cubes, G')
  {
    var c2essential := ReduceAgain(cs, F, D, R.cubes, Forig, c1, c2, raise, over);
    var feasible, temp := FeasiblyCovered(cs, R, c2essential, raise);
    G' := G;
    if feasible {
      AddedOnCube(cs, R.cubes, F.cubes, Forig, c1, raise, over, c2essential);
      G' := G + [MkCube(raise + c2essential)];
    }
  }

  lemma ReplacedFits(cs: Shape, bb: seq<Cube>, F: seq<Cube>, D: seq<Cube>, Forig: seq<Cube>, c1: nat)
    requires GaspSetting(cs, bb, F, D, Forig) && c1 < |Forig|
    ensures forall c :: c in Forig[c1 := F[c1]] + D ==> c.parts <= cs.fullset
  {
    ReducedOnCube(cs, bb, F, D, Forig, c1);
    forall c | c in Forig[c1 := F[c1]] + D ensures c.parts <= cs.fullset {
      assert c == F[c1] || c in Forig + D;
    }
  }

  lemma SettingKept(cs: Shape, bb: seq<Cube>, bb': seq<Cube>, F: seq<Cube>, F': seq<Cube>, D: seq<Cube>,
                    Forig: seq<Cube>)
    requires GaspSetting(cs, bb, F, D, Forig) && PartsKept(bb, bb') && PartsKept(F, F')
    ensures GaspSetting(cs, bb', F', D, Forig)
  {
    OnSetKept(cs, bb, bb', Forig);
    OffSetKept(cs, bb, bb');
    forall k | 0 <= k < |F'| ensures F'[k].parts == F[k].parts {
    }
  }

  /** expand1_gasp */
  method Expand1Gasp(cs: Shape, F: Cover, D: seq<Cube>, R: Cover, Forig: seq<Cube>, c1: nat, G: seq<Cube>)
    returns (G': seq<Cube>)
    requires F != R && GaspSetting(cs, R.cubes, F.cubes, D, Forig) && c1 < |F.cubes| && OnSet(cs, R.cubes, G)
    modifies F, R
    ensures GaspSetting(cs, R.cubes, F.cubes, D, Forig)
    ensures PartsKept(old(R.cubes), R.cubes) && PartsKept(old(F.cubes), F.cubes) && OnSet(cs, R.cubes, G')
  {
    ghost var bb, s := R.cubes, F.cubes;
    ghost var over;
    var raise;
    raise, over := StartGasp(cs, F, D, R, Forig, c1);
    SettingKept(cs, bb, R.cubes, s, F.cubes, D, Forig);
    OnSetKept(cs, bb, R.cubes, G);
    G' := G;
    ghost var bb1, s1 := R.cubes, F.cubes;
    for c2 := 0 to |F.cubes|
      invariant R.cubes == bb1 && F.cubes == s1 && OnSet(cs, bb1, G')
    {
      G' := TryCover(cs, F, D, R, Forig, c1, c2, raise, over, G');
    }
  }

  // ---------- expand_gasp, irred_gasp, last_gasp ----------

  lemma OnSetSubset(cs: Shape, bb: seq<Cube>, s: seq<Cube>, t: seq<Cube>)
    requires OnSet(cs, bb, s) && forall c :: c in t ==> HasParts(s, c.parts)
    ensures OnSet(cs, bb, t)
  {
    forall k | 0 <= k < |t| ensures OnCube(cs, bb, t[k].parts) {
      assert t[k] in t && HasParts(s, t[k].parts);
      var b :| b in s && b.parts == t[k].parts;
      var j :| 0 <= j < |s| && s[j] == b;
      assert OnCube(cs, bb, s[j].parts);
    }
  }

  /** expand_gasp -- new cubes that miss the OFF-set; G is the reduced cover. */
  method ExpandGasp(cs: Shape, F: Cover, D: seq<Cube>, R: Cover, Forig: seq<Cube>) returns (G: Cover)
    requires F != R && GaspSetting(cs, R.cubes, F.cubes, D, Forig)
    modifies F, R
    ensures fresh(G) && PartsKept(old(R.cubes), R.cubes) && OffSet(cs, R.cubes) && OnSet(cs, R.cubes, G.cubes)
  {
    ghost var bb, s := R.cubes, F.cubes;
    var found: seq<Cube> := [];
    for c1 := 0 to |F.cubes|
      invariant |F.cubes| == |s| && GaspSetting(cs, R.cubes, F.cubes, D, Forig)
      invariant PartsKept(bb, R.cubes) && OnSet(cs, R.cubes, found)
    {
      ghost var bb1 := R.cubes;
      found := Expand1Gasp(cs, F, D, R, Forig, c1, found);
    }
    var distinct := SfDupl(found);
    OnSetSubset(cs, R.cubes, found, distinct);
    G := new Cover(distinct);
    ghost var bb1 := R.cubes;
    OnSetNear(cs, bb1, distinct);
    ghost var initLower := Expand(cs, G, R, false);
    OnSetKept(cs, bb1, R.cubes, distinct);
    ExpansionOnSet(cs, R.cubes, distinct, G.cubes, initLower);
  }

  /** irred_gasp -- add the new cubes and find an irredundant subset. */
  method IrredGasp(cs: Shape, F: Cover, D: seq<Cube>, G: Cover, ghost bb: seq<Cube>)
    requires F != G && OnSet(cs, bb, F.cubes) && OnSet(cs, bb, G.cubes)
    modifies F
    ensures OnSet(cs, bb, F.cubes) && Keeps(cs, old(F.cubes), F.cubes, D)
  {
    if |G.cubes| != 0 {
      ghost var s := F.cubes;
      F.cubes := F.cubes + G.cubes;
      ghost var t := F.cubes;
      ghost var work, marked := Irredundant(cs, F, D);
      OnSetSubset(cs, bb, t, F.cubes);
      forall m | cs.Minterm(m) && Covered(m, s) ensures Covered(m, F.cubes) || Covered(m, D) {
        CoveredAppend(m, s, G.cubes);
      }
    }
  }

  lemma {:induction false} DistinctActive(G: seq<Cube>)
    requires Numbered(G)
    ensures forall i, j :: 0 <= i < j < |ActiveOnly(G)| ==> ActiveOnly(G)[i] != ActiveOnly(G)[j]
  {
    if G != [] {
      var n := |G| - 1;
      DistinctActive(G[..n]);
      forall c | c in ActiveOnly(G[..n]) ensures c.size < n {
        var i :| 0 <= i < n && G[..n][i] == c;
      }
    }
  }

  /** In a cover without repeated cubes position and cube are the same. */
  lemma EssentialIsOwn(cs: Shape, r: seq<Cube>, D: seq<Cube>, k: nat)
    requires k < |r| && forall i, j :: 0 <= i < j < |r| ==> r[i] != r[j]
    ensures HasEssential(cs, r, D, k) <==> OwnMinterm(cs, r, D, r[k])
  {
    forall m | cs.Minterm(m) && In(m, r[k].parts)
      ensures Essential(cs, r + D, k, r[k].parts, m) <==> HeldAlone(r, D, r[k], m)
    {
      if Essential(cs, r + D, k, r[k].parts, m) {
        forall d | d in r && d != r[k] ensures !In(m, d.parts) {
          var j := Position(r, d);
          assert (r + D)[j] == d;
        }
        forall d | d in D ensures !In(m, d.parts) {
          var j := Position(D, d);
          assert (r + D)[|r| + j] == d;
        }
      }
      if HeldAlone(r, D, r[k], m) {
        forall j | 0 <= j < |r + D| && j != k ensures !In(m, (r + D)[j].parts) {
          assert j < |r| ==> r[j] in r && r[j] != r[k];
          assert j >= |r| ==> (r + D)[j] in D;
        }
      }
    }
  }

  /** reduce_gasp on what irredundant left gives up exactly if a chosen column could have been spared. */
  lemma GivesUpExactly(cs: Shape, D: seq<Cube>, w: Work, G: seq<Cube>)
    requires MarkedBy(cs, D, w, G) && forall c :: c in w.F ==> NonVoid(cs, c.parts)
    ensures var r := ActiveOnly(G);
            (forall k :: 0 <= k < |r| ==> HasEssential(cs, r, D, k)) <==> NoneSpare(w.rows, w.cover)
  {
    var r := ActiveOnly(G);
    assert Numbered(G) by {
      forall i | 0 <= i < |G| ensures G[i].size == i {
        assert w.F[i].size == i;
      }
    }
    DistinctActive(G);
    OwnMintermsExactly(cs, D, w, G);
    forall k | 0 <= k < |r| ensures HasEssential(cs, r, D, k) <==> OwnMinterm(cs, r, D, r[k]) {
      EssentialIsOwn(cs, r, D, k);
    }
    if AllOwn(cs, r, D) {
      forall k | 0 <= k < |r| ensures HasEssential(cs, r, D, k) {
        assert r[k] in r;
      }
    }
    if forall k :: 0 <= k < |r| ==> HasEssential(cs, r, D, k) {
      forall c | c in r ensures OwnMinterm(cs, r, D, c) {
        var k := Position(r, c);
        assert HasEssential(cs, r, D, k);
      }
    }
  }

  /** last_gasp -- ok is false where reduce_gasp gives up. */
  method LastGasp(cs: Shape, F: Cover, D: seq<Cube>, R: Cover) returns (ok: bool)
    requires F != R && OffSet(cs, R.cubes) && OnSet(cs, R.cubes, F.cubes) && Fits(cs, F.cubes + D, {}) && cs.numVars > 0
    modifies F, R
    ensures PartsKept(old(R.cubes), R.cubes) && OffSet(cs, R.cubes)
    ensures ok ==> OnSet(cs, R.cubes, F.cubes) && Keeps(cs, old(F.cubes), F.cubes, D)
    ensures ok <==> forall k :: 0 <= k < |old(F.cubes)| ==> HasEssential(cs, old(F.cubes), D, k)
    ensures !ok ==> F.cubes == old(F.cubes)
  {
    ghost var bb := R.cubes;
    OnSetNonVoid(cs, bb, F.cubes);
    var G;
    ok, G := ReduceGasp(cs, F.cubes, D);
    if ok {
      var reduced := new Cover(G);
      assert GaspSetting(cs, R.cubes, reduced.cubes, D, F.cubes);
      var G1 := ExpandGasp(cs, reduced, D, R, F.cubes);
      OnSetKept(cs, bb, R.cubes, F.cubes);
      IrredGasp(cs, F, D, G1, R.cubes);
    }
  }

  lemma OnSetNonVoid(cs: Shape, bb: seq<Cube>, s: seq<Cube>)
    requires OnSet(cs, bb, s)
    ensures AllNonVoid(cs, s, {})
  {
    forall c | c in s ensures NonVoid(cs, c.parts + {}) {
      var k :| 0 <= k < |s| && s[k] == c;
      assert OnCube(cs, bb, s[k].parts) && c.parts + {} == c.parts;
    }
  }
}
