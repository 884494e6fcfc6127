/** espresso.c: the main loop; verify.c: the specification its result meets. */
module Espresso {
  import opened Cubes
  import opened Cofactor
  import opened Compl
  import opened Containment
  import opened CoverCost
  import opened EssentialPass
  import opened ExpandPass
  import opened ExactMinimization
  import opened Gasp
  import opened Irred
  import opened Primes
  import opened Redundancy
  import opened ReducePass
  import opened SetOps
  import opened Sparse
  import opened SuperGasp
  import opened Unravel

  // ---------- what every pass keeps ----------

  /** The cover misses the OFF-set, and with D it holds every minterm of the original one. */
  ghost predicate Sane(cs: Shape, bb: seq<Cube>, original: seq<Cube>, F: seq<Cube>, D: seq<Cube>) {
    OffSet(cs, bb) && OnSet(cs, bb, F) && Keeps(cs, original, F, D) && Fits(cs, D, {})
  }

  lemma SameUnionKeeps(cs: Shape, s: seq<Cube>, t: seq<Cube>, D: seq<Cube>)
    requires SameUnion(cs, s, t, D)
    ensures Keeps(cs, s, t, D)
  {
  }

  lemma BothFit(cs: Shape, bb: seq<Cube>, F: seq<Cube>, D: seq<Cube>)
    requires OnSet(cs, bb, F) && Fits(cs, D, {})
    ensures Fits(cs, F + D, {})
  {
    forall c | c in F + D ensures c.parts <= cs.fullset {
      if c in F {
        var k :| 0 <= k < |F| && F[k] == c;
        assert OnCube(cs, bb, F[k].parts);
      }
    }
  }

  lemma ReducedOnSet(cs: Shape, bb: seq<Cube>, s: seq<Cube>, t: seq<Cube>)
    requires OnSet(cs, bb, s) && Dominates(s, t) && (AllNonVoid(cs, s, {}) ==> AllNonVoid(cs, t, {}))
    ensures OnSet(cs, bb, t)
  {
    OnSetNonVoid(cs, bb, s);
    forall k | 0 <= k < |t| ensures OnCube(cs, bb, t[k].parts) {
      assert t[k] in t && Within(t[k].parts, s);
      var c :| c in s && t[k].parts <= c.parts;
      var j :| 0 <= j < |s| && s[j] == c;
      assert OnCube(cs, bb, s[j].parts) && t[k].parts + {} == t[k].parts;
      SmallerOrthogonal(cs, bb, c.parts, t[k].parts);
    }
  }

  /** reduce */
  method ReducePhase(cs: Shape, F: Cover, D: seq<Cube>, R: Cover, toggle: bool, ghost original: seq<Cube>)
    requires F != R && Sane(cs, R.cubes, original, F.cubes, D)
    modifies F
    ensures Sane(cs, R.cubes, original, F.cubes, D) && |F.cubes| <= |old(F.cubes)|
  {
    ghost var s := F.cubes;
    BothFit(cs, R.cubes, s, D);
    ghost var A, B := Reduce(cs, F, D, toggle);
    ReducedOnSet(cs, R.cubes, s, F.cubes);
    SameUnionKeeps(cs, s, F.cubes, D);
    KeepsTrans(cs, original, s, F.cubes, D);
  }

  /** expand */
  method ExpandPhase(cs: Shape, F: Cover, D: seq<Cube>, R: Cover, ghost original: seq<Cube>)
    requires F != R && Sane(cs, R.cubes, original, F.cubes, D)
    modifies F, R
    ensures Sane(cs, R.cubes, original, F.cubes, D) && |F.cubes| <= |old(F.cubes)|
    ensures PartsKept(old(R.cubes), R.cubes)
  {
    ghost var s, bb := F.cubes, R.cubes;
    OnSetNear(cs, bb, s);
    ghost var initLower := Expand(cs, F, R, false);
    OnSetKept(cs, bb, R.cubes, s);
    ExpansionOnSet(cs, R.cubes, s, F.cubes, initLower);
    DominatesKeeps(cs, s, F.cubes, D);
    KeepsTrans(cs, original, s, F.cubes, D);
  }

  /** irredundant */
  method IrredundantPhase(cs: Shape, F: Cover, D: seq<Cube>, ghost bb: seq<Cube>, ghost original: seq<Cube>)
    returns (ghost work: Work, ghost marked: seq<Cube>)
    requires Sane(cs, bb, original, F.cubes, D)
    modifies F
    ensures Sane(cs, bb, original, F.cubes, D) && |F.cubes| <= |marked| == |old(F.cubes)|
    ensures LeftBy(cs, F.cubes, D, work, marked)
  {
    ghost var s := F.cubes;
    work, marked := Irredundant(cs, F, D);
    OnSetSubset(cs, bb, s, F.cubes);
    SameUnionKeeps(cs, s, F.cubes, D);
    KeepsTrans(cs, original, s, F.cubes, D);
    forall c | c in work.F ensures NonVoid(cs, c.parts) {
      var i := Position(work.F, c);
      assert OnCube(cs, bb, s[i].parts);
    }
  }

  /** s is what irredundant left of a cover without void cubes. */
  ghost predicate LeftBy(cs: Shape, s: seq<Cube>, D: seq<Cube>, work: Work, marked: seq<Cube>) {
    MarkedBy(cs, D, work, marked) && s == ActiveOnly(marked) && forall c :: c in work.F ==> NonVoid(cs, c.parts)
  }

  /** essential */
  method EssentialPhase(cs: Shape, F: Cover, D: seq<Cube>, ghost bb: seq<Cube>, ghost original: seq<Cube>)
    returns (E: seq<Cube>, D': seq<Cube>)
    requires Sane(cs, bb, original, F.cubes, D)
    modifies F
    ensures D' == D + E && OnSet(cs, bb, E) && Sane(cs, bb, original, F.cubes, D')
  {
    ghost var s := F.cubes;
    E, D' := EssentialPass.Essential(cs, F, D);
    OnSetSubset(cs, bb, s, E);
    OnSetSubset(cs, bb, s, F.cubes);
    EssentialKeeps(cs, s, F.cubes, E, D);
    BothFit(cs, bb, E, D);
    forall c | c in D' ensures c.parts <= cs.fullset {
      assert c in E + D;
    }
    forall m | cs.Minterm(m) && Covered(m, original) ensures Covered(m, F.cubes) || Covered(m, D') {
      CoveredAppend(m, D, E);
    }
  }

  /**
   The inner loop: reduce, expand and irredundant while the number of cubes drops.  None of the three adds a
   cube, so that it ends with irredundant dropping none.
   */
  method InnerLoop(cs: Shape, F: Cover, D: seq<Cube>, R: Cover, toggle0: bool, ghost original: seq<Cube>)
    returns (cost: Cost, toggle: bool, ghost work: Work, ghost marked: seq<Cube>)
    requires F != R && Sane(cs, R.cubes, original, F.cubes, D)
    modifies F, R
    ensures LeftBy(cs, F.cubes, D, work, marked) && |F.cubes| == |marked|
    ensures AllOwn(cs, F.cubes, D)
    ensures Sane(cs, R.cubes, original, F.cubes, D) && |F.cubes| <= |old(F.cubes)|
    ensures PartsKept(old(R.cubes), R.cubes)
    ensures cost.cubes == |F.cubes| && cost.total == TotalLiterals(cs, F.cubes)
  {
    ghost var bb := R.cubes;
    toggle := toggle0;
    cost := CoverCostOf(cs, F.cubes);
    work, marked := Work([], [], [], [], map[], []), [];
    var again := true;
    while again
      invariant Sane(cs, R.cubes, original, F.cubes, D) && PartsKept(bb, R.cubes)
      invariant cost.cubes == |F.cubes| <= |old(F.cubes)| && cost.total == TotalLiterals(cs, F.cubes)
      invariant !again ==> LeftBy(cs, F.cubes, D, work, marked) && |F.cubes| == |marked|
      decreases again, cost.cubes
    {
      var bestCost := cost;
      work, marked := InnerPass(cs, F, D, R, toggle, original);
      toggle := !toggle;
      cost := CoverCostOf(cs, F.cubes);
      again := cost.cubes < bestCost.cubes;
    }
    NothingDropped(cs, D, work, marked);
    OwnMintermsExactly(cs, D, work, marked);
  }

  /** One pass of it. */
  method InnerPass(cs: Shape, F: Cover, D: seq<Cube>, R: Cover, toggle: bool, ghost original: seq<Cube>)
    returns (ghost work: Work, ghost marked: seq<Cube>)
    requires F != R && Sane(cs, R.cubes, original, F.cubes, D)
    modifies F, R
    ensures Sane(cs, R.cubes, original, F.cubes, D) && |F.cubes| <= |marked| <= |old(F.cubes)|
    ensures PartsKept(old(R.cubes), R.cubes) && LeftBy(cs, F.cubes, D, work, marked)
  {
    ReducePhase(cs, F, D, R, toggle, original);
    ExpandPhase(cs, F, D, R, original);
    work, marked := IrredundantPhase(cs, F, D, R.cubes, original);
  }

  datatype Options = Options(recomputeOnset: bool, unwrapOnset: bool, removeEssential: bool, singleExpand: bool,
                             useSuperGasp: bool, skipMakeSparse: bool, forceIrredundant: bool)

  /** How a run ends: it returns, unravel gives up in super_gasp, or it is cut off by the fuel of this model. */
  datatype Outcome = Returned | GaveUp | OutOfFuel

  /** last_gasp or super_gasp, after irredundant has dropped nothing: reduce_gasp does not give up. */
  method GaspPhase(cs: Shape, F: Cover, D: seq<Cube>, R: Cover, useSuperGasp: bool, ghost original: seq<Cube>,
                   ghost work: Work, ghost marked: seq<Cube>) returns (ok: bool)
    requires F != R && Sane(cs, R.cubes, original, F.cubes, D) && cs.numVars > 0
    requires LeftBy(cs, F.cubes, D, work, marked) && |F.cubes| == |marked|
    modifies F, R
    ensures !useSuperGasp ==> ok
    ensures PartsKept(old(R.cubes), R.cubes) && OffSet(cs, R.cubes)
    ensures ok ==> Sane(cs, R.cubes, original, F.cubes, D)
  {
    ghost var s := F.cubes;
    BothFit(cs, R.cubes, s, D);
    NothingDropped(cs, D, work, marked);
    GivesUpExactly(cs, D, work, marked);
    if useSuperGasp {
      ghost var reduced;
      ok, reduced := SuperGasp.SuperGasp(cs, F, D, R);
      assert reduced;
    } else {
      ok := LastGasp(cs, F, D, R);
    }
    if ok {
      KeepsTrans(cs, original, s, F.cubes, D);
    }
  }

  /**
   The outer loop: the inner loop, then last_gasp or super_gasp, while the cost drops.  With super_gasp the
   number of cubes must drop, so that the loop ends.
   */
  method OuterLoop(cs: Shape, F: Cover, D: seq<Cube>, R: Cover, useSuperGasp: bool, toggle0: bool, fuel: nat,
                   ghost original: seq<Cube>)
    returns (outcome: Outcome, toggle: bool)
    requires F != R && Sane(cs, R.cubes, original, F.cubes, D) && cs.numVars > 0
    modifies F, R
    ensures PartsKept(old(R.cubes), R.cubes) && OffSet(cs, R.cubes)
    ensures outcome == Returned ==> Sane(cs, R.cubes, original, F.cubes, D)
    ensures useSuperGasp && fuel > |old(F.cubes)| ==> outcome != OutOfFuel
    ensures !useSuperGasp ==> outcome != GaveUp
  {
    ghost var bb := R.cubes;
    toggle := toggle0;
    for n := 0 to fuel
      invariant Sane(cs, R.cubes, original, F.cubes, D) && PartsKept(bb, R.cubes)
      invariant useSuperGasp ==> |F.cubes| + n <= |old(F.cubes)|
    {
      var bestCost;
      ghost var work, marked;
      bestCost, toggle, work, marked := InnerLoop(cs, F, D, R, toggle, original);
      var ok := GaspPhase(cs, F, D, R, useSuperGasp, original, work, marked);
      if !ok {
        return GaveUp, toggle;
      }
      var cost := CoverCostOf(cs, F.cubes);
      if useSuperGasp && cost.cubes >= bestCost.cubes {
        return Returned, toggle;
      }
      if !(cost.cubes < bestCost.cubes || (cost.cubes == bestCost.cubes && cost.total < bestCost.total)) {
        return Returned, toggle;
      }
    }
    outcome := OutOfFuel;
  }

  // ---------- the initial unravelling of the last variable ----------

  method AsCubes(B: seq<set<nat>>) returns (r: seq<Cube>)
    ensures |r| == |B| && forall k :: 0 <= k < |B| ==> r[k].parts == B[k]
  {
    r := [];
    for k := 0 to |B|
      invariant |r| == k && forall j :: 0 <= j < k ==> r[j].parts == B[j]
    {
      r := r + [MkCube(B[k])];
    }
  }

  lemma UnwrapFits(cs: Shape, bb: seq<Cube>, s: seq<Cube>, B: seq<set<nat>>)
    requires OnSet(cs, bb, s) && |B| == |s| && forall k :: 0 <= k < |s| ==> B[k] == s[k].parts
    ensures forall k :: 0 <= k < |B| ==> B[k] <= cs.fullset
  {
    forall k | 0 <= k < |B| ensures B[k] <= cs.fullset {
      assert OnCube(cs, bb, s[k].parts);
    }
  }

  lemma UnwrapOnSet(cs: Shape, bb: seq<Cube>, s: seq<Cube>, B: seq<set<nat>>, B1: seq<set<nat>>, rows: seq<Cube>)
    requires OnSet(cs, bb, s) && cs.numVars > 0 && |B| == |s| && forall k :: 0 <= k < |s| ==> B[k] == s[k].parts
    requires Unravelled(cs, B, cs.numVars - 1, |B|, B1) && |rows| == |B1| &&
      forall k :: 0 <= k < |B1| ==> rows[k].parts == B1[k]
    ensures OnSet(cs, bb, rows)
  {
    forall j | 0 <= j < |rows| ensures OnCube(cs, bb, rows[j].parts) {
      assert FromSome(cs, B, cs.numVars - 1, |B|, B1[j]);
      var k, x: nat :| 0 <= k < |B| && x < Product(cs, B[k], cs.numVars - 1) &&
        B1[j] == Row(cs, B[k], cs.numVars - 1, cs.numVars, x);
      assert OnCube(cs, bb, s[k].parts);
      RowNonVoid(cs, B[k], cs.numVars - 1, x);
      SmallerOrthogonal(cs, bb, B[k], B1[j]);
    }
  }

  lemma UnwrapKeeps(cs: Shape, bb: seq<Cube>, s: seq<Cube>, B: seq<set<nat>>, B1: seq<set<nat>>, rows: seq<Cube>,
                    D: seq<Cube>)
    requires cs.numVars > 0 && |B| == |s| && forall k :: 0 <= k < |s| ==> B[k] == s[k].parts
    requires Unravelled(cs, B, cs.numVars - 1, |B|, B1) && |rows| == |B1| &&
      forall k :: 0 <= k < |B1| ==> rows[k].parts == B1[k]
    ensures Keeps(cs, s, rows, D)
  {
    forall m | cs.Minterm(m) && Covered(m, s) ensures Covered(m, rows) {
      var c :| c in s && In(m, c.parts);
      var k :| 0 <= k < |s| && s[k] == c;
      var x := RowOf(cs, B[k], cs.numVars - 1, m);
      assert RowAmong(cs, B[k], cs.numVars - 1, x, B1);
      var j :| 0 <= j < |B1| && B1[j] == Row(cs, B[k], cs.numVars - 1, cs.numVars, x);
      assert rows[j] in rows;
    }
  }

  /** sf_contain(unravel(F, num_vars - 1)) */
  method Unwrap(cs: Shape, F: Cover, D: seq<Cube>, ghost bb: seq<Cube>, ghost original: seq<Cube>)
    requires Sane(cs, bb, original, F.cubes, D) && cs.numVars > 0
    modifies F
    ensures Sane(cs, bb, original, F.cubes, D)
  {
    hide OnSet, Keeps, Unravelled, OffSet, Fits, Dominates;
    ghost var s := F.cubes;
    var B: seq<set<nat>> := seq(|F.cubes|, k requires 0 <= k < |F.cubes| reads F => F.cubes[k].parts);
    UnwrapFits(cs, bb, s, B);
    var B1 := UnravelFrom(cs, B, cs.numVars - 1);
    var rows := AsCubes(B1);
    F.cubes := SfContain(rows);
    UnwrapOnSet(cs, bb, s, B, B1, rows);
    UnwrapKeeps(cs, bb, s, B, B1, rows, D);
    OnSetSubset(cs, bb, rows, F.cubes);
    DominatesKeeps(cs, rows, F.cubes, D);
    KeepsTrans(cs, original, s, rows, D);
    KeepsTrans(cs, original, rows, F.cubes, D);
  }

  // ---------- espresso ----------

  method ResetPrime(F: Cover)
    modifies F
    ensures |F.cubes| == |old(F.cubes)| &&
      forall k :: 0 <= k < |F.cubes| ==> F.cubes[k] == old(F.cubes)[k].(prime := false)
  {
    for k := 0 to |F.cubes|
      invariant |F.cubes| == |old(F.cubes)|
      invariant forall j :: 0 <= j < k ==> F.cubes[j] == old(F.cubes)[j].(prime := false)
      invariant forall j :: k <= j < |F.cubes| ==> F.cubes[j] == old(F.cubes)[j]
    {
      F.cubes := F.cubes[k := F.cubes[k].(prime := false)];
    }
  }

  lemma SaneParts(cs: Shape, bb: seq<Cube>, original: seq<Cube>, s: seq<Cube>, t: seq<Cube>, D: seq<Cube>)
    requires Sane(cs, bb, original, s, D) && |t| == |s| && forall k :: 0 <= k < |s| ==> t[k].parts == s[k].parts
    ensures Sane(cs, bb, original, t, D)
  {
    forall k | 0 <= k < |t| ensures OnCube(cs, bb, t[k].parts) {
      assert OnCube(cs, bb, s[k].parts);
    }
    forall m | cs.Minterm(m) && Covered(m, original) && !Covered(m, D) ensures Covered(m, t) {
      var c :| c in s && In(m, c.parts);
      var k :| 0 <= k < |s| && s[k] == c;
      assert t[k] in t;
    }
  }

  /** simplify makes a cover of the same minterms, without void cubes: it misses the OFF-set too. */
  lemma SimplifiedSane(cs: Shape, bb: seq<Cube>, original: seq<Cube>, s: seq<Cube>, t: seq<Cube>, D: seq<Cube>)
    requires Sane(cs, bb, original, s, D) && Simplified(cs, s, {}, t)
    ensures Sane(cs, bb, original, t, D)
  {
    OnSetInDomain(cs, bb, s);
    forall k | 0 <= k < |t| ensures OnCube(cs, bb, t[k].parts) {
      assert t[k] in t;
      forall v | 0 <= v < cs.numVars ensures t[k].parts * cs.varMask[v] != {} {
        assert (t[k].parts - {}) * cs.varMask[v] != {};
        assert t[k].parts - {} == t[k].parts;
      }
      SimplifiedOrthogonal(cs, bb, s, t, k);
    }
    forall m | cs.Minterm(m) && Covered(m, s) ensures Covered(m, t) {
      SameMinterms(cs, s, t, m);
    }
  }

  lemma OnSetInDomain(cs: Shape, bb: seq<Cube>, s: seq<Cube>)
    requires OnSet(cs, bb, s)
    ensures HasDomain(cs, {}) && InDomain(cs, s, {})
  {
    forall v | 0 <= v < cs.numVars ensures cs.varMask[v] - {} != {} {
      assert cs.firstPart[v] in cs.varMask[v] - {};
    }
    forall c | c in s ensures c.parts <= cs.fullset && NonVoid(cs, c.parts) && c.parts - {} == c.parts {
      var k := Position(s, c);
      assert OnCube(cs, bb, s[k].parts);
    }
  }

  lemma SameMinterms(cs: Shape, s: seq<Cube>, t: seq<Cube>, m: seq<nat>)
    requires Simplified(cs, s, {}, t) && cs.Minterm(m)
    ensures Covered(m, s) <==> Covered(m, t)
  {
    assert OnDom(cs, {}, m);
    AppendCovered(m, s, []);
    assert s + [] == s;
  }

  lemma SimplifiedOrthogonal(cs: Shape, bb: seq<Cube>, s: seq<Cube>, t: seq<Cube>, k: nat)
    requires OnSet(cs, bb, s) && Simplified(cs, s, {}, t) && k < |t|
    ensures Orthogonal(cs, bb, t[k].parts)
  {
    forall j | 0 <= j < |bb| ensures !Distance0(cs, bb[j].parts, t[k].parts) {
      if Distance0(cs, bb[j].parts, t[k].parts) {
        var m := CommonMinterm(cs, bb[j].parts, t[k].parts);
        assert t[k] in t && Covered(m, t);
        SameMinterms(cs, s, t, m);
        var c :| c in s && In(m, c.parts);
        var i := Position(s, c);
        assert OnCube(cs, bb, s[i].parts);
        SharedMinterm(cs, bb[j].parts, c.parts, m);
      }
    }
  }

  lemma SharedMinterm(cs: Shape, a: set<nat>, b: set<nat>, m: seq<nat>)
    requires cs.Minterm(m) && In(m, a) && In(m, b)
    ensures Distance0(cs, a, b)
  {
    forall v | 0 <= v < cs.numVars ensures a * b * cs.varMask[v] != {} {
      assert m[v] in a * b * cs.varMask[v];
    }
  }

  /** recompute_onset: simplify(cube1list(F)) */
  method Recompute(cs: Shape, F: Cover, D: seq<Cube>, ghost bb: seq<Cube>, ghost original: seq<Cube>)
    requires Sane(cs, bb, original, F.cubes, D)
    modifies F
    ensures Sane(cs, bb, original, F.cubes, D)
  {
    ghost var s := F.cubes;
    OnSetInDomain(cs, bb, s);
    var T := new CubeList({}, F.cubes);
    F.cubes := Simplify(cs, T);
    SimplifiedSane(cs, bb, original, s, F.cubes, D);
  }

  /** Setup, and the initial expand and irredundant. */
  method FirstPass(cs: Shape, F: Cover, D: seq<Cube>, R: Cover, recompute: bool, unwrap: bool,
                   ghost original: seq<Cube>)
    requires F != R && Sane(cs, R.cubes, original, F.cubes, D) && cs.numVars > 0
    modifies F, R
    ensures Sane(cs, R.cubes, original, F.cubes, D) && PartsKept(old(R.cubes), R.cubes)
  {
    ghost var bb := R.cubes;
    if recompute {
      Recompute(cs, F, D, R.cubes, original);
    }
    var cost := CoverCostOf(cs, F.cubes);
    var partSize := cs.lastPart[cs.numVars - 1] - cs.firstPart[cs.numVars - 1] + 1;
    if unwrap && partSize > 1 && cost.outLits != cost.cubes * partSize && cost.outLits < 5000 {
      Unwrap(cs, F, D, R.cubes, original);
    }
    ghost var s := F.cubes;
    ResetPrime(F);
    SaneParts(cs, R.cubes, original, s, F.cubes, D);
    ExpandPhase(cs, F, D, R, original);
    ghost var work, marked := IrredundantPhase(cs, F, D, R.cubes, original);
  }

  lemma AppendEssential(cs: Shape, bb: seq<Cube>, original: seq<Cube>, F: seq<Cube>, E: seq<Cube>, D1: seq<Cube>)
    requires Sane(cs, bb, original, F, D1 + E) && OnSet(cs, bb, E)
    ensures OnSet(cs, bb, F + E) && Keeps(cs, original, F + E, D1)
  {
    forall k | 0 <= k < |F + E| ensures OnCube(cs, bb, (F + E)[k].parts) {
      if k < |F| {
        assert OnCube(cs, bb, F[k].parts);
      } else {
        assert OnCube(cs, bb, E[k - |F|].parts);
      }
    }
    forall m | cs.Minterm(m) && Covered(m, original) ensures Covered(m, F + E) || Covered(m, D1) {
      CoveredAppend(m, F, E);
      CoveredAppend(m, D1, E);
    }
  }

  /** The essential primes set aside, the two loops, and the essential primes back. */
  method Iterate(cs: Shape, F: Cover, D1: seq<Cube>, R: Cover, options: Options, toggle0: bool, fuel: nat,
                 ghost original: seq<Cube>)
    returns (outcome: Outcome, toggle: bool)
    requires F != R && Sane(cs, R.cubes, original, F.cubes, D1) && cs.numVars > 0
    modifies F, R
    ensures PartsKept(old(R.cubes), R.cubes) && OffSet(cs, R.cubes)
    ensures !options.useSuperGasp ==> outcome != GaveUp
    ensures outcome == Returned ==> Sane(cs, R.cubes, original, F.cubes, D1)
  {
    ghost var bb := R.cubes;
    var E: seq<Cube> := [];
    var D := D1;
    if options.removeEssential {
      E, D := EssentialPhase(cs, F, D1, R.cubes, original);
    } else {
      assert D == D1 + E;
    }
    outcome, toggle := OuterLoop(cs, F, D, R, options.useSuperGasp, toggle0, fuel, original);
    if outcome == Returned {
      OnSetKept(cs, bb, R.cubes, E);
      AppendEssential(cs, R.cubes, original, F.cubes, E, D1);
      F.cubes := F.cubes + E;
    }
  }

  /** One run from the label `begin` to the check of the result. */
  method OneRun(cs: Shape, F: Cover, D1: seq<Cube>, R: Cover, options: Options, toggle0: bool, fuel: nat,
                ghost original: seq<Cube>)
    returns (outcome: Outcome, toggle: bool)
    requires F != R && Sane(cs, R.cubes, original, F.cubes, D1) && cs.numVars > 0
    modifies F, R
    ensures PartsKept(old(R.cubes), R.cubes) && OffSet(cs, R.cubes)
    ensures !options.useSuperGasp ==> outcome != GaveUp
    ensures outcome == Returned ==> Sane(cs, R.cubes, original, F.cubes, D1)
  {
    ghost var bb := R.cubes;
    FirstPass(cs, F, D1, R, options.recomputeOnset, options.unwrapOnset, original);
    outcome, toggle := Returned, toggle0;
    if !options.singleExpand {
      ghost var bb1 := R.cubes;
      outcome, toggle := Iterate(cs, F, D1, R, options, toggle, fuel, original);
      if outcome != Returned {
        return;
      }
    }
    if !options.skipMakeSparse {
      SparsePhase(cs, F, D1, R, options.forceIrredundant, original);
    }
  }

  method SparsePhase(cs: Shape, F: Cover, D1: seq<Cube>, R: Cover, forceIrredundant: bool, ghost original: seq<Cube>)
    requires F != R && Sane(cs, R.cubes, original, F.cubes, D1)
    modifies F, R
    ensures PartsKept(old(R.cubes), R.cubes) && Sane(cs, R.cubes, original, F.cubes, D1)
  {
    ghost var s := F.cubes;
    OnSetNear(cs, R.cubes, s);
    MakeSparse(cs, F, D1, R, forceIrredundant);
    KeepsTrans(cs, original, s, F.cubes, D1);
  }

  /** espresso -- a result with more cubes than the original is thrown away, and the run repeated without unwrapping. */
  method Espresso(cs: Shape, Fsave: seq<Cube>, D1: seq<Cube>, R: Cover, options: Options, fuel: nat)
    returns (outcome: Outcome, F: Cover)
    requires OffSet(cs, R.cubes) && OnSet(cs, R.cubes, Fsave) && Fits(cs, D1, {}) && cs.numVars > 0
    modifies R
    ensures fresh(F) && PartsKept(old(R.cubes), R.cubes)
    ensures !options.useSuperGasp ==> outcome != GaveUp
    ensures outcome == Returned ==> OnSet(cs, R.cubes, F.cubes) && Keeps(cs, Fsave, F.cubes, D1) && |F.cubes| <= |Fsave|
  {
    ghost var bb := R.cubes;
    var current, toggle := options, true;
    F := new Cover(Fsave);
    for n := 0 to fuel
      invariant fresh(F) && F.cubes == Fsave && current.useSuperGasp == options.useSuperGasp
      invariant PartsKept(bb, R.cubes) && OffSet(cs, R.cubes) && OnSet(cs, R.cubes, Fsave)
    {
      ghost var bb1 := R.cubes;
      assert Keeps(cs, Fsave, F.cubes, D1);
      outcome, toggle := OneRun(cs, F, D1, R, current, toggle, fuel, Fsave);
      if outcome != Returned || |F.cubes| <= |Fsave| {
        return;
      }
      OnSetKept(cs, bb1, R.cubes, Fsave);
      F := new Cover(Fsave);
      current := current.(unwrapOnset := false);
    }
    outcome := OutOfFuel;
  }

  // ---------- verify ----------

  /** Cube c is not void, and A and D hold all its minterms. */
  ghost predicate CubeHeld(cs: Shape, A: seq<Cube>, D: seq<Cube>, c: Cube) {
    NonVoid(cs, c.parts) && CubeCovered(cs, A + D, -1, c.parts, All)
  }

  ghost predicate AllCubesHeld(cs: Shape, F: seq<Cube>, A: seq<Cube>, D: seq<Cube>) {
    forall c :: c in F ==> CubeHeld(cs, A, D, c)
  }

  /** One direction of verify; the loop stops at the first error. */
  method CheckHeld(cs: Shape, F: seq<Cube>, A: seq<Cube>, D: seq<Cube>) returns (error: bool)
    ensures error <==> !AllCubesHeld(cs, F, A, D)
  {
    var FD := new CubeList({}, A + D);
    for k := 0 to |F|
      invariant FD.cof == {} && FD.cubes == A + D
      invariant forall j :: 0 <= j < k ==> CubeHeld(cs, A, D, F[j])
    {
      var covered := CubeIsCovered(cs, FD, -1, F[k].parts);
      if !covered {
        assert F[k] in F;
        return true;
      }
    }
    error := false;
  }

  /** verify */
  method Verify(cs: Shape, F: seq<Cube>, Fold: seq<Cube>, Dold: seq<Cube>) returns (verifyError: bool)
    ensures verifyError <==> !(AllCubesHeld(cs, F, Fold, Dold) && AllCubesHeld(cs, Fold, F, Dold))
  {
    var larger := CheckHeld(cs, F, Fold, Dold);
    var smaller := CheckHeld(cs, Fold, F, Dold);
    verifyError := larger || smaller;
  }

  lemma HeldBySemantics(cs: Shape, A: seq<Cube>, D: seq<Cube>, c: Cube)
    requires NonVoid(cs, c.parts)
    requires forall m :: cs.Minterm(m) && In(m, c.parts) ==> Covered(m, A) || Covered(m, D)
    ensures CubeHeld(cs, A, D, c)
  {
    forall m | cs.Minterm(m) && In(m, c.parts)
      ensures exists k :: 0 <= k < |A + D| && k != -1 && Uses(All, (A + D)[k]) && In(m, (A + D)[k].parts)
    {
      CoveredAppend(m, A, D);
      var x :| x in A + D && In(m, x.parts);
      var k :| 0 <= k < |A + D| && (A + D)[k] == x;
    }
  }

  /**
   What espresso and the exact minimizer promise is what verify checks: with F, D and R a partition of
   the space, a cover that misses R and with D holds F passes.
   */
  lemma ResultVerifies(cs: Shape, F: seq<Cube>, Fold: seq<Cube>, D: seq<Cube>, R: seq<Cube>)
    requires Complementary(cs, Fold, D, R) && OnSet(cs, R, F) && OnSet(cs, R, Fold) && Keeps(cs, Fold, F, D)
    ensures AllCubesHeld(cs, F, Fold, D) && AllCubesHeld(cs, Fold, F, D)
  {
    forall c | c in F ensures CubeHeld(cs, Fold, D, c) {
      var k :| 0 <= k < |F| && F[k] == c;
      assert OnCube(cs, R, F[k].parts);
      OrthogonalImplicant(cs, Fold, D, R, c.parts);
      forall m | cs.Minterm(m) && In(m, c.parts) ensures Covered(m, Fold) || Covered(m, D) {
        assert OnDom(cs, {}, m);
        AppendCovered(m, Fold, D);
      }
      HeldBySemantics(cs, Fold, D, c);
    }
    forall c | c in Fold ensures CubeHeld(cs, F, D, c) {
      var k :| 0 <= k < |Fold| && Fold[k] == c;
      assert OnCube(cs, R, Fold[k].parts);
      forall m | cs.Minterm(m) && In(m, c.parts) ensures Covered(m, F) || Covered(m, D) {
        assert Covered(m, Fold);
      }
      HeldBySemantics(cs, F, D, c);
    }
  }

  /** Only a verified result is right: no error means that F and D hold exactly what Fold and D hold. */
  lemma VerifiedMeans(cs: Shape, F: seq<Cube>, Fold: seq<Cube>, D: seq<Cube>)
    requires AllCubesHeld(cs, F, Fold, D) && AllCubesHeld(cs, Fold, F, D)
    ensures SameUnion(cs, Fold, F, D)
  {
    forall m | cs.Minterm(m) ensures Covered(m, Fold) || Covered(m, D) <==> Covered(m, F) || Covered(m, D) {
      if Covered(m, F) {
        HeldMinterm(cs, F, Fold, D, m);
      }
      if Covered(m, Fold) {
        HeldMinterm(cs, Fold, F, D, m);
      }
    }
  }

  lemma HeldMinterm(cs: Shape, F: seq<Cube>, A: seq<Cube>, D: seq<Cube>, m: seq<nat>)
    requires AllCubesHeld(cs, F, A, D) && cs.Minterm(m) && Covered(m, F)
    ensures Covered(m, A) || Covered(m, D)
  {
    var c :| c in F && In(m, c.parts);
    assert CubeHeld(cs, A, D, c);
    var k :| 0 <= k < |A + D| && k != -1 && Uses(All, (A + D)[k]) && In(m, (A + D)[k].parts);
    assert (A + D)[k] in A + D;
    CoveredAppend(m, A, D);
  }
}
