/** main.c: the minimizers run on the covers of a PLA, and verify on their results. */
module Commands {
  import opened Cubes
  import opened Containment
  import opened Espresso
  import opened ExactMinimization
  import opened ExpandPass
  import opened Gasp
  import opened Primes
  import opened Sparse

  /** With F, D and R a partition of the space, the cubes of F miss R. */
  lemma PartitionOnSet(cs: Shape, F: seq<Cube>, D: seq<Cube>, R: seq<Cube>)
    requires Complementary(cs, F, D, R) && Fits(cs, F, {}) && AllNonVoid(cs, F, {})
    ensures OnSet(cs, R, F)
  {
    forall k | 0 <= k < |F| ensures OnCube(cs, R, F[k].parts) {
      assert F[k] in F && F[k].parts + {} == F[k].parts;
      forall j | 0 <= j < |R| ensures !Distance0(cs, R[j].parts, F[k].parts) {
        if Distance0(cs, R[j].parts, F[k].parts) {
          var m := CommonMinterm(cs, R[j].parts, F[k].parts);
          assert R[j] in R && Covered(m, R) && Covered(m, F);
        }
      }
    }
  }

  /**
   A cover that keeps the minterms and misses the OFF-set passes verify exactly if no cube of it, and none of the
   ON-set given, is void.
   */
  lemma VoidCubesReported(cs: Shape, F: seq<Cube>, Fold: seq<Cube>, D: seq<Cube>, R: seq<Cube>)
    requires Complementary(cs, Fold, D, R) && Fits(cs, Fold, {}) && Fits(cs, F, {}) && Keeps(cs, Fold, F, D)
    requires forall c :: c in F ==> Orthogonal(cs, R, c.parts)
    ensures AllCubesHeld(cs, F, Fold, D) && AllCubesHeld(cs, Fold, F, D) <==>
            AllNonVoid(cs, F, {}) && AllNonVoid(cs, Fold, {})
  {
    if AllNonVoid(cs, F, {}) && AllNonVoid(cs, Fold, {}) {
      PartitionOnSet(cs, Fold, D, R);
      forall k | 0 <= k < |F| ensures OnCube(cs, R, F[k].parts) {
        assert F[k] in F && F[k].parts + {} == F[k].parts;
      }
      ResultVerifies(cs, F, Fold, D, R);
    }
    forall c | c in F || c in Fold ensures c.parts + {} == c.parts {
    }
  }

  /** The command ESPRESSO: espresso, then verify; a wrong result would be replaced by the original cover. */
  method RunEspresso(cs: Shape, Fold: seq<Cube>, D: seq<Cube>, R: Cover, options: Options, fuel: nat)
    returns (outcome: Outcome, F: Cover, error: bool)
    requires Fits(cs, Fold, {}) && Fits(cs, D, {}) && AllNonVoid(cs, Fold, {}) && cs.numVars > 0
    requires OffSet(cs, R.cubes) && Complementary(cs, Fold, D, R.cubes)
    modifies R
    ensures fresh(F) && PartsKept(old(R.cubes), R.cubes)
    ensures !options.useSuperGasp ==> outcome != GaveUp
    ensures outcome == Returned ==> !error && SameUnion(cs, Fold, F.cubes, D) && |F.cubes| <= |Fold|
  {
    ghost var bb := R.cubes;
    PartitionOnSet(cs, Fold, D, bb);
    outcome, F := Espresso.Espresso(cs, Fold, D, R, options, fuel);
    error := false;
    if outcome == Returned {
      OnSetKept(cs, bb, R.cubes, Fold);
      KeptComplementary(cs, Fold, D, bb, R.cubes);
      ResultVerifies(cs, F.cubes, Fold, D, R.cubes);
      VerifiedMeans(cs, F.cubes, Fold, D);
      error := Verify(cs, F.cubes, Fold, D);
      if error {
        F := new Cover(Fold);
      }
    }
  }

  /** A cover by implicants passes verify exactly when none of its cubes is void. */
  lemma ImplicantsVerify(cs: Shape, F: seq<Cube>, D: seq<Cube>, G: seq<Cube>)
    requires CoverOf(cs, F, D, G) && Fits(cs, F, {}) && AllNonVoid(cs, F, {})
    ensures AllCubesHeld(cs, G, F, D) && AllCubesHeld(cs, F, G, D) <==> AllNonVoid(cs, G, {})
  {
    forall c | c in F ensures CubeHeld(cs, G, D, c) {
      assert c.parts + {} == c.parts;
      forall m | cs.Minterm(m) && In(m, c.parts) ensures Covered(m, G) || Covered(m, D) {
        assert Covered(m, F);
      }
      HeldBySemantics(cs, G, D, c);
    }
    forall g | g in G ensures CubeHeld(cs, F, D, g) <==> NonVoid(cs, g.parts + {}) {
      assert g.parts + {} == g.parts;
      if NonVoid(cs, g.parts) {
        forall m | cs.Minterm(m) && In(m, g.parts) ensures Covered(m, F) || Covered(m, D) {
          assert OnDom(cs, {}, m);
          AppendCovered(m, F, D);
        }
        HeldBySemantics(cs, F, D, g);
      }
    }
  }

  /**
   The commands exact and qm: minimize_exact, then verify.  Without make_sparse the result may hold void
   cubes, and these, and nothing else, make verify fail, so that the original cover is kept.
   */
  method RunExact(cs: Shape, Fold: seq<Cube>, D: seq<Cube>, R: Cover, exactCover: bool, skipMakeSparse: bool,
                  forceIrredundant: bool)
    returns (F: Cover, error: bool, ghost result: seq<Cube>)
    requires Fits(cs, Fold + D, {}) && AllNonVoid(cs, Fold + D, {}) && cs.numVars > 0
    requires OffSet(cs, R.cubes) && Complementary(cs, Fold, D, R.cubes)
    modifies R
    ensures fresh(F) && PartsKept(old(R.cubes), R.cubes)
    ensures CoverOf(cs, Fold, D, result) && (error <==> !AllNonVoid(cs, result, {}))
    ensures F.cubes == if error then Fold else result
    ensures !error ==> SameUnion(cs, Fold, F.cubes, D)
    ensures !error && exactCover && (skipMakeSparse || cs.AllSparse()) ==> MinimumSize(cs, Fold, D, F.cubes)
    ensures !skipMakeSparse && cs.AllSparse() ==> !error
  {
    ghost var P;
    F, P := MinimizeExact(cs, Fold, D, R, exactCover, false, cs.numVars - 1, skipMakeSparse, forceIrredundant);
    result := F.cubes;
    error := Verify(cs, F.cubes, Fold, D);
    ExactOutcome(cs, Fold, D, R.cubes, P, result, exactCover, skipMakeSparse);
    if error {
      F := new Cover(Fold);
    }
  }

  /** What verify says about the result of minimize_exact. */
  lemma ExactOutcome(cs: Shape, Fold: seq<Cube>, D: seq<Cube>, bb: seq<Cube>, P: seq<Cube>, result: seq<Cube>,
                     exactCover: bool, skipMakeSparse: bool)
    requires Fits(cs, Fold + D, {}) && AllNonVoid(cs, Fold + D, {}) && CoverOf(cs, Fold, D, result)
    requires exactCover && !skipMakeSparse && cs.AllSparse() ==> MinimumSize(cs, Fold, D, result)
    requires exactCover && skipMakeSparse ==> Minimal(cs, Fold, D, P, result)
    requires !skipMakeSparse && cs.AllSparse() ==> OnSet(cs, bb, result)
    ensures var error := !(AllCubesHeld(cs, result, Fold, D) && AllCubesHeld(cs, Fold, result, D));
            && (error <==> !AllNonVoid(cs, result, {})) && (!skipMakeSparse && cs.AllSparse() ==> !error)
            && (!error ==> SameUnion(cs, Fold, result, D))
            && (!error && exactCover && (skipMakeSparse || cs.AllSparse()) ==> MinimumSize(cs, Fold, D, result))
  {
    FitsOnly(cs, Fold, D);
    ImplicantsVerify(cs, Fold, D, result);
    if !skipMakeSparse && cs.AllSparse() {
      OnSetNonVoid(cs, bb, result);
    } else if skipMakeSparse && exactCover && AllNonVoid(cs, result, {}) {
      MinimalNonVoid(cs, Fold, D, P, result);
    }
    if AllNonVoid(cs, result, {}) {
      VerifiedMeans(cs, result, Fold, D);
    }
  }

  lemma FitsOnly(cs: Shape, F: seq<Cube>, D: seq<Cube>)
    requires Fits(cs, F + D, {}) && AllNonVoid(cs, F + D, {})
    ensures Fits(cs, F, {}) && AllNonVoid(cs, F, {})
  {
    forall c | c in F ensures c.parts <= cs.fullset && NonVoid(cs, c.parts + {}) {
      assert c in F + D;
    }
  }

  lemma MinimalNonVoid(cs: Shape, F: seq<Cube>, D: seq<Cube>, P: seq<Cube>, G: seq<Cube>)
    requires CoverOf(cs, F, D, G) && Minimal(cs, F, D, P, G) && AllNonVoid(cs, G, {})
    ensures MinimumSize(cs, F, D, G)
  {
    MinimumIffNonVoid(cs, F, D, G);
    forall g | g in G ensures NonVoid(cs, g.parts) {
      assert g.parts + {} == g.parts;
    }
  }
}
