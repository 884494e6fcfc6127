/** essen.c: moving essential primes from the cover to the don't-care set. */
module EssentialPass {
  import opened Cubes
  import opened Cofactor
  import opened Containment
  import opened Irred
  import opened SetOps
  import opened ExpandPass
  import opened Sparse

  /** cb_consensus_dist0 -- the sharp-consensus of two cubes that meet. */
  method CbConsensusDist0(cs: Shape, p: set<nat>, c: set<nat>) returns (R: seq<Cube>)
    ensures forall r :: r in R ==> r.parts <= c
  {
    R := [];
    if p <= c {
      return;
    }
    var gotOne := false;
    for v := cs.numBinaryVars to cs.numVars
      invariant forall r :: r in R ==> r.parts <= c
    {
      var mask := cs.varMask[v];
      if (p - c) * mask != {} {
        R := R + [MkCube(c * mask + (p * c - mask))];
        gotOne := true;
      }
    }
    if !gotOne && cs.numBinaryVars > 0 {
      R := R + [MkCube(p * c)];
    }
  }

  /** cb_consensus -- consensus(T # c, c) */
  method CbConsensus(cs: Shape, T: seq<Cube>, c: set<nat>) returns (R: seq<Cube>)
  {
    R := [];
    for k := 0 to |T| {
      var dist := Cdist01(cs, T[k].parts, c);
      if dist == 0 {
        var more := CbConsensusDist0(cs, T[k].parts, c);
        R := R + more;
      } else if dist == 1 {
        var temp := Consensus(cs, T[k].parts, c);
        R := R + [MkCube(temp)];
      }
    }
  }

  /** essen_cube -- nothing below depends on the answer. */
  method EssenCube(cs: Shape, F: seq<Cube>, D: seq<Cube>, c: set<nat>) returns (essen: bool)
  {
    var H := CbConsensus(cs, F + D, c);
    var H1 := new CubeList({}, H + D);
    var covered := CubeIsCovered(cs, H1, -1, c);
    essen := !covered;
  }

  /** The cubes of F are shared out between kept and E, as far as n. */
  ghost predicate Shared(F: seq<Cube>, G: seq<Cube>, E: seq<Cube>, n: nat)
    requires n <= |F| == |G|
  {
    && (forall k :: 0 <= k < |F| ==> G[k].parts == F[k].parts)
    && (forall k :: n <= k < |F| ==> G[k].active)
    && (forall k :: 0 <= k < n && !G[k].active ==> HasParts(E, F[k].parts))
    && (forall e {:trigger HasParts(F, e.parts)} :: e in E ==> HasParts(F, e.parts))
  }

  lemma SharedStep(F: seq<Cube>, G: seq<Cube>, E: seq<Cube>, k: nat, c: Cube)
    requires k < |F| == |G| && Shared(F, G, E, k) && c == G[k]
    ensures Shared(F, G, E, k + 1)
    ensures Shared(F, G[k := c.(active := false)], E + [c], k + 1)
  {
    var E' := E + [c];
    assert E'[|E|] == c && c in E';
    assert F[k] in F && HasParts(F, c.parts);
    forall j | 0 <= j < k && !G[j].active ensures HasParts(E', F[j].parts) {
      assert HasParts(E, F[j].parts);
      var e :| e in E && e.parts == F[j].parts;
      assert e in E';
    }
  }

  /** essential -- returns the cubes moved to E; F keeps the others, and D grows by E. */
  method Essential(cs: Shape, F: Cover, D: seq<Cube>) returns (E: seq<Cube>, D': seq<Cube>)
    modifies F
    ensures D' == D + E
    ensures forall e :: e in E ==> HasParts(old(F.cubes), e.parts)
    ensures forall c :: c in F.cubes ==> HasParts(old(F.cubes), c.parts)
    ensures forall c :: c in old(F.cubes) ==> HasParts(F.cubes, c.parts) || HasParts(E, c.parts)
    ensures |F.cubes| <= |old(F.cubes)|
  {
    ghost var F0 := F.cubes;
    F.cubes := seq(|F.cubes|, k requires 0 <= k < |F.cubes| reads F => F.cubes[k].(active := true));
    F.activeCount := |F.cubes|;
    E := [];
    for k := 0 to |F.cubes|
      invariant |F.cubes| == |F0| && Shared(F0, F.cubes, E, k)
    {
      var p := F.cubes[k];
      ghost var G := F.cubes;
      SharedStep(F0, G, E, k, p);
      if !p.nonessen && p.relessen {
        var essen := EssenCube(cs, F.cubes, D, p.parts);
        if essen {
          E := E + [p];
          F.cubes := F.cubes[k := p.(active := false)];
          F.activeCount := F.activeCount - 1;
        }
      }
    }
    ghost var G := F.cubes;
    SfInactive(F);
    D' := D + E;
    SharedOut(F0, G, E, F.cubes);
  }

  lemma SharedOut(F: seq<Cube>, G: seq<Cube>, E: seq<Cube>, kept: seq<Cube>)
    requires |F| == |G| && Shared(F, G, E, |F|) && kept == ActiveOnly(G)
    ensures forall c :: c in kept ==> HasParts(F, c.parts)
    ensures forall c :: c in F ==> HasParts(kept, c.parts) || HasParts(E, c.parts)
  {
    forall c | c in kept ensures HasParts(F, c.parts) {
      var k :| 0 <= k < |G| && G[k] == c;
      assert F[k] in F;
    }
    forall c | c in F ensures HasParts(kept, c.parts) || HasParts(E, c.parts) {
      var k :| 0 <= k < |F| && F[k] == c;
      if G[k].active {
        assert G[k] in kept;
      }
    }
  }

  /** Nothing is lost: what F held, the rest of F and the grown D hold. */
  lemma EssentialKeeps(cs: Shape, F: seq<Cube>, kept: seq<Cube>, E: seq<Cube>, D: seq<Cube>)
    requires forall c :: c in F ==> HasParts(kept, c.parts) || HasParts(E, c.parts)
    ensures Keeps(cs, F, kept, D + E)
  {
    forall m | cs.Minterm(m) && Covered(m, F) ensures Covered(m, kept) || Covered(m, D + E) {
      var c :| c in F && In(m, c.parts);
      if HasParts(kept, c.parts) {
        var k :| k in kept && k.parts == c.parts;
        assert In(m, k.parts);
      } else {
        var e :| e in E && e.parts == c.parts;
        assert e in D + E && In(m, e.parts);
      }
    }
  }
}
