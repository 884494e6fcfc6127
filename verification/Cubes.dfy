/**
 The cube structure of a multiple-valued function, cubes in positional notation, and the
 minterms they stand for.  A cube is a set of parts; every part belongs to exactly one variable.
 */
module Cubes {

  /**
   The global `cube` record: how the parts 0..size-1 are divided among the variables.  partVar[i] is
   the variable of part i, which the source finds by comparing i with first_part and last_part.
   */
  datatype CubeStruct = CubeStruct(
    numBinaryVars: nat, numVars: nat, size: nat, firstPart: seq<nat>, lastPart: seq<nat>,
    varMask: seq<set<nat>>, partVar: seq<nat>, fullset: set<nat>, sparse: seq<bool>)
  {
    ghost predicate Valid() {
      && |firstPart| == |lastPart| == |varMask| == |sparse| == numVars
      && |partVar| == size
      && numBinaryVars <= numVars
      && (forall i :: i in fullset <==> 0 <= i < size)
      && (forall i :: 0 <= i < size ==> partVar[i] < numVars)
      && (forall v :: 0 <= v < numVars ==> firstPart[v] <= lastPart[v] < size)
      && (forall v, i {:trigger i in varMask[v]} :: 0 <= v < numVars ==>
            (i in varMask[v] <==> 0 <= i < size && partVar[i] == v))
      && (forall v, i {:trigger i in varMask[v]} :: 0 <= v < numVars ==>
            (i in varMask[v] <==> firstPart[v] <= i <= lastPart[v]))
      && (forall v :: 0 <= v < numBinaryVars ==> lastPart[v] == firstPart[v] + 1)
      && (forall v :: 0 <= v < numVars && sparse[v] ==> numBinaryVars <= v)
      && (numBinaryVars < numVars ==> sparse[numVars - 1])
    }

    /** As cube_setup leaves it: every variable that is not binary is sparse.  Pairing changes that. */
    ghost predicate AllSparse()
      requires Valid()
    {
      forall v :: numBinaryVars <= v < numVars ==> sparse[v]
    }

    /** A minterm picks one part of every variable. */
    ghost predicate Minterm(m: seq<nat>)
      requires Valid()
    {
      |m| == numVars && forall v :: 0 <= v < numVars ==> m[v] in varMask[v]
    }
  }

  type Shape = cs: CubeStruct | cs.Valid() witness CubeStruct(0, 0, 0, [], [], [], [], {}, [])

  /** A cube of a cover: its parts, and its header word (the SIZE field and the flags). */
  datatype Cube = Cube(parts: set<nat>, size: nat, redund: bool, active: bool, prime: bool,
                       covered: bool, nonessen: bool, relessen: bool)

  /** Minterm m lies in the cube with parts p. */
  ghost predicate In(m: seq<nat>, p: set<nat>) {
    forall v :: 0 <= v < |m| ==> m[v] in p
  }

  /** Which cubes of a list take part: all of them, or the non-redundant ones and the chosen redundant ones. */
  datatype Selection = All | Only(ids: set<nat>)

  ghost predicate Uses(s: Selection, c: Cube) {
    s.All? || !c.redund || c.size in s.ids
  }

  /** Some participating cube, or-ed with cof, holds m. */
  ghost predicate CoveredBy(m: seq<nat>, cubes: seq<Cube>, cof: set<nat>, s: Selection) {
    exists c :: c in cubes && Uses(s, c) && In(m, c.parts + cof)
  }

  /** Every minterm is covered: the tautology question for the cubelist (cof, cubes). */
  ghost predicate Tautologous(cs: Shape, cubes: seq<Cube>, cof: set<nat>, s: Selection) {
    forall m :: cs.Minterm(m) ==> CoveredBy(m, cubes, cof, s)
  }

  /** The cubes a and b have a common part in every variable (`cdist0`). */
  predicate Distance0(cs: Shape, a: set<nat>, b: set<nat>) {
    forall v :: 0 <= v < cs.numVars ==> a * b * cs.varMask[v] != {}
  }

  /** Parts p leave no variable empty. */
  predicate NonVoid(cs: Shape, p: set<nat>) {
    forall v :: 0 <= v < cs.numVars ==> p * cs.varMask[v] != {}
  }

  /** A set family (`pcover`). */
  class Cover {
    var cubes: seq<Cube>
    var activeCount: int

    constructor (cubes: seq<Cube>)
      ensures this.cubes == cubes
    {
      this.cubes, this.activeCount := cubes, 0;
    }
  }

  /** Minterm m lies in some cube of the cover. */
  ghost predicate Covered(m: seq<nat>, cubes: seq<Cube>) {
    exists c :: c in cubes && In(m, c.parts)
  }

  /** Two covers hold the same minterms, up to those of the don't-care cover D. */
  ghost predicate SameUnion(cs: Shape, A: seq<Cube>, B: seq<Cube>, D: seq<Cube>) {
    forall m :: cs.Minterm(m) ==> (Covered(m, A) || Covered(m, D) <==> Covered(m, B) || Covered(m, D))
  }

  lemma CoveredAppend(m: seq<nat>, A: seq<Cube>, B: seq<Cube>)
    ensures Covered(m, A + B) <==> Covered(m, A) || Covered(m, B)
  {
    if Covered(m, A + B) {
      var c :| c in A + B && In(m, c.parts);
    }
    if Covered(m, A) || Covered(m, B) {
      var c :| (c in A || c in B) && In(m, c.parts);
      assert c in A + B;
    }
  }

  /** A larger cube is not void either. */
  lemma NonVoidGrows(cs: Shape, p: set<nat>, q: set<nat>)
    requires NonVoid(cs, p) && p <= q
    ensures NonVoid(cs, q)
  {
    forall v | 0 <= v < cs.numVars ensures q * cs.varMask[v] != {} {
      var i :| i in p * cs.varMask[v];
      assert i in q * cs.varMask[v];
    }
  }

  /** The active cubes of s. */
  ghost function ActiveOnly(s: seq<Cube>): (r: seq<Cube>)
    ensures |r| <= |s|
    ensures forall c :: c in r <==> c in s && c.active
  {
    if s == [] then [] else
      var n := |s| - 1;
      ActiveOnly(s[..n]) + (if s[n].active then [s[n]] else [])
  }

  /** sf_inactive -- remove all inactive cubes. */
  method SfInactive(A: Cover)
    modifies A
    ensures A.cubes == ActiveOnly(old(A.cubes)) && A.activeCount == old(A.activeCount)
  {
    var kept: seq<Cube> := [];
    for k := 0 to |A.cubes|
      invariant unchanged(A)
      invariant kept == ActiveOnly(A.cubes[..k])
    {
      assert A.cubes[..k + 1][..k] == A.cubes[..k];
      if A.cubes[k].active {
        kept := kept + [A.cubes[k]];
      }
    }
    assert A.cubes[..|A.cubes|] == A.cubes;
    A.cubes := kept;
  }
}
