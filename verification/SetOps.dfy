/** setc.c: distance, consensus and forced lowering, variable by variable. */
module SetOps {
  import opened Cubes

  /** a and b have no common part in variable v. */
  predicate ConflictIn(cs: Shape, a: set<nat>, b: set<nat>, v: nat)
    requires v < cs.numVars
  {
    a * b * cs.varMask[v] == {}
  }

  /** The number of conflicting variables among the first n. */
  function Distance(cs: Shape, a: set<nat>, b: set<nat>, n: nat): nat
    requires n <= cs.numVars
  {
    if n == 0 then 0 else Distance(cs, a, b, n - 1) + if ConflictIn(cs, a, b, n - 1) then 1 else 0
  }

  lemma {:induction false} DistanceGrows(cs: Shape, a: set<nat>, b: set<nat>, n: nat, n': nat)
    requires n <= n' <= cs.numVars
    ensures Distance(cs, a, b, n) <= Distance(cs, a, b, n')
  {
    if n < n' {
      DistanceGrows(cs, a, b, n, n' - 1);
    }
  }

  /** cdist01 -- the number of conflicting variables, or 2 if it exceeds 1. */
  method Cdist01(cs: Shape, a: set<nat>, b: set<nat>) returns (dist: nat)
    ensures var d := Distance(cs, a, b, cs.numVars); dist == if d <= 1 then d else 2
  {
    dist := 0;
    for v := 0 to cs.numVars
      invariant dist == Distance(cs, a, b, v) <= 1
    {
      if ConflictIn(cs, a, b, v) {
        dist := dist + 1;
        if dist > 1 {
          DistanceGrows(cs, a, b, v + 1, cs.numVars);
          return 2;
        }
      }
    }
  }

  /** Distance 0: no conflict. */
  lemma {:induction false} NoConflict(cs: Shape, a: set<nat>, b: set<nat>, n: nat)
    requires n <= cs.numVars
    ensures Distance(cs, a, b, n) == 0 <==> forall v :: 0 <= v < n ==> !ConflictIn(cs, a, b, v)
  {
    if n > 0 {
      NoConflict(cs, a, b, n - 1);
    }
  }

  /** cdist0 in terms of the distance. */
  lemma DistanceZero(cs: Shape, a: set<nat>, b: set<nat>)
    ensures Distance(cs, a, b, cs.numVars) == 0 <==> Distance0(cs, a, b)
  {
    NoConflict(cs, a, b, cs.numVars);
    forall v | 0 <= v < cs.numVars ensures ConflictIn(cs, a, b, v) <==> a * b * cs.varMask[v] == {} {
    }
  }

  /** v is the only conflicting variable below n. */
  ghost predicate OnlyConflict(cs: Shape, a: set<nat>, b: set<nat>, v: nat, n: nat)
    requires n <= cs.numVars
  {
    v < n && ConflictIn(cs, a, b, v) && forall u :: 0 <= u < n && u != v ==> !ConflictIn(cs, a, b, u)
  }

  /** Distance 1: a single conflict. */
  lemma {:induction false} OneConflict(cs: Shape, a: set<nat>, b: set<nat>, n: nat) returns (v: nat)
    requires n <= cs.numVars && Distance(cs, a, b, n) == 1
    ensures OnlyConflict(cs, a, b, v, n)
  {
    if ConflictIn(cs, a, b, n - 1) {
      NoConflict(cs, a, b, n - 1);
      v := n - 1;
    } else {
      v := OneConflict(cs, a, b, n - 1);
    }
  }

  lemma {:induction false} SingleConflict(cs: Shape, a: set<nat>, b: set<nat>, v: nat, n: nat)
    requires n <= cs.numVars && OnlyConflict(cs, a, b, v, n)
    ensures Distance(cs, a, b, n) == 1
  {
    if v == n - 1 {
      NoConflict(cs, a, b, n - 1);
    } else {
      SingleConflict(cs, a, b, v, n - 1);
    }
  }

  /** Part i of the consensus of a and b: common parts, or all parts of a conflicting variable. */
  ghost predicate InConsensus(cs: Shape, a: set<nat>, b: set<nat>, i: nat) {
    && i in cs.fullset
    && if !ConflictIn(cs, a, b, cs.partVar[i]) then i in a && i in b else i in a || i in b
  }

  ghost function ConsensusSet(cs: Shape, a: set<nat>, b: set<nat>): set<nat> {
    set i | i in cs.fullset && InConsensus(cs, a, b, i)
  }

  /** consensus */
  method Consensus(cs: Shape, a: set<nat>, b: set<nat>) returns (r: set<nat>)
    ensures r == ConsensusSet(cs, a, b)
  {
    r := {};
    for v := 0 to cs.numVars
      invariant forall i: nat :: i in r <==> InConsensus(cs, a, b, i) && cs.partVar[i] < v
    {
      var x := a * b * cs.varMask[v];
      if x != {} {
        r := r + x;
      } else {
        r := r + (a + b) * cs.varMask[v];
      }
      forall i: nat | i in cs.fullset ensures cs.partVar[i] == v <==> i in cs.varMask[v] {
      }
    }
  }

  /** Part i of `lowered`: a part of a in a variable where a and b conflict. */
  ghost predicate ForcedLow(cs: Shape, a: set<nat>, b: set<nat>, i: nat) {
    i in cs.fullset && i in a && ConflictIn(cs, a, b, cs.partVar[i])
  }

  /** force_lower -- add to xlower the parts of a in the variables in which a and b conflict. */
  method ForceLower(cs: Shape, xlower: set<nat>, a: set<nat>, b: set<nat>) returns (r: set<nat>)
    ensures forall i: nat :: i in r <==> i in xlower || ForcedLow(cs, a, b, i)
  {
    r := xlower;
    for v := 0 to cs.numVars
      invariant forall i: nat :: i in r <==> i in xlower || (ForcedLow(cs, a, b, i) && cs.partVar[i] < v)
    {
      if ConflictIn(cs, a, b, v) {
        r := r + a * cs.varMask[v];
      }
      forall i: nat | i in cs.fullset ensures cs.partVar[i] == v <==> i in cs.varMask[v] {
      }
    }
  }
}
