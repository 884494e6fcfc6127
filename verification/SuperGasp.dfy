/** expand.c: all_primes; gasp.c: super_gasp. */
module SuperGasp {
  import opened Cubes
  import opened Containment
  import opened ExpandPass
  import opened Gasp
  import opened Primes
  import opened Redundancy
  import opened SetOps
  import opened Sparse
  import opened Unravel
  import U = Unate

  // ---------- primes and transversals ----------

  /** p is a prime that contains c: it misses the OFF-set, and no larger cube does. */
  ghost predicate PrimeAbove(cs: Shape, bb: seq<Cube>, c: set<nat>, p: set<nat>) {
    c <= p <= cs.fullset && Orthogonal(cs, bb, p) && forall q :: p < q <= cs.fullset ==> !Orthogonal(cs, bb, q)
  }

  /** The cube c with all parts that can be raised one by one. */
  ghost function Overexpanded(cs: Shape, bb: seq<Cube>, c: set<nat>): set<nat> {
    set i | i in cs.fullset && !LoweredBy(cs, bb, c, i)
  }

  ghost predicate NoneVoid(cs: Shape, bb: seq<Cube>) {
    forall k :: 0 <= k < |bb| ==> NonVoid(cs, bb[k].parts)
  }

  /** Every row has a part of each variable that the set has one of. */
  lemma RowPart(cs: Shape, b: set<nat>, x: nat, v: nat) returns (j: nat)
    requires v < cs.numVars && b <= cs.fullset && b * cs.varMask[v] != {}
    ensures j in Row(cs, b, cs.numBinaryVars, cs.numVars, x) && j in b * cs.varMask[v]
  {
    if v < cs.numBinaryVars || !Expanded(cs, b, v) {
      j :| j in b * cs.varMask[v];
    } else {
      PickedMember(cs, b, v, x);
      j := Picked(cs, b, v, x);
    }
    assert cs.partVar[j] == v;
    assert InRow(cs, b, cs.numBinaryVars, cs.numVars, x, j);
  }

  /** What a cube that misses the OFF-set leaves out meets every row. */
  lemma MissingHits(cs: Shape, p: set<nat>, raise: set<nat>, b: set<nat>, q: set<nat>, x: nat)
    requires LowerSet(cs, p, raise, b) && p <= cs.fullset && NonVoid(cs, p)
    requires raise <= q && !Distance0(cs, p, q)
    ensures Row(cs, b, cs.numBinaryVars, cs.numVars, x) * (cs.fullset - q) != {}
  {
    var v :| 0 <= v < cs.numVars && p * q * cs.varMask[v] == {};
    assert p * raise * cs.varMask[v] <= p * q * cs.varMask[v];
    forall i | i in p * cs.varMask[v] ensures i in b * cs.varMask[v] {
      assert ForcedLow(cs, p, raise, i);
    }
    forall i | i in b ensures i in p && i in cs.fullset {
      assert ForcedLow(cs, p, raise, i);
    }
    var j := RowPart(cs, b, x, v);
    assert j in p * cs.varMask[v] && j !in p * q * cs.varMask[v];
    assert j in Row(cs, b, cs.numBinaryVars, cs.numVars, x) * (cs.fullset - q);
  }

  /** The rows: what the sets unravel into, without those that contain another one. */
  ghost predicate RowsOf(cs: Shape, B: seq<set<nat>>, B1: seq<set<nat>>, B2: seq<set<nat>>) {
    && Unravelled(cs, B, cs.numBinaryVars, |B|, B1)
    && (forall p :: p in B2 ==> p in B1)
    && (forall p {:trigger U.HasSubset(B2, p)} :: p in B1 ==> U.HasSubset(B2, p))
  }

  /** The parts that q leaves out meet all rows. */
  lemma MissingTransversal(cs: Shape, bb: seq<Cube>, raise: set<nat>, B: seq<set<nat>>, of: seq<nat>, B1: seq<set<nat>>,
                           B2: seq<set<nat>>, q: set<nat>)
    requires PartsFit(cs, bb) && NoneVoid(cs, bb) && LowerSets(cs, bb, raise, B, of) && RowsOf(cs, B, B1, B2)
    requires raise <= q && Orthogonal(cs, bb, q)
    ensures U.HitsAll(B2, cs.fullset - q)
  {
    forall k | 0 <= k < |B2| ensures B2[k] * (cs.fullset - q) != {} {
      assert B2[k] in B2;
      var j := SetPosition(B1, B2[k]);
      assert FromSome(cs, B, cs.numBinaryVars, |B|, B1[j]);
      var i, x: nat :| 0 <= i < |B| && x < Product(cs, B[i], cs.numBinaryVars) &&
        B1[j] == Row(cs, B[i], cs.numBinaryVars, cs.numVars, x);
      MissingHits(cs, bb[of[i]].parts, raise, B[i], q, x);
    }
  }

  lemma SetPosition(s: seq<set<nat>>, p: set<nat>) returns (i: nat)
    requires p in s
    ensures i < |s| && s[i] == p
  {
    i :| 0 <= i < |s| && s[i] == p;
  }

  /** A transversal of the rows kept is one of all rows. */
  lemma HitsRowsToo(cs: Shape, B: seq<set<nat>>, B1: seq<set<nat>>, B2: seq<set<nat>>, S: set<nat>)
    requires RowsOf(cs, B, B1, B2) && U.HitsAll(B2, S)
    ensures Hits(S, B1, |B1|)
  {
    forall k | 0 <= k < |B1| ensures B1[k] * S != {} {
      assert B1[k] in B1 && U.HasSubset(B2, B1[k]);
      var j :| 0 <= j < |B2| && B2[j] <= B1[k];
      var i :| i in B2[j] * S;
      assert i in B1[k] * S;
    }
  }

  /** A raised part is in no row. */
  lemma RaisedInNoRow(cs: Shape, bb: seq<Cube>, raise: set<nat>, B: seq<set<nat>>, of: seq<nat>, B1: seq<set<nat>>,
                      B2: seq<set<nat>>, i: nat)
    requires LowerSets(cs, bb, raise, B, of) && RowsOf(cs, B, B1, B2) && i in raise
    ensures forall k :: 0 <= k < |B2| ==> i !in B2[k]
  {
    forall k | 0 <= k < |B2| ensures i !in B2[k] {
      assert B2[k] in B2;
      var j := SetPosition(B1, B2[k]);
      assert FromSome(cs, B, cs.numBinaryVars, |B|, B1[j]);
      var n, x: nat :| 0 <= n < |B| && x < Product(cs, B[n], cs.numBinaryVars) &&
        B1[j] == Row(cs, B[n], cs.numBinaryVars, cs.numVars, x);
      if i in cs.fullset && i in bb[of[n]].parts {
        assert i in cs.varMask[cs.partVar[i]];
        assert i in bb[of[n]].parts * raise * cs.varMask[cs.partVar[i]];
      }
      assert !ForcedLow(cs, bb[of[n]].parts, raise, i);
    }
  }

  /** Every transversal contains a minimal one. */
  lemma {:induction false} MinimalWithin(A: seq<set<nat>>, S: set<nat>) returns (M: set<nat>)
    requires U.HitsAll(A, S)
    ensures U.MinimalTransversal(A, M) && M <= S
    decreases |S|
  {
    if T :| T < S && U.HitsAll(A, T) {
      assert |S| == |T| + |S - T| by { assert S == T + (S - T); }
      assert S - T != {};
      M := MinimalWithin(A, T);
    } else {
      M := S;
    }
  }

  // ---------- find_all_primes ----------

  /** The cubes are the raised one plus what a minimal transversal leaves free. */
  ghost predicate FromTransversals(rows: seq<set<nat>>, raise: set<nat>, free: set<nat>, Q: seq<Cube>) {
    && (forall q :: q in Q ==> exists S :: U.MinimalTransversal(rows, S) && q.parts == raise + (free - S))
    && (forall S :: U.MinimalTransversal(rows, S) ==> HasParts(Q, raise + (free - S)))
  }

  ghost predicate WideSet(cs: Shape, b: set<nat>) {
    Product(cs, b, cs.numBinaryVars) > 1000000
  }

  ghost predicate AnyWide(cs: Shape, B: seq<set<nat>>, n: nat)
    requires n <= |B|
  {
    exists k :: 0 <= k < n && WideSet(cs, B[k])
  }

  /** unravel gives up, or the sets cannot be counted. */
  ghost predicate TooWide(cs: Shape, B: seq<set<nat>>) {
    AnyWide(cs, B, |B|) || SetCount(cs, B, cs.numBinaryVars, |B|) > 0x7fff_ffff
  }

  /** One more set is counted, unless it is too wide. */
  method CountSet(cs: Shape, B: seq<set<nat>>, k: nat, total: nat) returns (tooMany: bool, total': nat)
    requires k < |B| && total == SetCount(cs, B, cs.numBinaryVars, k) && !AnyWide(cs, B, k)
    ensures tooMany ==> AnyWide(cs, B, |B|)
    ensures !tooMany ==> !AnyWide(cs, B, k + 1) && total' == SetCount(cs, B, cs.numBinaryVars, k + 1)
  {
    var expansion;
    tooMany, expansion := Expansions(cs, B[k], cs.numBinaryVars, 1000000);
    total' := total + expansion;
  }

  method Unreasonable(cs: Shape, B: seq<set<nat>>) returns (yes: bool)
    ensures yes <==> TooWide(cs, B)
  {
    var total := 0;
    for k := 0 to |B|
      invariant !AnyWide(cs, B, k)
      invariant total == SetCount(cs, B, cs.numBinaryVars, k)
    {
      var tooMany;
      tooMany, total := CountSet(cs, B, k, total);
      if tooMany {
        return true;
      }
    }
    yes := total > 0x7fff_ffff;
  }

  /** The cubes made of the transversals, flagged prime. */
  method RaiseOutside(T: seq<set<nat>>, raise: set<nat>, free: set<nat>) returns (Q: seq<Cube>)
    ensures |Q| == |T| && forall k :: 0 <= k < |T| ==> Q[k] == MkCube(raise + (free - T[k])).(prime := true)
  {
    Q := [];
    for k := 0 to |T|
      invariant |Q| == k && forall j :: 0 <= j < k ==> Q[j] == MkCube(raise + (free - T[j])).(prime := true)
    {
      Q := Q + [MkCube(raise + (free - T[k])).(prime := true)];
    }
  }

  /** With a raised part, exact_minimum_cover loses no transversal. */
  lemma NoneLost(cs: Shape, bb: seq<Cube>, raise: set<nat>, B: seq<set<nat>>, of: seq<nat>, B1: seq<set<nat>>,
                 B2: seq<set<nat>>, T: seq<set<nat>>)
    requires LowerSets(cs, bb, raise, B, of) && RowsOf(cs, B, B1, B2) && B2 != []
    requires raise != {} && raise <= cs.fullset && U.Columns(B2, cs.size) && U.LeveledCover(B2, cs.size, T)
    ensures U.AllMinimal(B2, T)
  {
    var i :| i in raise;
    RaisedInNoRow(cs, bb, raise, B, of, B1, B2, i);
    assert U.EveryColumnAlone(B2, cs.size) ==> U.AloneIn(B2, i);
    U.CompleteExactly(B2, cs.size, T);
  }

  lemma RowColumns(cs: Shape, B: seq<set<nat>>, B1: seq<set<nat>>, B2: seq<set<nat>>)
    requires RowsOf(cs, B, B1, B2)
    ensures U.Columns(B2, cs.size) && (B != [] ==> B2 != [])
  {
    forall k, i | 0 <= k < |B2| && i in B2[k] ensures i < cs.size {
      assert B2[k] in B2;
      var j := SetPosition(B1, B2[k]);
      assert FromSome(cs, B, cs.numBinaryVars, |B|, B1[j]);
    }
    if B != [] {
      assert RowAmong(cs, B[0], cs.numBinaryVars, 0, B1);
      var r := Row(cs, B[0], cs.numBinaryVars, cs.numVars, 0);
      assert r in B1 && U.HasSubset(B2, r);
    }
  }

  /** The main branch of find_all_primes: a transversal for every cube. */
  method PrimesByTransversals(cs: Shape, B: seq<set<nat>>, ghost of: seq<nat>, ghost bb: seq<Cube>, raise: set<nat>,
                              free: set<nat>)
    returns (Q: seq<Cube>, ghost B1: seq<set<nat>>, ghost rows: seq<set<nat>>)
    requires B != [] && !TooWide(cs, B) && LowerSets(cs, bb, raise, B, of) && raise != {} && raise <= cs.fullset
    ensures RowsOf(cs, B, B1, rows) && FromTransversals(rows, raise, free, Q) && forall q :: q in Q ==> q.prime
  {
    var unravelled := UnravelFrom(cs, B, cs.numBinaryVars);
    var B2 := U.SfRevContain(unravelled);
    B1, rows := unravelled, B2;
    RowColumns(cs, B, B1, B2);
    var T := U.ExactMinimumCover(B2, cs.size);
    NoneLost(cs, bb, raise, B, of, B1, B2, T);
    Q := RaiseOutside(T, raise, free);
    Raised(T, B2, raise, free, Q);
  }

  lemma Raised(T: seq<set<nat>>, rows: seq<set<nat>>, raise: set<nat>, free: set<nat>, Q: seq<Cube>)
    requires U.AllMinimal(rows, T)
    requires |Q| == |T| && forall k :: 0 <= k < |T| ==> Q[k] == MkCube(raise + (free - T[k])).(prime := true)
    ensures FromTransversals(rows, raise, free, Q) && forall q :: q in Q ==> q.prime
  {
    forall q | q in Q ensures q.prime && exists S :: U.MinimalTransversal(rows, S) && q.parts == raise + (free - S) {
      var k := Position(Q, q);
      assert T[k] in T;
    }
    forall S | U.MinimalTransversal(rows, S) ensures HasParts(Q, raise + (free - S)) {
      assert S in T;
      var k := SetPosition(T, S);
      assert Q[k] in Q;
    }
  }

  /** The cubes found miss the OFF-set. */
  lemma FoundOnSet(cs: Shape, bb: seq<Cube>, raise: set<nat>, free: set<nat>, B: seq<set<nat>>, of: seq<nat>,
                   B1: seq<set<nat>>, rows: seq<set<nat>>, Q: seq<Cube>)
    requires Expanding(cs, bb, [], raise, free) && NonVoid(cs, raise)
    requires LowerSets(cs, bb, raise, B, of) && RowsOf(cs, B, B1, rows) && FromTransversals(rows, raise, free, Q)
    ensures forall q :: q in Q ==> OnCube(cs, bb, q.parts) && raise <= q.parts <= raise + free
  {
    BinaryParts(cs, raise, raise);
    forall q | q in Q ensures OnCube(cs, bb, q.parts) && raise <= q.parts <= raise + free {
      var S :| U.MinimalTransversal(rows, S) && q.parts == raise + (free - S);
      HitsRowsToo(cs, B, B1, rows, S);
      CoverClears(cs, bb, raise, free, B, of, B1, S);
      NonVoidGrows(cs, raise, q.parts);
    }
  }

  /** Every prime is found. */
  lemma PrimeFound(cs: Shape, bb: seq<Cube>, raise: set<nat>, free: set<nat>, B: seq<set<nat>>, of: seq<nat>,
                   B1: seq<set<nat>>, rows: seq<set<nat>>, Q: seq<Cube>, p: set<nat>)
    requires Expanding(cs, bb, [], raise, free) && NonVoid(cs, raise) && NoneVoid(cs, bb)
    requires LowerSets(cs, bb, raise, B, of) && RowsOf(cs, B, B1, rows) && FromTransversals(rows, raise, free, Q)
    requires PrimeAbove(cs, bb, raise, p) && p <= raise + free
    ensures HasParts(Q, p)
  {
    MissingTransversal(cs, bb, raise, B, of, B1, rows, p);
    var S := MinimalWithin(rows, cs.fullset - p);
    var q := raise + (free - S);
    assert p <= q;
    FoundOnSet(cs, bb, raise, free, B, of, B1, rows, Q);
    var c := WithParts(Q, q);
    assert Orthogonal(cs, bb, c.parts);
  }

  /** No prime has a lowered part. */
  lemma PrimeInside(cs: Shape, bb: seq<Cube>, c: set<nat>, p: set<nat>)
    requires PrimeAbove(cs, bb, c, p)
    ensures p <= Overexpanded(cs, bb, c)
  {
    forall i | i in p ensures !LoweredBy(cs, bb, c, i) {
      if LoweredBy(cs, bb, c, i) {
        LoweredBlocked(cs, bb, c, p, i);
      }
    }
  }

  /** No active OFF-set cube has a lowered part in a variable in which it conflicts with the raised parts. */
  ghost predicate NoneLowered(cs: Shape, bb: seq<Cube>, raise: set<nat>, over: set<nat>) {
    forall k, i: nat :: 0 <= k < |bb| && bb[k].active && ForcedLow(cs, bb[k].parts, raise, i) ==> i in over
  }

  ghost predicate AnyActive(bb: seq<Cube>) {
    exists k :: 0 <= k < |bb| && bb[k].active
  }

  /** No free part can be added. */
  ghost predicate Tight(cs: Shape, bb: seq<Cube>, free: set<nat>, q: set<nat>) {
    forall i :: i in free - q ==> !Orthogonal(cs, bb, q + {i})
  }

  /**
   What find_all_primes returns: cubes that miss the OFF-set.  While some OFF-set cube is active these
   are all primes and, if no lowered part is involved, nothing else; otherwise it is the raised cube,
   although all free parts could be added to it.
   */
  ghost predicate Found(cs: Shape, bb: seq<Cube>, raise: set<nat>, free: set<nat>, Q: seq<Cube>) {
    && (forall q :: q in Q ==> q.prime && OnCube(cs, bb, q.parts) && raise <= q.parts <= raise + free)
    && (!AnyActive(bb) ==> HasParts(Q, raise) && forall q :: q in Q ==> q.parts == raise)
    && (AnyActive(bb) && NoneVoid(cs, bb) ==>
          && (forall p {:trigger HasParts(Q, p)} :: PrimeAbove(cs, bb, raise, p) && p <= raise + free ==>
            HasParts(Q, p))
          && (NoneLowered(cs, bb, raise, raise + free) ==> forall q :: q in Q ==> Tight(cs, bb, free, q.parts)))
  }

  /** An active cube conflicts in two variables. */
  lemma NeedsParts(cs: Shape, bb: seq<Cube>, raise: set<nat>, B: seq<set<nat>>, of: seq<nat>)
    requires NonVoid(cs, raise) && Far(cs, bb, raise, 2) && LowerSets(cs, bb, raise, B, of) && AnyActive(bb)
    ensures raise != {} && B != []
  {
    var k :| 0 <= k < |bb| && bb[k].active;
    assert k in of;
    assert Distance(cs, bb[k].parts, raise, 0) == 0;
    assert raise * cs.varMask[0] != {};
  }

  /** A row that only i of the transversal meets: the cube it is from meets what is raised with i. */
  lemma LastPart(cs: Shape, b: set<nat>, raise: set<nat>, free: set<nat>, low: set<nat>, S: set<nat>, i: nat, x: nat)
    requires LowerSet(cs, b, raise, low) && low <= cs.fullset && b <= cs.fullset && NonVoid(cs, b) && i in free
    requires forall j: nat :: ForcedLow(cs, b, raise, j) ==> j in raise + free
    requires Row(cs, low, cs.numBinaryVars, cs.numVars, x) * (S - {i}) == {}
    ensures Distance0(cs, b, raise + (free - S) + {i})
  {
    var q := raise + (free - S) + {i};
    forall u | 0 <= u < cs.numVars ensures b * q * cs.varMask[u] != {} {
      if ConflictIn(cs, b, raise, u) {
        var h :| h in b * cs.varMask[u];
        assert ForcedLow(cs, b, raise, h);
        assert h in low * cs.varMask[u];
        var j := RowPart(cs, low, x, u);
        assert ForcedLow(cs, b, raise, j);
        assert j !in raise by { assert j !in b * raise * cs.varMask[u]; }
        assert j !in Row(cs, low, cs.numBinaryVars, cs.numVars, x) * (S - {i});
        assert j in b * q * cs.varMask[u];
      } else {
        var j :| j in b * raise * cs.varMask[u];
        assert j in b * q * cs.varMask[u];
      }
    }
  }

  /** Without lowered parts, the cube of a minimal transversal cannot be raised further. */
  lemma FoundTight(cs: Shape, bb: seq<Cube>, raise: set<nat>, free: set<nat>, B: seq<set<nat>>, of: seq<nat>,
                   B1: seq<set<nat>>, rows: seq<set<nat>>, S: set<nat>)
    requires PartsFit(cs, bb) && NoneVoid(cs, bb) && NoneLowered(cs, bb, raise, raise + free) && raise !! free
    requires LowerSets(cs, bb, raise, B, of) && RowsOf(cs, B, B1, rows) && U.MinimalTransversal(rows, S)
    ensures Tight(cs, bb, free, raise + (free - S))
  {
    var q := raise + (free - S);
    forall i | i in free - q ensures !Orthogonal(cs, bb, q + {i}) {
      assert S - {i} < S;
      assert !U.HitsAll(rows, S - {i});
      var k :| 0 <= k < |rows| && rows[k] * (S - {i}) == {};
      assert rows[k] in rows;
      var j := SetPosition(B1, rows[k]);
      assert FromSome(cs, B, cs.numBinaryVars, |B|, B1[j]);
      var n, x: nat :| 0 <= n < |B| && x < Product(cs, B[n], cs.numBinaryVars) &&
        B1[j] == Row(cs, B[n], cs.numBinaryVars, cs.numVars, x);
      LastPart(cs, bb[of[n]].parts, raise, free, B[n], S, i, x);
    }
  }

  lemma FoundAll(cs: Shape, bb: seq<Cube>, raise: set<nat>, free: set<nat>, B: seq<set<nat>>, of: seq<nat>,
                 B1: seq<set<nat>>, rows: seq<set<nat>>, Q: seq<Cube>)
    requires Expanding(cs, bb, [], raise, free) && NonVoid(cs, raise) && raise !! free && AnyActive(bb)
    requires LowerSets(cs, bb, raise, B, of) && RowsOf(cs, B, B1, rows) && FromTransversals(rows, raise, free, Q)
    requires forall q :: q in Q ==> q.prime
    ensures Found(cs, bb, raise, free, Q)
  {
    FoundOnSet(cs, bb, raise, free, B, of, B1, rows, Q);
    if NoneVoid(cs, bb) {
      forall p | PrimeAbove(cs, bb, raise, p) && p <= raise + free ensures HasParts(Q, p) {
        PrimeFound(cs, bb, raise, free, B, of, B1, rows, Q, p);
      }
      if NoneLowered(cs, bb, raise, raise + free) {
        forall q | q in Q ensures Tight(cs, bb, free, q.parts) {
          var S :| U.MinimalTransversal(rows, S) && q.parts == raise + (free - S);
          FoundTight(cs, bb, raise, free, B, of, B1, rows, S);
        }
      }
    }
  }

  /** find_all_primes.  ok is false where unravel gives up. */
  method FindAllPrimes(cs: Shape, BB: Cover, raise: set<nat>, free: set<nat>)
    returns (ok: bool, Q: seq<Cube>, ghost B: seq<set<nat>>, ghost of: seq<nat>)
    requires Counted(BB) && Expanding(cs, BB.cubes, [], raise, free) && NonVoid(cs, raise) && raise !! free
    ensures LowerSets(cs, BB.cubes, raise, B, of) && (ok <==> BB.activeCount == 0 || !TooWide(cs, B))
    ensures ok ==> Found(cs, BB.cubes, raise, free, Q)
  {
    var lower;
    ghost var B1, rows;
    lower, of := CollectLower(cs, BB, raise);
    B := lower;
    SomeActive(BB.cubes);
    if BB.activeCount == 0 {
      ok, Q := true, [MkCube(raise).(prime := true)];
      RaisedOrthogonal(cs, BB.cubes, raise, raise + free);
      assert Q[0] in Q;
    } else {
      var tooWide := Unreasonable(cs, lower);
      ok, Q := !tooWide, [];
      if ok {
        NeedsParts(cs, BB.cubes, raise, B, of);
        Q, B1, rows := PrimesByTransversals(cs, lower, of, BB.cubes, raise, free);
        FoundAll(cs, BB.cubes, raise, free, B, of, B1, rows, Q);
      }
    }
  }

  // ---------- all_primes ----------

  /** Some OFF-set cube meets the overexpanded cube of c. */
  ghost predicate Contested(cs: Shape, bb: seq<Cube>, c: set<nat>) {
    exists k :: 0 <= k < |bb| && Distance0(cs, bb[k].parts, Overexpanded(cs, bb, c))
  }

  lemma SameOverexpanded(cs: Shape, bb: seq<Cube>, bb': seq<Cube>, c: set<nat>)
    requires PartsKept(bb, bb')
    ensures Overexpanded(cs, bb', c) == Overexpanded(cs, bb, c)
  {
    forall i ensures LoweredBy(cs, bb, c, i) <==> LoweredBy(cs, bb', c, i) {
      if LoweredBy(cs, bb, c, i) {
        var k :| 0 <= k < |bb| && Distance(cs, bb[k].parts, c, cs.numVars) == 1 && ForcedLow(cs, bb[k].parts, c, i);
        assert Distance(cs, bb'[k].parts, c, cs.numVars) == 1;
      }
      if LoweredBy(cs, bb', c, i) {
        var k :| 0 <= k < |bb'| && Distance(cs, bb'[k].parts, c, cs.numVars) == 1 && ForcedLow(cs, bb'[k].parts, c, i);
        assert Distance(cs, bb[k].parts, c, cs.numVars) == 1;
      }
    }
  }

  /** What is left to raise after essen_parts makes the overexpanded cube. */
  lemma OverexpandedIs(cs: Shape, bb: seq<Cube>, c: set<nat>, free: set<nat>)
    requires Orthogonal(cs, bb, c) && c <= cs.fullset && free <= cs.fullset - c
    requires forall i: nat :: i in cs.fullset - c ==> (i in free <==> !LoweredBy(cs, bb, c, i))
    ensures Overexpanded(cs, bb, c) == c + free
  {
    forall i | i in c ensures !LoweredBy(cs, bb, c, i) {
      if LoweredBy(cs, bb, c, i) {
        LoweredBlocked(cs, bb, c, c, i);
      }
    }
  }

  /** With no OFF-set cube in the way the overexpanded cube is the only prime. */
  lemma OnlyPrime(cs: Shape, bb: seq<Cube>, c: set<nat>, p: set<nat>)
    requires Orthogonal(cs, bb, c) && c <= cs.fullset && !Contested(cs, bb, c)
    ensures PrimeAbove(cs, bb, c, p) <==> p == Overexpanded(cs, bb, c)
  {
    var over := Overexpanded(cs, bb, c);
    forall i | i in c ensures i in over {
      if LoweredBy(cs, bb, c, i) {
        LoweredBlocked(cs, bb, c, c, i);
      }
    }
    forall q | over < q <= cs.fullset ensures !Orthogonal(cs, bb, q) {
      assert q == over + (q - over);
      var i :| i in q - over;
      if Orthogonal(cs, bb, q) {
        LoweredBlocked(cs, bb, c, q, i);
      }
    }
    if PrimeAbove(cs, bb, c, p) {
      PrimeInside(cs, bb, c, p);
    }
  }

  lemma ActiveMeansContested(cs: Shape, bb: seq<Cube>, c: set<nat>, free: set<nat>)
    requires Expanding(cs, bb, [], c, free) && NoneVoid(cs, bb) && Overexpanded(cs, bb, c) == c + free
    ensures AnyActive(bb) <==> Contested(cs, bb, c)
  {
    if k :| 0 <= k < |bb| && bb[k].active {
      MeetsEverything(cs, bb[k].parts);
      assert Distance0(cs, bb[k].parts, Overexpanded(cs, bb, c));
    }
    if Contested(cs, bb, c) {
      var k :| 0 <= k < |bb| && Distance0(cs, bb[k].parts, Overexpanded(cs, bb, c));
      assert bb[k].active;
    }
  }

  /** All primes that contain c have been found. */
  ghost predicate AllPrimesAbove(cs: Shape, bb: seq<Cube>, c: set<nat>, Q: seq<Cube>) {
    forall p {:trigger HasParts(Q, p)} :: PrimeAbove(cs, bb, c, p) ==> HasParts(Q, p)
  }

  /** The primes found for c are all of them exactly if some OFF-set cube is in the way, or nothing can be raised. */
  lemma AllFoundExactly(cs: Shape, bb: seq<Cube>, c: set<nat>, free: set<nat>, Q: seq<Cube>)
    requires Expanding(cs, bb, [], c, free) && NoneVoid(cs, bb) && Overexpanded(cs, bb, c) == c + free
    requires Orthogonal(cs, bb, c) && Found(cs, bb, c, free, Q)
    ensures AllPrimesAbove(cs, bb, c, Q) <==> Contested(cs, bb, c) || c == Overexpanded(cs, bb, c)
  {
    ActiveMeansContested(cs, bb, c, free);
    if Contested(cs, bb, c) {
      forall p | PrimeAbove(cs, bb, c, p) ensures HasParts(Q, p) {
        PrimeInside(cs, bb, c, p);
      }
    } else {
      var over := Overexpanded(cs, bb, c);
      forall p ensures PrimeAbove(cs, bb, c, p) <==> p == over {
        OnlyPrime(cs, bb, c, p);
      }
      if HasParts(Q, over) {
        var q := WithParts(Q, over);
        assert over == c;
      }
      assert AllPrimesAbove(cs, bb, c, Q) ==> HasParts(Q, over);
    }
  }

  /** What all_primes finds for a cube c that is not flagged prime. */
  ghost predicate FoundFor(cs: Shape, bb: seq<Cube>, c: set<nat>, ok: bool, Q: seq<Cube>) {
    && (ok ==> forall q :: q in Q ==> q.prime && OnCube(cs, bb, q.parts) && c <= q.parts)
    && (NoneVoid(cs, bb) && ok ==>
          (AllPrimesAbove(cs, bb, c, Q) <==> Contested(cs, bb, c) || c == Overexpanded(cs, bb, c)))
    && (NoneVoid(cs, bb) && !Contested(cs, bb, c) ==> ok && HasParts(Q, c) && forall q :: q in Q ==> q.parts == c)
  }

  lemma FoundForCube(cs: Shape, bb: seq<Cube>, c: set<nat>, free: set<nat>, ok: bool, Q: seq<Cube>)
    requires Expanding(cs, bb, [], c, free) && Overexpanded(cs, bb, c) == c + free && Orthogonal(cs, bb, c)
    requires (NumActive(bb) == 0 ==> ok) && (ok ==> Found(cs, bb, c, free, Q))
    ensures FoundFor(cs, bb, c, ok, Q)
  {
    if NoneVoid(cs, bb) {
      ActiveMeansContested(cs, bb, c, free);
      SomeActive(bb);
      if ok {
        AllFoundExactly(cs, bb, c, free, Q);
      }
    }
  }

  /** The body of the loop of all_primes for a cube c that is not prime. */
  method PrimesOfCube(cs: Shape, R: Cover, c: set<nat>) returns (ok: bool, Q: seq<Cube>)
    requires PartsFit(cs, R.cubes) && OnCube(cs, R.cubes, c)
    modifies R
    ensures PartsKept(old(R.cubes), R.cubes) && FoundFor(cs, R.cubes, c, ok, Q)
  {
    ghost var bb := R.cubes;
    AllAway(cs, bb, c);
    var free := cs.fullset - c;
    assert c + free == cs.fullset;
    SetupBlocking(R);
    ghost var bb1 := R.cubes;
    free := EssenParts(cs, R, null, c, free);
    ghost var bb2 := R.cubes;
    OverexpandedIs(cs, bb1, c, free);
    SameOverexpanded(cs, bb1, bb2, c);
    ghost var B, of;
    ok, Q, B, of := FindAllPrimes(cs, R, c, free);
    FoundForCube(cs, bb2, c, free, ok, Q);
  }

  /** Two binary variables. */
  function TwoVariables(): (cs: CubeStruct)
    ensures cs.Valid()
  {
    CubeStruct(2, 2, 4, [0, 2], [1, 3], [{0, 1}, {2, 3}], [0, 0, 1, 1], {0, 1, 2, 3}, [false, false])
  }

  /**
   The cube {0,2} and the OFF-set cube {1,2,3} conflict in the first variable only, so that 1 is lowered and 3 is
   not.
   */
  lemma MissedFacts(bb: seq<Cube>)
    requires |bb| == 1 && bb[0].parts == {1, 2, 3}
    ensures var cs: Shape := TwoVariables();
            && NoneVoid(cs, bb) && PartsFit(cs, bb) && OnCube(cs, bb, {0, 2})
            && Overexpanded(cs, bb, {0, 2}) == {0, 2, 3} && !Contested(cs, bb, {0, 2})
  {
    hide Overexpanded, Contested, Distance;
    var cs: Shape, b: set<nat>, c: set<nat> := TwoVariables(), {1, 2, 3}, {0, 2};
    assert 1 in b * cs.varMask[0] && 2 in b * cs.varMask[1] && 0 in c * cs.varMask[0] && 2 in c * cs.varMask[1];
    MissedDistance();
    MissedOver(bb);
  }

  lemma MissedDistance()
    ensures Distance(TwoVariables(), {1, 2, 3}, {0, 2}, 2) == 1
  {
    var cs: Shape, b: set<nat>, c: set<nat> := TwoVariables(), {1, 2, 3}, {0, 2};
    assert b * c == {2} && 2 in b * c * cs.varMask[1];
    assert ConflictIn(cs, b, c, 0) && !ConflictIn(cs, b, c, 1);
    assert Distance(cs, b, c, 0) == 0 && Distance(cs, b, c, 1) == 1;
  }

  lemma MissedOver(bb: seq<Cube>)
    requires |bb| == 1 && bb[0].parts == {1, 2, 3} && Distance(TwoVariables(), {1, 2, 3}, {0, 2}, 2) == 1
    ensures Overexpanded(TwoVariables(), bb, {0, 2}) == {0, 2, 3} && !Contested(TwoVariables(), bb, {0, 2})
  {
    hide Distance;
    var cs: Shape, b: set<nat>, c: set<nat>, over: set<nat> := TwoVariables(), {1, 2, 3}, {0, 2}, {0, 2, 3};
    assert b * over == {2, 3} && ConflictIn(cs, b, over, 0);
    assert 2 in b * c * cs.varMask[1] && !ConflictIn(cs, b, c, 1);
    assert LoweredBy(cs, bb, c, 1);
    assert Overexpanded(cs, bb, c) == over;
  }

  lemma MissedPrime(bb: seq<Cube>, ok: bool, Q: seq<Cube>)
    requires |bb| == 1 && bb[0].parts == {1, 2, 3} && FoundFor(TwoVariables(), bb, {0, 2}, ok, Q)
    ensures PrimeAbove(TwoVariables(), bb, {0, 2}, {0, 2, 3}) && !HasParts(Q, {0, 2, 3})
    ensures HasParts(Q, {0, 2}) && forall q :: q in Q ==> q.prime
  {
    var c: set<nat>, over: set<nat> := {0, 2}, {0, 2, 3};
    MissedFacts(bb);
    OnlyPrime(TwoVariables(), bb, c, over);
    assert 3 in over && 3 !in c;
  }

  /**
   For example the cube {0,2} and the OFF-set cube {1,2,3}: the run returns {0,2}, flagged prime, which is not
   one, and misses the prime {0,2,3}.
   */
  method PrimeMissed() returns (Q: seq<Cube>)
    ensures PrimeAbove(TwoVariables(), [MkCube({1, 2, 3})], {0, 2}, {0, 2, 3}) && !HasParts(Q, {0, 2, 3})
    ensures HasParts(Q, {0, 2}) && forall q :: q in Q ==> q.prime
  {
    var R := new Cover([MkCube({1, 2, 3})]);
    ghost var bb := R.cubes;
    MissedFacts(bb);
    var ok;
    ok, Q := PrimesOfCube(TwoVariables(), R, {0, 2});
    MissedPrime(R.cubes, ok, Q);
    SamePrimes(TwoVariables(), bb, R.cubes, {0, 2}, {0, 2, 3});
  }

  /** Q has a prime cube of F, or the primes found above one that is not. */
  ghost predicate Listed(cs: Shape, bb: seq<Cube>, c: Cube, Q: seq<Cube>) {
    if c.prime then c in Q
    else NoneVoid(cs, bb) && (Contested(cs, bb, c.parts) || c.parts == Overexpanded(cs, bb, c.parts)) ==>
      AllPrimesAbove(cs, bb, c.parts, Q)
  }

  lemma ListedMore(cs: Shape, bb: seq<Cube>, bb': seq<Cube>, c: Cube, Q: seq<Cube>, Q': seq<Cube>)
    requires Listed(cs, bb, c, Q) && PartsKept(bb, bb') && forall q :: q in Q ==> q in Q'
    ensures Listed(cs, bb', c, Q')
  {
    SameOverexpanded(cs, bb, bb', c.parts);
    if !c.prime && NoneVoid(cs, bb') && (Contested(cs, bb', c.parts) || c.parts == Overexpanded(cs, bb', c.parts)) {
      assert NoneVoid(cs, bb);
      assert Contested(cs, bb', c.parts) ==> Contested(cs, bb, c.parts);
      forall p | PrimeAbove(cs, bb', c.parts, p) ensures HasParts(Q', p) {
        SamePrimes(cs, bb, bb', c.parts, p);
        var q := WithParts(Q, p);
        assert q in Q';
      }
    }
  }

  /** The first n cubes of F are listed. */
  ghost predicate AllListed(cs: Shape, bb: seq<Cube>, F: seq<Cube>, n: nat, Q: seq<Cube>) {
    forall k :: 0 <= k < n && k < |F| ==> Listed(cs, bb, F[k], Q)
  }

  lemma AllListedMore(cs: Shape, bb: seq<Cube>, bb': seq<Cube>, F: seq<Cube>, n: nat, Q: seq<Cube>, Q': seq<Cube>)
    requires n < |F| && AllListed(cs, bb, F, n, Q) && PartsKept(bb, bb') && forall q :: q in Q ==> q in Q'
    requires Listed(cs, bb', F[n], Q')
    ensures AllListed(cs, bb', F, n + 1, Q')
  {
    forall k | 0 <= k < n ensures Listed(cs, bb', F[k], Q') {
      ListedMore(cs, bb, bb', F[k], Q, Q');
    }
  }

  lemma SamePrimes(cs: Shape, bb: seq<Cube>, bb': seq<Cube>, c: set<nat>, p: set<nat>)
    requires PartsKept(bb, bb')
    ensures PrimeAbove(cs, bb, c, p) <==> PrimeAbove(cs, bb', c, p)
  {
    forall q ensures Orthogonal(cs, bb, q) <==> Orthogonal(cs, bb', q) {
    }
  }

  /** all_primes */
  method AllPrimes(cs: Shape, F: seq<Cube>, R: Cover) returns (ok: bool, Q: seq<Cube>)
    requires PartsFit(cs, R.cubes) && OnSet(cs, R.cubes, F)
    modifies R
    ensures PartsKept(old(R.cubes), R.cubes)
    ensures ok ==> OnSet(cs, R.cubes, Q) && AllListed(cs, R.cubes, F, |F|, Q)
  {
    ghost var bb := R.cubes;
    ok, Q := true, [];
    for k := 0 to |F|
      invariant PartsKept(bb, R.cubes) && OnSet(cs, R.cubes, Q)
      invariant AllListed(cs, R.cubes, F, k, Q)
    {
      ghost var bb1, Q1 := R.cubes, Q;
      ok, Q := PrimesStep(cs, F[k], R, Q);
      if !ok {
        return;
      }
      AllListedMore(cs, bb1, R.cubes, F, k, Q1, Q);
    }
  }

  /** One cube of the loop. */
  method PrimesStep(cs: Shape, c: Cube, R: Cover, Q0: seq<Cube>) returns (ok: bool, Q: seq<Cube>)
    requires PartsFit(cs, R.cubes) && OnCube(cs, R.cubes, c.parts) && OnSet(cs, R.cubes, Q0)
    modifies R
    ensures PartsKept(old(R.cubes), R.cubes)
    ensures ok ==> OnSet(cs, R.cubes, Q) && Listed(cs, R.cubes, c, Q) && forall q :: q in Q0 ==> q in Q
  {
    ok, Q := true, Q0;
    if c.prime {
      Q := Q + [c];
      assert c in Q;
    } else {
      ghost var bb := R.cubes;
      var B1;
      ok, B1 := PrimesOfCube(cs, R, c.parts);
      OnSetKept(cs, bb, R.cubes, Q0);
      Q := Q + B1;
      if ok {
        forall k | 0 <= k < |Q| ensures OnCube(cs, R.cubes, Q[k].parts) {
          assert k < |Q0| ==> OnCube(cs, R.cubes, Q0[k].parts);
          assert k >= |Q0| ==> B1[k - |Q0|] in B1;
        }
        ListedAppend(cs, R.cubes, c, Q0, B1);
      }
    }
  }

  lemma ListedAppend(cs: Shape, bb: seq<Cube>, c: Cube, Q0: seq<Cube>, B1: seq<Cube>)
    requires !c.prime
    requires NoneVoid(cs, bb) ==>
      (AllPrimesAbove(cs, bb, c.parts, B1) <==> Contested(cs, bb, c.parts) || c.parts == Overexpanded(cs, bb, c.parts))
    ensures Listed(cs, bb, c, Q0 + B1)
  {
    if NoneVoid(cs, bb) && (Contested(cs, bb, c.parts) || c.parts == Overexpanded(cs, bb, c.parts)) {
      forall p | PrimeAbove(cs, bb, c.parts, p) ensures HasParts(Q0 + B1, p) {
        assert HasParts(B1, p);
        var q := WithParts(B1, p);
        assert q in Q0 + B1;
      }
    }
  }

  // ---------- super_gasp ----------

  lemma GaspOnSet(cs: Shape, bb: seq<Cube>, F: seq<Cube>, D: seq<Cube>, G: seq<Cube>)
    requires GaspSetting(cs, bb, G, D, F)
    ensures OnSet(cs, bb, G)
  {
    forall k | 0 <= k < |G| ensures OnCube(cs, bb, G[k].parts) {
      ReducedOnCube(cs, bb, G, D, F, k);
    }
  }

  /** Add the primes, drop duplicates, and find an irredundant subset. */
  method AddPrimes(cs: Shape, F: Cover, D: seq<Cube>, ghost bb: seq<Cube>, G1: seq<Cube>)
    requires OnSet(cs, bb, F.cubes) && OnSet(cs, bb, G1)
    modifies F
    ensures OnSet(cs, bb, F.cubes) && Keeps(cs, old(F.cubes), F.cubes, D)
  {
    ghost var s := F.cubes;
    var all := F.cubes + G1;
    F.cubes := SfDupl(all);
    ghost var t := F.cubes;
    ghost var work, marked := Irredundant(cs, F, D);
    ghost var u := F.cubes;
    assert OnSet(cs, bb, all);
    OnSetSubset(cs, bb, all, t);
    OnSetSubset(cs, bb, t, u);
    forall m | cs.Minterm(m) && Covered(m, s) ensures Covered(m, u) || Covered(m, D) {
      var c :| c in s && In(m, c.parts);
      assert c in all;
      var d := WithParts(t, c.parts);
      assert Covered(m, t);
    }
  }

  /** super_gasp -- ok is false where reduce_gasp or unravel gives up; reduced says that reduce_gasp did not. */
  method SuperGasp(cs: Shape, F: Cover, D: seq<Cube>, R: Cover) returns (ok: bool, ghost reduced: bool)
    requires F != R && OffSet(cs, R.cubes) && OnSet(cs, R.cubes, F.cubes) && Fits(cs, F.cubes + D, {}) && cs.numVars > 0
    modifies F, R
    ensures PartsKept(old(R.cubes), R.cubes) && OffSet(cs, R.cubes)
    ensures reduced <==> forall k :: 0 <= k < |old(F.cubes)| ==> HasEssential(cs, old(F.cubes), D, k)
    ensures ok ==> reduced && OnSet(cs, R.cubes, F.cubes) && Keeps(cs, old(F.cubes), F.cubes, D)
  {
    ghost var bb, s := R.cubes, F.cubes;
    OnSetNonVoid(cs, bb, s);
    var G, G1;
    ok, G := ReduceGasp(cs, F.cubes, D);
    reduced := ok;
    if ok {
      GaspOnSet(cs, bb, s, D, G);
      ok, G1 := AllPrimes(cs, G, R);
      OffSetKept(cs, bb, R.cubes);
    }
    if ok {
      OnSetKept(cs, bb, R.cubes, s);
      AddPrimes(cs, F, D, R.cubes, G1);
    }
  }
}
