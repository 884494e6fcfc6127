/** expand.c: expansion of a cube against the OFF-set, and of a whole cover. */
module ExpandPass {
  import opened Cubes
  import opened Containment
  import opened CoverCost
  import opened SetOps
  import opened Unravel
  import opened Ordering
  import opened Sets

  // ---------- the state of an expansion ----------

  /** The active cubes among the first n. */
  ghost function NumActive(s: seq<Cube>): nat {
    if s == [] then 0 else NumActive(s[..|s| - 1]) + if s[|s| - 1].active then 1 else 0
  }

  ghost predicate Counted(C: Cover)
    reads C
  {
    C.activeCount == NumActive(C.cubes)
  }

  lemma {:induction false} NumActiveUpdate(s: seq<Cube>, k: nat, c: Cube)
    requires k < |s| && s[k].active && !c.active
    ensures NumActive(s[k := c]) == NumActive(s) - 1
  {
    var n := |s| - 1;
    if k < n {
      NumActiveUpdate(s[..n], k, c);
      assert s[k := c][..n] == s[..n][k := c];
    } else {
      assert s[k := c][..n] == s[..n];
    }
  }

  lemma {:induction false} SomeActive(s: seq<Cube>)
    ensures NumActive(s) > 0 <==> exists k :: 0 <= k < |s| && s[k].active
  {
    if s != [] {
      var n := |s| - 1;
      SomeActive(s[..n]);
      if k :| 0 <= k < |s| && s[k].active {
        if k < n {
          assert s[..n][k].active;
        }
      }
    }
  }

  /**
   Exactly the blocking cubes that meet the overexpanded cube are active; but as long as nothing has been
   lowered a void one, which meets nothing, may be active too.
   */
  ghost predicate Blocking(cs: Shape, bb: seq<Cube>, over: set<nat>) {
    forall k :: 0 <= k < |bb| ==>
      && (Distance0(cs, bb[k].parts, over) ==> bb[k].active)
      && (bb[k].active ==> Distance0(cs, bb[k].parts, over) || over == cs.fullset)
  }

  /** The active blocking cubes are at distance n or more from the raised parts. */
  ghost predicate Far(cs: Shape, bb: seq<Cube>, raise: set<nat>, n: nat) {
    forall k :: 0 <= k < |bb| && bb[k].active ==> Distance(cs, bb[k].parts, raise, cs.numVars) >= n
  }

  /** The active cubes to be covered lie in the overexpanded cube. */
  ghost predicate Coverable(cc: seq<Cube>, over: set<nat>) {
    forall k :: 0 <= k < |cc| && cc[k].active ==> cc[k].parts <= over
  }

  /** No blocking cube meets the raised parts. */
  ghost predicate Orthogonal(cs: Shape, bb: seq<Cube>, raise: set<nat>) {
    forall k :: 0 <= k < |bb| ==> !Distance0(cs, bb[k].parts, raise)
  }

  /** A smaller cube meets no more. */
  lemma MeetsLess(cs: Shape, p: set<nat>, a: set<nat>, b: set<nat>)
    requires a <= b && Distance0(cs, p, a)
    ensures Distance0(cs, p, b)
  {
    forall v | 0 <= v < cs.numVars ensures p * b * cs.varMask[v] != {} {
      var i :| i in p * a * cs.varMask[v];
      assert i in p * b * cs.varMask[v];
    }
  }

  /** All blocking cubes miss the raised parts: inactive ones miss even the overexpanded cube. */
  lemma RaisedOrthogonal(cs: Shape, bb: seq<Cube>, raise: set<nat>, over: set<nat>)
    requires Blocking(cs, bb, over) && Far(cs, bb, raise, 1) && raise <= over
    ensures Orthogonal(cs, bb, raise)
  {
    forall k | 0 <= k < |bb| ensures !Distance0(cs, bb[k].parts, raise) {
      DistanceZero(cs, bb[k].parts, raise);
      if Distance0(cs, bb[k].parts, raise) {
        MeetsLess(cs, bb[k].parts, raise, over);
      }
    }
  }

  lemma {:induction false} SameDistance(cs: Shape, p: set<nat>, a: set<nat>, b: set<nat>, n: nat)
    requires n <= cs.numVars && p * a == p * b
    ensures Distance(cs, p, a, n) == Distance(cs, p, b, n)
  {
    if n > 0 {
      SameDistance(cs, p, a, b, n - 1);
    }
  }

  /** One more part lowers the distance by at most one. */
  lemma {:induction false} DistanceDrop(cs: Shape, p: set<nat>, a: set<nat>, i: nat, n: nat)
    requires n <= cs.numVars && i in cs.fullset
    ensures Distance(cs, p, a + {i}, n) >= Distance(cs, p, a, n) - if cs.partVar[i] < n then 1 else 0
  {
    if n > 0 {
      DistanceDrop(cs, p, a, i, n - 1);
      if cs.partVar[i] != n - 1 {
        assert i !in cs.varMask[n - 1];
        assert p * (a + {i}) * cs.varMask[n - 1] == p * a * cs.varMask[n - 1];
      }
    }
  }

  lemma FarAfterRaise(cs: Shape, bb: seq<Cube>, raise: set<nat>, i: nat)
    requires Far(cs, bb, raise, 2) && i in cs.fullset
    ensures Far(cs, bb, raise + {i}, 1)
  {
    forall k | 0 <= k < |bb| && bb[k].active ensures Distance(cs, bb[k].parts, raise + {i}, cs.numVars) >= 1 {
      DistanceDrop(cs, bb[k].parts, raise, i, cs.numVars);
    }
  }

  // ---------- flags ----------

  /** Make cube k inactive. */
  method Deactivate(C: Cover, k: nat, covered: bool)
    requires k < |C.cubes| && C.cubes[k].active && Counted(C)
    modifies C
    ensures Counted(C) && C.cubes == old(C.cubes)[k := old(C.cubes)[k].(active := false, covered := covered)]
  {
    NumActiveUpdate(C.cubes, k, C.cubes[k].(active := false, covered := covered));
    C.cubes := C.cubes[k := C.cubes[k].(active := false, covered := covered)];
    C.activeCount := C.activeCount - 1;
  }

  /** elim_lowering, first loop: drop the blocking cubes that miss the overexpanded cube r. */
  method ElimBlocking(cs: Shape, BB: Cover, r: set<nat>)
    requires Counted(BB)
    modifies BB
    ensures Counted(BB) && |BB.cubes| == |old(BB.cubes)|
    ensures forall k :: 0 <= k < |BB.cubes| ==>
      BB.cubes[k] == old(BB.cubes)[k].(active := old(BB.cubes)[k].active && Distance0(cs, old(BB.cubes)[k].parts, r))
  {
    ghost var bb := BB.cubes;
    for k := 0 to |BB.cubes|
      invariant Counted(BB) && |BB.cubes| == |bb|
      invariant forall j :: 0 <= j < k ==>
        BB.cubes[j] == bb[j].(active := bb[j].active && Distance0(cs, bb[j].parts, r))
      invariant forall j :: k <= j < |bb| ==> BB.cubes[j] == bb[j]
    {
      if BB.cubes[k].active && !Distance0(cs, BB.cubes[k].parts, r) {
        Deactivate(BB, k, BB.cubes[k].covered);
      }
    }
  }

  /** elim_lowering, second loop: drop the cubes that the overexpanded cube r does not cover. */
  method ElimCovered(CC: Cover, r: set<nat>)
    requires Counted(CC)
    modifies CC
    ensures Counted(CC) && |CC.cubes| == |old(CC.cubes)|
    ensures forall k :: 0 <= k < |CC.cubes| ==>
      CC.cubes[k] == old(CC.cubes)[k].(active := old(CC.cubes)[k].active && old(CC.cubes)[k].parts <= r)
  {
    ghost var cc := CC.cubes;
    for k := 0 to |CC.cubes|
      invariant Counted(CC) && |CC.cubes| == |cc|
      invariant forall j :: 0 <= j < k ==> CC.cubes[j] == cc[j].(active := cc[j].active && cc[j].parts <= r)
      invariant forall j :: k <= j < |cc| ==> CC.cubes[j] == cc[j]
    {
      if CC.cubes[k].active && !(CC.cubes[k].parts <= r) {
        Deactivate(CC, k, CC.cubes[k].covered);
      }
    }
  }

  /**
   What an expansion may do to the covering cubes: cubes become inactive, and cubes that were active
   become covered when they lie in the raised parts.
   */
  ghost predicate Progress(cc: seq<Cube>, cc': seq<Cube>, raise: set<nat>) {
    && |cc'| == |cc|
    && forall k :: 0 <= k < |cc| ==>
         && cc'[k] == cc[k].(active := cc'[k].active, covered := cc'[k].covered)
         && (cc'[k].active ==> cc[k].active)
         && (cc[k].covered ==> cc'[k].covered)
         && (cc'[k].covered && !cc[k].covered ==> cc[k].active && !cc'[k].active && cc[k].parts <= raise)
  }

  lemma ProgressTrans(a: seq<Cube>, b: seq<Cube>, c: seq<Cube>, raise: set<nat>, raise': set<nat>)
    requires Progress(a, b, raise) && Progress(b, c, raise') && raise <= raise'
    ensures Progress(a, c, raise')
  {
  }

  /** elim_lowering; CC is NULL at the last stage of an expansion. */
  method ElimLowering(cs: Shape, BB: Cover, CC: Cover?, raise: set<nat>, free: set<nat>)
    requires BB != CC && Counted(BB) && (CC != null ==> Counted(CC))
    modifies BB, CC
    ensures Counted(BB) && |BB.cubes| == |old(BB.cubes)|
    ensures forall k :: 0 <= k < |BB.cubes| ==>
      BB.cubes[k] == old(BB.cubes)[k].(active := old(BB.cubes)[k].active &&
        Distance0(cs, old(BB.cubes)[k].parts, raise + free))
    ensures CC != null ==> Counted(CC) && Progress(old(CC.cubes), CC.cubes, {}) && Coverable(CC.cubes, raise + free)
    ensures CC != null ==> forall k :: 0 <= k < |CC.cubes| ==> CC.cubes[k].covered == old(CC.cubes)[k].covered
  {
    var r := raise + free;
    ElimBlocking(cs, BB, r);
    if CC != null {
      ElimCovered(CC, r);
    }
  }

  // ---------- essen_parts ----------

  /** Part i belongs to a blocking cube at distance 1, in the variable of the conflict. */
  ghost predicate LoweredBy(cs: Shape, bb: seq<Cube>, raise: set<nat>, i: nat) {
    exists k :: 0 <= k < |bb| && Distance(cs, bb[k].parts, raise, cs.numVars) == 1 &&
      ForcedLow(cs, bb[k].parts, raise, i)
  }

  /** No cube that contains the raised parts and misses the OFF-set has a lowered part. */
  lemma LoweredBlocked(cs: Shape, bb: seq<Cube>, raise: set<nat>, p: set<nat>, i: nat)
    requires LoweredBy(cs, bb, raise, i) && Orthogonal(cs, bb, p) && raise <= p
    ensures i !in p
  {
    var k :| 0 <= k < |bb| && Distance(cs, bb[k].parts, raise, cs.numVars) == 1 && ForcedLow(cs, bb[k].parts, raise, i);
    var b := bb[k].parts;
    var v := OneConflict(cs, b, raise, cs.numVars);
    assert cs.partVar[i] == v by {
      assert ConflictIn(cs, b, raise, cs.partVar[i]);
    }
    assert i in cs.varMask[v];
    forall u | 0 <= u < cs.numVars && u != v ensures b * p * cs.varMask[u] != {} {
      assert !ConflictIn(cs, b, raise, u);
      var j :| j in b * raise * cs.varMask[u];
      assert j in b * p * cs.varMask[u];
    }
    assert b * p * cs.varMask[v] == {};
    assert i !in b * p * cs.varMask[v];
  }

  /** The loop of essen_parts: cubes at distance 1 force parts low and become inactive. */
  method ForceDistanceOne(cs: Shape, BB: Cover, raise: set<nat>) returns (xlower: set<nat>)
    requires Counted(BB) && Far(cs, BB.cubes, raise, 1)
    modifies BB
    ensures Counted(BB) && |BB.cubes| == |old(BB.cubes)|
    ensures forall k :: 0 <= k < |BB.cubes| ==> var p := old(BB.cubes)[k];
      BB.cubes[k] == p.(active := p.active && Distance(cs, p.parts, raise, cs.numVars) >= 2)
    ensures forall k, i: nat :: 0 <= k < |BB.cubes| && old(BB.cubes)[k].active && !BB.cubes[k].active ==>
              ForcedLow(cs, old(BB.cubes)[k].parts, raise, i) ==> i in xlower
    ensures forall i: nat :: i in xlower ==> LoweredBy(cs, old(BB.cubes), raise, i)
    ensures (forall k :: 0 <= k < |BB.cubes| ==> old(BB.cubes)[k].active) ==>
              forall i: nat :: LoweredBy(cs, old(BB.cubes), raise, i) ==> i in xlower
  {
    hide Counted, Distance, ForcedLow;
    ghost var bb := BB.cubes;
    xlower := {};
    for k := 0 to |BB.cubes|
      invariant Counted(BB) && |BB.cubes| == |bb|
      invariant forall j :: 0 <= j < k ==>
        BB.cubes[j] == bb[j].(active := bb[j].active && Distance(cs, bb[j].parts, raise, cs.numVars) >= 2)
      invariant forall j :: k <= j < |bb| ==> BB.cubes[j] == bb[j]
      invariant forall j, i: nat ::
        0 <= j < k && bb[j].active && !BB.cubes[j].active && ForcedLow(cs, bb[j].parts, raise, i) ==> i in xlower
      invariant forall i: nat :: i in xlower ==> LoweredBy(cs, bb, raise, i)
    {
      var p := BB.cubes[k];
      if p.active {
        var dist := Cdist01(cs, p.parts, raise);
        if dist <= 1 {
          // "ON-set and OFF-set are not orthogonal" cannot happen.
          assert dist == 1;
          xlower := ForceLower(cs, xlower, p.parts, raise);
          assert forall i: nat :: ForcedLow(cs, bb[k].parts, raise, i) ==> LoweredBy(cs, bb, raise, i);
          Deactivate(BB, k, p.covered);
        }
      }
    }
    forall i: nat | LoweredBy(cs, bb, raise, i) && forall k :: 0 <= k < |bb| ==> bb[k].active ensures i in xlower {
      var k :| 0 <= k < |bb| && Distance(cs, bb[k].parts, raise, cs.numVars) == 1 &&
        ForcedLow(cs, bb[k].parts, raise, i);
      assert !BB.cubes[k].active;
    }
  }

  /** A cube whose only conflict is lowered away misses the new overexpanded cube. */
  lemma LoweredOut(cs: Shape, p: set<nat>, raise: set<nat>, free: set<nat>, xlower: set<nat>)
    requires Distance(cs, p, raise, cs.numVars) == 1 && p <= cs.fullset
    requires forall i: nat :: ForcedLow(cs, p, raise, i) ==> i in xlower
    ensures !Distance0(cs, p, raise + (free - xlower))
  {
    var v := OneConflict(cs, p, raise, cs.numVars);
    forall i | i in p * cs.varMask[v] ensures i in xlower && i !in raise {
      assert ForcedLow(cs, p, raise, i);
      assert i !in p * raise * cs.varMask[v];
    }
    assert p * (raise + (free - xlower)) * cs.varMask[v] == {};
  }

  /** ... so if nothing is lowered, no cube was at distance 1. */
  lemma FlagsAfter(cs: Shape, p: set<nat>, raise: set<nat>, free: set<nat>, xlower: set<nat>, active: bool)
    requires p <= cs.fullset && (Distance0(cs, p, raise + free) ==> active)
    requires active ==> Distance(cs, p, raise, cs.numVars) >= 1
    requires active && Distance(cs, p, raise, cs.numVars) == 1 ==>
      forall i: nat :: ForcedLow(cs, p, raise, i) ==> i in xlower
    ensures active && Distance(cs, p, raise, cs.numVars) >= 2 && Distance0(cs, p, raise + (free - xlower)) <==>
            Distance0(cs, p, raise + (free - xlower))
    ensures xlower == {} && Distance0(cs, p, raise + free) ==> Distance(cs, p, raise, cs.numVars) >= 2
  {
    if Distance0(cs, p, raise + (free - xlower)) {
      MeetsLess(cs, p, raise + (free - xlower), raise + free);
    }
    if active && Distance(cs, p, raise, cs.numVars) == 1 {
      LoweredOut(cs, p, raise, free, xlower);
    }
    if xlower == {} {
      assert free - xlower == free;
    }
  }

  ghost predicate PartsKept(a: seq<Cube>, b: seq<Cube>) {
    |a| == |b| && forall k :: 0 <= k < |a| ==> b[k] == a[k].(active := b[k].active)
  }

  ghost predicate PartsFit(cs: Shape, s: seq<Cube>) {
    forall k :: 0 <= k < |s| ==> s[k].parts <= cs.fullset
  }

  /** essen_parts -- afterwards the active blocking cubes are at distance 2 or more. */
  method EssenParts(cs: Shape, BB: Cover, CC: Cover?, raise: set<nat>, free: set<nat>) returns (free': set<nat>)
    requires BB != CC && Counted(BB) && (CC != null ==> Counted(CC) && Coverable(CC.cubes, raise + free))
    requires PartsFit(cs, BB.cubes) && Blocking(cs, BB.cubes, raise + free) && Far(cs, BB.cubes, raise, 1)
    modifies BB, CC
    ensures Counted(BB) && PartsKept(old(BB.cubes), BB.cubes) && free' <= free
    ensures Blocking(cs, BB.cubes, raise + free') && Far(cs, BB.cubes, raise, 2)
    ensures forall i: nat :: i in free && i !in free' ==> LoweredBy(cs, old(BB.cubes), raise, i)
    ensures (forall k :: 0 <= k < |BB.cubes| ==> old(BB.cubes)[k].active) ==>
              forall i: nat :: i in free' ==> !LoweredBy(cs, old(BB.cubes), raise, i)
    ensures CC != null ==> Counted(CC) && Progress(old(CC.cubes), CC.cubes, {}) && Coverable(CC.cubes, raise + free')
    ensures CC != null ==> forall k :: 0 <= k < |CC.cubes| ==> CC.cubes[k].covered == old(CC.cubes)[k].covered
  {
    hide Counted, Coverable, LoweredBy, Distance0, Distance, ForcedLow;
    ghost var bb := BB.cubes;
    var xlower := ForceDistanceOne(cs, BB, raise);
    forall k | 0 <= k < |bb|
      ensures BB.cubes[k].active && Distance0(cs, bb[k].parts, raise + (free - xlower)) <==>
              Distance0(cs, bb[k].parts, raise + (free - xlower))
      ensures xlower == {} && Distance0(cs, bb[k].parts, raise + free) ==> BB.cubes[k].active
    {
      FlagsAfter(cs, bb[k].parts, raise, free, xlower, bb[k].active);
    }
    free' := free;
    if xlower != {} {
      free' := free - xlower;
      ElimLowering(cs, BB, CC, raise, free');
    }
  }

  // ---------- select_feasible ----------

  /** essen_raising -- raise the free parts that no active blocking cube has. */
  method EssenRaising(cs: Shape, BB: Cover, raise: set<nat>, free: set<nat>) returns (raise': set<nat>, free': set<nat>)
    ensures raise <= raise' && free' <= free && raise' + free' == raise + free
    ensures forall k :: 0 <= k < |BB.cubes| && BB.cubes[k].active ==>
      BB.cubes[k].parts * raise' == BB.cubes[k].parts * raise
  {
    var xraise: set<nat> := {};
    for k := 0 to |BB.cubes|
      invariant forall j :: 0 <= j < k && BB.cubes[j].active ==> BB.cubes[j].parts <= xraise
    {
      if BB.cubes[k].active {
        xraise := xraise + BB.cubes[k].parts;
      }
    }
    xraise := free - xraise;
    raise', free' := raise + xraise, free - xraise;
  }

  lemma FarKept(cs: Shape, bb: seq<Cube>, raise: set<nat>, raise': set<nat>, n: nat)
    requires Far(cs, bb, raise, n)
    requires forall k :: 0 <= k < |bb| && bb[k].active ==> bb[k].parts * raise' == bb[k].parts * raise
    ensures Far(cs, bb, raise', n)
  {
    forall k | 0 <= k < |bb| && bb[k].active ensures Distance(cs, bb[k].parts, raise', cs.numVars) >= n {
      SameDistance(cs, bb[k].parts, raise, raise', cs.numVars);
    }
  }

  /** Raising c keeps the active blocking cubes at distance 1. */
  ghost predicate Feasible(cs: Shape, bb: seq<Cube>, raise: set<nat>, c: set<nat>) {
    Far(cs, bb, raise + c, 1)
  }

  /** Some blocking cube meets any cube that contains raise and c. */
  ghost predicate Hopeless(cs: Shape, bb: seq<Cube>, raise: set<nat>, c: set<nat>) {
    exists k :: 0 <= k < |bb| && Distance0(cs, bb[k].parts, raise + c)
  }

  /** feasibly_covered */
  method FeasiblyCovered(cs: Shape, BB: Cover, c: set<nat>, raise: set<nat>) returns (yes: bool, newLower: set<nat>)
    ensures yes ==> Feasible(cs, BB.cubes, raise, c) && newLower !! c
    ensures !yes ==> Hopeless(cs, BB.cubes, raise, c)
  {
    var r := raise + c;
    newLower := {};
    for k := 0 to |BB.cubes|
      invariant newLower !! c
      invariant forall j :: 0 <= j < k && BB.cubes[j].active ==> Distance(cs, BB.cubes[j].parts, r, cs.numVars) >= 1
    {
      var p := BB.cubes[k].parts;
      if BB.cubes[k].active {
        var dist := Cdist01(cs, p, r);
        if dist == 0 {
          DistanceZero(cs, p, r);
          return false, newLower;
        } else if dist == 1 {
          newLower := ForceLower(cs, newLower, p, r);
          forall i | i in c ensures !ForcedLow(cs, p, r, i) {
            if i in cs.fullset && i in p {
              assert i in cs.varMask[cs.partVar[i]];
              assert i in p * r * cs.varMask[cs.partVar[i]];
            }
          }
        }
      }
    }
    yes := true;
  }

  ghost predicate Indices(feas: seq<nat>, n: nat) {
    forall i :: 0 <= i < |feas| ==> feas[i] < n
  }

  /** One of the first n listed cubes lies in the raised parts. */
  ghost predicate SomeRaised(cc: seq<Cube>, feas: seq<nat>, n: nat, raise: set<nat>)
    requires Indices(feas, |cc|) && n <= |feas|
  {
    exists i :: 0 <= i < n && cc[feas[i]].parts <= raise
  }

  /** The indices of the active covering cubes. */
  method ActiveIndices(CC: Cover) returns (feas: seq<nat>)
    ensures forall k :: 0 <= k < |CC.cubes| ==> (CC.cubes[k].active <==> k in feas)
    ensures Indices(feas, |CC.cubes|)
  {
    feas := [];
    for k := 0 to |CC.cubes|
      invariant Indices(feas, k)
      invariant forall j :: 0 <= j < k ==> (CC.cubes[j].active <==> j in feas)
    {
      if CC.cubes[k].active {
        feas := feas + [k];
      }
    }
  }

  /** Every active covering cube is listed or hopeless. */
  ghost predicate ListedOrHopeless(cs: Shape, bb: seq<Cube>, cc: seq<Cube>, feas: seq<nat>, raise: set<nat>) {
    forall k :: 0 <= k < |cc| && cc[k].active ==> k in feas || Hopeless(cs, bb, raise, cc[k].parts)
  }

  lemma HopelessGrows(cs: Shape, bb: seq<Cube>, bb': seq<Cube>, raise: set<nat>, raise': set<nat>, c: set<nat>)
    requires Hopeless(cs, bb, raise, c) && raise <= raise'
    requires |bb| == |bb'| && forall k :: 0 <= k < |bb| ==> bb'[k].parts == bb[k].parts
    ensures Hopeless(cs, bb', raise', c)
  {
    var k :| 0 <= k < |bb| && Distance0(cs, bb[k].parts, raise + c);
    MeetsLess(cs, bb[k].parts, raise + c, raise' + c);
  }

  lemma ListedGrows(cs: Shape, bb: seq<Cube>, bb': seq<Cube>, cc: seq<Cube>, cc': seq<Cube>, feas: seq<nat>,
                    raise: set<nat>, raise': set<nat>)
    requires ListedOrHopeless(cs, bb, cc, feas, raise) && raise <= raise'
    requires |bb| == |bb'| && forall k :: 0 <= k < |bb| ==> bb'[k].parts == bb[k].parts
    requires |cc| == |cc'| && forall k :: 0 <= k < |cc| ==>
      cc'[k].parts == cc[k].parts && (cc'[k].active ==> cc[k].active)
    ensures ListedOrHopeless(cs, bb', cc', feas, raise')
  {
    forall k | 0 <= k < |cc'| && cc'[k].active && k !in feas ensures Hopeless(cs, bb', raise', cc'[k].parts) {
      HopelessGrows(cs, bb, bb', raise, raise', cc[k].parts);
    }
  }

  /** A hopeless cube never lies in the raised parts. */
  lemma HopelessUncovered(cs: Shape, bb: seq<Cube>, raise: set<nat>, c: set<nat>)
    requires Orthogonal(cs, bb, raise) && Hopeless(cs, bb, raise, c)
    ensures !(c <= raise)
  {
    assert c <= raise ==> raise + c == raise;
  }

  /** What the scan of the feasible list leaves: feasible cubes, with the parts they would force low. */
  ghost predicate FeasibleList(cs: Shape, bb: seq<Cube>, cc: seq<Cube>, raise: set<nat>, feas: seq<nat>,
                               newLower: seq<set<nat>>) {
    && |feas| == |newLower|
    && forall i :: 0 <= i < |feas| ==>
         && feas[i] < |cc| && cc[feas[i]].active && !(cc[feas[i]].parts <= raise)
         && Feasible(cs, bb, raise, cc[feas[i]].parts)
         && newLower[i] !! cc[feas[i]].parts
  }

  /** One cube of the feasible list: covered by now, feasible, or dropped. */
  method CheckFeasible(cs: Shape, BB: Cover, CC: Cover, raise: set<nat>, x: nat, super: set<nat>, num: nat)
    returns (keep: bool, lower: set<nat>, super': set<nat>, num': nat)
    requires BB != CC && Counted(CC) && x < |CC.cubes|
    modifies CC
    ensures Counted(CC) && Progress(old(CC.cubes), CC.cubes, raise)
    ensures !(CC.cubes[x].parts <= raise) ==> CC.cubes == old(CC.cubes)
    ensures forall k :: 0 <= k < |CC.cubes| && k != x ==> CC.cubes[k] == old(CC.cubes)[k]
    ensures keep ==> CC.cubes[x].active && !(CC.cubes[x].parts <= raise)
    ensures keep ==> Feasible(cs, BB.cubes, raise, CC.cubes[x].parts) && lower !! CC.cubes[x].parts
    ensures !keep && CC.cubes[x].active ==> Hopeless(cs, BB.cubes, raise, CC.cubes[x].parts)
    ensures super <= super' && (super <= raise ==> super' <= raise)
    ensures num' >= num && (num' == num ==> CC.cubes == old(CC.cubes))
  {
    keep, lower, super', num' := false, {}, super, num;
    var p := CC.cubes[x];
    if p.active {
      if p.parts <= raise {
        num', super' := num + 1, super + p.parts;
        Deactivate(CC, x, true);
      } else {
        keep, lower := FeasiblyCovered(cs, BB, p.parts, raise);
      }
    }
  }

  /** The loop over the possibly feasible cubes. */
  method ScanFeasible(cs: Shape, BB: Cover, CC: Cover, raise: set<nat>, feas: seq<nat>, super: set<nat>, num: nat)
    returns (feas': seq<nat>, newLower: seq<set<nat>>, super': set<nat>, num': nat)
    requires BB != CC && Counted(CC) && Indices(feas, |CC.cubes|)
    requires ListedOrHopeless(cs, BB.cubes, CC.cubes, feas, raise)
    modifies CC
    ensures Counted(CC) && Progress(old(CC.cubes), CC.cubes, raise)
    ensures FeasibleList(cs, BB.cubes, CC.cubes, raise, feas', newLower)
    ensures ListedOrHopeless(cs, BB.cubes, CC.cubes, feas', raise)
    ensures |feas'| <= |feas|
    ensures SomeRaised(CC.cubes, feas, |feas|, raise) ==> |feas'| < |feas|
    ensures super <= super' && (super <= raise ==> super' <= raise)
    ensures num' >= num && (num' == num ==> CC.cubes == old(CC.cubes))
  {
    feas', newLower, super', num' := [], [], super, num;
    ghost var cc := CC.cubes;
    for i := 0 to |feas|
      invariant Counted(CC) && Progress(cc, CC.cubes, raise)
      invariant FeasibleList(cs, BB.cubes, CC.cubes, raise, feas', newLower)
      invariant forall k :: 0 <= k < |CC.cubes| && CC.cubes[k].active ==>
        k in feas' || k in feas[i..] || Hopeless(cs, BB.cubes, raise, CC.cubes[k].parts)
      invariant |feas'| <= i
      invariant SomeRaised(CC.cubes, feas, i, raise) ==> |feas'| < i
      invariant super <= super' && (super <= raise ==> super' <= raise)
      invariant num' >= num && (num' == num ==> CC.cubes == cc)
    {
      var x := feas[i];
      assert feas[i..] == [x] + feas[i + 1..];
      ghost var before := CC.cubes;
      var keep, lower;
      keep, lower, super', num' := CheckFeasible(cs, BB, CC, raise, x, super', num');
      ProgressTrans(cc, before, CC.cubes, raise, raise);
      FeasibleKept(cs, BB.cubes, before, CC.cubes, raise, feas', newLower, x);
      if keep {
        feas', newLower := feas' + [x], newLower + [lower];
      }
    }
  }

  lemma FeasibleKept(cs: Shape, bb: seq<Cube>, cc: seq<Cube>, cc': seq<Cube>, raise: set<nat>, feas: seq<nat>,
                     newLower: seq<set<nat>>, x: nat)
    requires FeasibleList(cs, bb, cc, raise, feas, newLower) && Progress(cc, cc', raise) && x < |cc|
    requires !(cc'[x].parts <= raise) ==> cc' == cc
    requires forall k :: 0 <= k < |cc| && k != x ==> cc'[k] == cc[k]
    ensures FeasibleList(cs, bb, cc', raise, feas, newLower)
  {
  }

  /** The best feasible cube: the one that leaves most others feasible, then the smallest. */
  method PickBest(cs: Shape, ghost bb: seq<Cube>, CC: Cover, ghost raise: set<nat>, free: set<nat>, feas: seq<nat>,
                  newLower: seq<set<nat>>) returns (bestfeas: nat)
    requires FeasibleList(cs, bb, CC.cubes, raise, feas, newLower) && feas != []
    ensures bestfeas in feas
  {
    bestfeas := 0;
    var bestcount, bestsize := 0, 9999;
    for i := 0 to |feas|
      invariant i > 0 ==> bestcount > 0
      invariant bestcount > 0 ==> bestfeas in feas
    {
      var size := |CC.cubes[feas[i]].parts * free|;
      var count := 0;
      for j := 0 to |feas|
        invariant j > i ==> count > 0
      {
        if newLower[i] !! CC.cubes[feas[j]].parts {
          count := count + 1;
        }
      }
      if count > bestcount {
        bestcount, bestfeas, bestsize := count, feas[i], size;
      } else if count == bestcount && size < bestsize {
        bestfeas, bestsize := feas[i], size;
      }
    }
  }

  /** The invariant of an expansion. */
  ghost predicate Expanding(cs: Shape, bb: seq<Cube>, cc: seq<Cube>, raise: set<nat>, free: set<nat>) {
    && PartsFit(cs, bb) && raise + free <= cs.fullset
    && Blocking(cs, bb, raise + free) && Far(cs, bb, raise, 2)
    && Coverable(cc, raise + free)
  }

  /** Raise the best feasible cube. */
  method RaiseBest(cs: Shape, BB: Cover, CC: Cover, raise: set<nat>, free: set<nat>, feas: seq<nat>,
                   newLower: seq<set<nat>>)
    returns (raise': set<nat>, free': set<nat>, ghost best: nat)
    requires BB != CC && Counted(BB) && Counted(CC) && Expanding(cs, BB.cubes, CC.cubes, raise, free)
    requires FeasibleList(cs, BB.cubes, CC.cubes, raise, feas, newLower) && feas != []
    modifies BB, CC
    ensures Counted(BB) && Counted(CC) && Expanding(cs, BB.cubes, CC.cubes, raise', free')
    ensures PartsKept(old(BB.cubes), BB.cubes) && Progress(old(CC.cubes), CC.cubes, {})
    ensures forall k :: 0 <= k < |CC.cubes| ==> CC.cubes[k].covered == old(CC.cubes)[k].covered
    ensures raise <= raise' && raise' + free' <= raise + free
    ensures best in feas && best < |CC.cubes| && CC.cubes[best].parts <= raise'
  {
    var bestfeas := PickBest(cs, BB.cubes, CC, raise, free, feas, newLower);
    best := bestfeas;
    var p := CC.cubes[bestfeas].parts;
    raise' := raise + p;
    free' := free - raise';
    assert raise' + free' == raise + free;
    free' := EssenParts(cs, BB, CC, raise', free');
  }

  /** One pass of select_feasible: raise what nothing blocks, then look at the feasible cubes again. */
  method FeasibleRound(cs: Shape, BB: Cover, CC: Cover, raise: set<nat>, free: set<nat>, feas: seq<nat>,
                       super: set<nat>, num: nat)
    returns (raise': set<nat>, free': set<nat>, feas': seq<nat>, newLower: seq<set<nat>>, super': set<nat>, num': nat)
    requires BB != CC && Counted(BB) && Counted(CC) && Expanding(cs, BB.cubes, CC.cubes, raise, free) && super <= raise
    requires Indices(feas, |CC.cubes|) && ListedOrHopeless(cs, BB.cubes, CC.cubes, feas, raise)
    modifies CC
    ensures Counted(CC) && Expanding(cs, BB.cubes, CC.cubes, raise', free')
    ensures Progress(old(CC.cubes), CC.cubes, raise')
    ensures raise <= raise' && raise' + free' == raise + free && super <= super' <= raise'
    ensures FeasibleList(cs, BB.cubes, CC.cubes, raise', feas', newLower)
    ensures ListedOrHopeless(cs, BB.cubes, CC.cubes, feas', raise')
    ensures |feas'| <= |feas|
    ensures SomeRaised(old(CC.cubes), feas, |feas|, raise) ==> |feas'| < |feas|
    ensures num' >= num && (num' == num ==> CC.cubes == old(CC.cubes))
  {
    raise', free' := EssenRaising(cs, BB, raise, free);
    FarKept(cs, BB.cubes, raise, raise', 2);
    ListedGrows(cs, BB.cubes, BB.cubes, CC.cubes, CC.cubes, feas, raise, raise');
    ghost var cc := CC.cubes;
    feas', newLower, super', num' := ScanFeasible(cs, BB, CC, raise', feas, super, num);
    if SomeRaised(cc, feas, |feas|, raise) {
      var i :| 0 <= i < |feas| && cc[feas[i]].parts <= raise;
      assert CC.cubes[feas[i]].parts <= raise';
    }
  }

  /** select_feasible -- cover cubes while some can be covered; the active ones that are left never will be. */
  method SelectFeasible(cs: Shape, BB: Cover, CC: Cover, raise0: set<nat>, free0: set<nat>, super0: set<nat>, num0: nat)
    returns (raise: set<nat>, free: set<nat>, super: set<nat>, num: nat)
    requires BB != CC && Counted(BB) && Counted(CC) && Expanding(cs, BB.cubes, CC.cubes, raise0, free0) &&
      super0 <= raise0
    modifies BB, CC
    ensures Counted(BB) && Counted(CC) && Expanding(cs, BB.cubes, CC.cubes, raise, free)
    ensures PartsKept(old(BB.cubes), BB.cubes) && Progress(old(CC.cubes), CC.cubes, raise)
    ensures raise0 <= raise && raise + free <= raise0 + free0 && super0 <= super <= raise
    ensures ListedOrHopeless(cs, BB.cubes, CC.cubes, [], raise)
    ensures num >= num0 && (num == num0 ==>
              forall k :: 0 <= k < |CC.cubes| ==> CC.cubes[k].covered == old(CC.cubes)[k].covered)
  {
    hide Counted, Expanding, FeasibleList;
    raise, free, super, num := raise0, free0, super0, num0;
    var feas: seq<nat> := ActiveIndices(CC);
    ghost var bb, cc, first := BB.cubes, CC.cubes, true;
    while true
      invariant Counted(BB) && Counted(CC) && Expanding(cs, BB.cubes, CC.cubes, raise, free)
      invariant PartsKept(bb, BB.cubes) && Progress(cc, CC.cubes, raise)
      invariant raise0 <= raise && raise + free <= raise0 + free0 && super0 <= super <= raise
      invariant Indices(feas, |CC.cubes|) && ListedOrHopeless(cs, BB.cubes, CC.cubes, feas, raise)
      invariant !first ==> SomeRaised(CC.cubes, feas, |feas|, raise)
      invariant num >= num0 && (num == num0 ==> forall k :: 0 <= k < |cc| ==> CC.cubes[k].covered == cc[k].covered)
      decreases |feas| + if first then 1 else 0
    {
      var newLower;
      ghost var cc0, raise2 := CC.cubes, raise;
      raise, free, feas, newLower, super, num := FeasibleRound(cs, BB, CC, raise, free, feas, super, num);
      ProgressTrans(cc, cc0, CC.cubes, raise2, raise);
      if |feas| == 0 {
        return;
      }
      ghost var cc1, bb1, raise1 := CC.cubes, BB.cubes, raise;
      ghost var best;
      raise, free, best := RaiseBest(cs, BB, CC, raise, free, feas, newLower);
      ProgressTrans(cc, cc1, CC.cubes, raise1, raise);
      ListedGrows(cs, bb1, BB.cubes, cc1, CC.cubes, feas, raise1, raise);
      first := false;
    }
  }

  // ---------- most_frequent ----------

  /** How many active cubes have part i. */
  ghost function CountWith(cc: seq<Cube>, i: nat): nat {
    if cc == [] then 0 else
      CountWith(cc[..|cc| - 1], i) + if cc[|cc| - 1].active && i in cc[|cc| - 1].parts then 1 else 0
  }

  ghost function CubesOf(CC: Cover?): seq<Cube>
    reads CC
  {
    if CC == null then [] else CC.cubes
  }

  /** set_adjcnt over the active cubes. */
  method CountParts(cs: Shape, CC: Cover?) returns (count: seq<nat>)
    ensures |count| == cs.size && forall i :: 0 <= i < cs.size ==> count[i] == CountWith(CubesOf(CC), i)
  {
    count := seq(cs.size, _ => 0);
    if CC != null {
      for k := 0 to |CC.cubes|
        invariant |count| == cs.size && forall i :: 0 <= i < cs.size ==> count[i] == CountWith(CC.cubes[..k], i)
      {
        assert CC.cubes[..k + 1][..k] == CC.cubes[..k];
        var p := CC.cubes[k];
        if p.active {
          count := seq(cs.size, i requires 0 <= i < cs.size && |count| == cs.size =>
            count[i] + if i in p.parts then 1 else 0);
        }
      }
      assert CC.cubes[..|CC.cubes|] == CC.cubes;
    }
  }

  /** most_frequent -- a free part that most active cubes have; -1 only if no part is free. */
  method MostFrequent(cs: Shape, CC: Cover?, free: set<nat>) returns (bestPart: int)
    requires free <= cs.fullset
    ensures bestPart >= -1 && (bestPart == -1 <==> free == {})
    ensures bestPart >= 0 ==> bestPart in free
    ensures bestPart >= 0 ==> forall i :: i in free ==> CountWith(CubesOf(CC), i) <= CountWith(CubesOf(CC), bestPart)
  {
    var count := CountParts(cs, CC);
    var bestCount := -1;
    bestPart := -1;
    for i := 0 to cs.size
      invariant bestPart == -1 <==> bestCount == -1
      invariant bestPart == -1 || (0 <= bestPart < i && bestPart in free && bestCount == count[bestPart])
      invariant forall j :: 0 <= j < i && j in free ==> count[j] <= bestCount
    {
      if i in free && count[i] > bestCount {
        bestPart, bestCount := i, count[i];
      }
    }
  }

  // ---------- mincov ----------

  /** The parts that p and the raised parts conflict in. */
  ghost predicate LowerSet(cs: Shape, p: set<nat>, raise: set<nat>, b: set<nat>) {
    forall i: nat :: i in b <==> ForcedLow(cs, p, raise, i)
  }

  /** B[j] holds the parts that the active cube of[j] may have lowered; of lists the active cubes in order. */
  ghost predicate LowerSets(cs: Shape, bb: seq<Cube>, raise: set<nat>, B: seq<set<nat>>, of: seq<nat>) {
    && |of| == |B|
    && (forall j :: 0 <= j < |B| ==>
          of[j] < |bb| && bb[of[j]].active && B[j] <= cs.fullset && LowerSet(cs, bb[of[j]].parts, raise, B[j]))
    && (forall k :: 0 <= k < |bb| && bb[k].active ==> k in of)
    && (forall i, j :: 0 <= i < j < |of| ==> of[i] < of[j])
  }

  /** B: for every active blocking cube the parts that may be lowered. */
  method CollectLower(cs: Shape, BB: Cover, raise: set<nat>) returns (B: seq<set<nat>>, ghost of: seq<nat>)
    ensures LowerSets(cs, BB.cubes, raise, B, of)
  {
    B, of := [], [];
    for k := 0 to |BB.cubes|
      invariant |of| == |B|
      invariant forall j :: 0 <= j < |B| ==>
        of[j] < k && BB.cubes[of[j]].active && B[j] <= cs.fullset && LowerSet(cs, BB.cubes[of[j]].parts, raise, B[j])
      invariant forall i, j :: 0 <= i < j < |of| ==> of[i] < of[j]
      invariant forall j :: 0 <= j < k && BB.cubes[j].active ==> j in of
    {
      if BB.cubes[k].active {
        var plower := ForceLower(cs, {}, BB.cubes[k].parts, raise);
        B, of := B + [plower], of + [k];
      }
    }
  }

  /** Is unravelling too expensive? */
  method TooManySets(cs: Shape, B: seq<set<nat>>) returns (yes: bool)
    ensures yes <==> SetCount(cs, B, cs.numBinaryVars, |B|) > 500
  {
    var nset := 0;
    for k := 0 to |B|
      invariant nset == SetCount(cs, B, cs.numBinaryVars, k) <= 500
    {
      var tooMany, expansion := Expansions(cs, B[k], cs.numBinaryVars, 500);
      nset := nset + expansion;
      if tooMany || nset > 500 {
        SetCountMore(cs, B, cs.numBinaryVars, k + 1, |B|);
        return true;
      }
    }
    return false;
  }

  /** Every binary variable has a raised part. */
  ghost predicate BinaryRaised(cs: Shape, raise: set<nat>) {
    forall v :: 0 <= v < cs.numBinaryVars ==> raise * cs.varMask[v] != {}
  }

  /** What may be lowered is not raised. */
  lemma LowerNotRaised(cs: Shape, p: set<nat>, raise: set<nat>, b: set<nat>, v: nat, j: nat)
    requires LowerSet(cs, p, raise, b) && v < cs.numVars && j in raise && j in cs.varMask[v]
    ensures j !in b
  {
    assert j in p ==> j in p * raise * cs.varMask[v];
  }

  lemma AtMostOne(cs: Shape, b: set<nat>, v: nat, j: nat)
    requires v < cs.numBinaryVars && j in cs.varMask[v] && j !in b
    ensures |b * cs.varMask[v]| <= 1
  {
    var f := cs.firstPart[v];
    var i := if j == f then f + 1 else f;
    assert b * cs.varMask[v] <= {i};
    SubsetCard(b * cs.varMask[v], {i});
  }

  /** Where p and raise conflict, a binary variable offers at most one part to lower. */
  lemma BinaryLower(cs: Shape, p: set<nat>, raise: set<nat>, b: set<nat>, v: nat)
    requires LowerSet(cs, p, raise, b) && BinaryRaised(cs, raise) && v < cs.numBinaryVars
    ensures !Expanded(cs, b, v)
  {
    var j :| j in raise * cs.varMask[v];
    LowerNotRaised(cs, p, raise, b, v, j);
    AtMostOne(cs, b, v, j);
  }

  /** If a variable of the lowering set is lowered altogether, p misses what may still be raised. */
  lemma LoweredVariable(cs: Shape, p: set<nat>, raise: set<nat>, b: set<nat>, free: set<nat>, S: set<nat>, v: nat)
    requires LowerSet(cs, p, raise, b) && p <= cs.fullset && v < cs.numVars
    requires ConflictIn(cs, p, raise, v) && b * cs.varMask[v] <= S
    ensures !Distance0(cs, p, raise + (free - S))
  {
    forall i | i in p * cs.varMask[v] ensures i in S && i !in raise {
      assert ForcedLow(cs, p, raise, i);
      assert i in b * cs.varMask[v];
      assert i !in p * raise * cs.varMask[v];
    }
    assert p * (raise + (free - S)) * cs.varMask[v] == {};
  }

  /** Every row of a nonempty set is nonempty. */
  lemma RowsNonEmpty(cs: Shape, b: set<nat>, start: nat, x: nat)
    requires start <= cs.numVars && b <= cs.fullset && b != {}
    ensures Row(cs, b, start, cs.numVars, x) != {}
  {
    var i :| i in b;
    var u := cs.partVar[i];
    if u < start || !Expanded(cs, b, u) {
      assert InRow(cs, b, start, cs.numVars, x, i);
      assert i in Row(cs, b, start, cs.numVars, x);
    } else {
      PickedMember(cs, b, u, x);
      var j := Picked(cs, b, u, x);
      assert InRow(cs, b, start, cs.numVars, x, j);
      assert j in Row(cs, b, start, cs.numVars, x);
    }
  }

  /** A set that hits all unravelled rows keeps the raised cube clear of p. */
  lemma HittingClears(cs: Shape, p: set<nat>, raise: set<nat>, b: set<nat>, free: set<nat>, S: set<nat>)
    requires LowerSet(cs, p, raise, b) && p <= cs.fullset && b <= cs.fullset
    requires Distance(cs, p, raise, cs.numVars) >= 1 && forall v :: 0 <= v < cs.numBinaryVars ==> !Expanded(cs, b, v)
    requires b != {} ==> HitsRows(cs, b, S)
    ensures !Distance0(cs, p, raise + (free - S))
  {
    if b == {} {
      NoConflict(cs, p, raise, cs.numVars);
      var v :| 0 <= v < cs.numVars && ConflictIn(cs, p, raise, v);
      LoweredVariable(cs, p, raise, b, free, S, v);
    } else {
      var v := HittingTakesAll(cs, b, cs.numBinaryVars, S);
      var i :| i in b * cs.varMask[v] * S;
      assert ForcedLow(cs, p, raise, i) && ConflictIn(cs, p, raise, v);
      if !Expanded(cs, b, v) {
        SubsetCard({i}, b * cs.varMask[v]);
      }
      LoweredVariable(cs, p, raise, b, free, S, v);
    }
  }

  /** S hits every row that b unravels into. */
  ghost predicate HitsRows(cs: Shape, b: set<nat>, S: set<nat>) {
    forall x: nat {:trigger Row(cs, b, cs.numBinaryVars, cs.numVars, x)} ::
      x < Product(cs, b, cs.numBinaryVars) ==> Row(cs, b, cs.numBinaryVars, cs.numVars, x) * S != {}
  }

  /** Both parts of a binary variable are offered: one of them can be spared, and it hits every row. */
  lemma BinaryPairFails(cs: Shape, p: set<nat>, raise: set<nat>, free: set<nat>, b: set<nat>, v: nat)
    returns (S: set<nat>)
    requires LowerSet(cs, p, raise, b) && p <= cs.fullset && raise !! free && Distance0(cs, p, raise + free)
    requires v < cs.numBinaryVars && Expanded(cs, b, v)
    ensures HitsRows(cs, b, S) && Distance0(cs, p, raise + (free - S))
  {
    var f := cs.firstPart[v];
    assert cs.varMask[v] == {f, f + 1};
    SubsetCard(b * cs.varMask[v], cs.varMask[v]);
    assert |{f, f + 1}| == 2;
    assert b * cs.varMask[v] == cs.varMask[v];
    assert f in b && f + 1 in b;
    var g :| g in p * (raise + free) * cs.varMask[v];
    var h := if g == f then f + 1 else f;
    S := {h};
    forall x: nat | x < Product(cs, b, cs.numBinaryVars) ensures Row(cs, b, cs.numBinaryVars, cs.numVars, x) * S != {} {
      assert h in cs.varMask[v] && InRow(cs, b, cs.numBinaryVars, cs.numVars, x, h);
      assert h in Row(cs, b, cs.numBinaryVars, cs.numVars, x) * S;
    }
    forall u | 0 <= u < cs.numVars ensures p * (raise + (free - S)) * cs.varMask[u] != {} {
      var j :| j in p * (raise + free) * cs.varMask[u];
      if u == v {
        assert g in p * (raise + (free - S)) * cs.varMask[u];
      } else {
        assert h !in cs.varMask[u];
        assert j in p * (raise + (free - S)) * cs.varMask[u];
      }
    }
  }

  /**
   When is every cover of the unravelled rows safe?  Exactly when the raised cube already has a part of
   each binary variable in which p has both: a cube void there may be raised into p.
   */
  lemma CoversSafeExactly(cs: Shape, p: set<nat>, raise: set<nat>, free: set<nat>, b: set<nat>)
    requires LowerSet(cs, p, raise, b) && p <= cs.fullset && b <= cs.fullset && raise !! free
    requires Distance(cs, p, raise, cs.numVars) >= 1 && Distance0(cs, p, raise + free)
    ensures (forall S :: HitsRows(cs, b, S) ==> !Distance0(cs, p, raise + (free - S))) <==>
            forall v :: 0 <= v < cs.numBinaryVars && cs.varMask[v] <= p ==> raise * cs.varMask[v] != {}
  {
    forall v | 0 <= v < cs.numBinaryVars
      ensures Expanded(cs, b, v) <==> cs.varMask[v] <= p && raise * cs.varMask[v] == {}
    {
      PairOffered(cs, p, raise, b, v);
    }
    if v :| 0 <= v < cs.numBinaryVars && cs.varMask[v] <= p && raise * cs.varMask[v] == {} {
      var S := BinaryPairFails(cs, p, raise, free, b, v);
    } else {
      forall S | HitsRows(cs, b, S) ensures !Distance0(cs, p, raise + (free - S)) {
        HittingClears(cs, p, raise, b, free, S);
      }
    }
  }

  lemma PairOffered(cs: Shape, p: set<nat>, raise: set<nat>, b: set<nat>, v: nat)
    requires LowerSet(cs, p, raise, b) && v < cs.numBinaryVars
    ensures Expanded(cs, b, v) <==> cs.varMask[v] <= p && raise * cs.varMask[v] == {}
  {
    var f := cs.firstPart[v];
    var mask := cs.varMask[v];
    assert mask == {f, f + 1};
    assert ForcedLow(cs, p, raise, f) <==> f in p && ConflictIn(cs, p, raise, v);
    assert ForcedLow(cs, p, raise, f + 1) <==> f + 1 in p && ConflictIn(cs, p, raise, v);
    BothOrNot(b, f);
    if mask <= p {
      assert p * raise * mask == raise * mask;
    }
  }

  lemma BothOrNot(b: set<nat>, f: nat)
    ensures |b * {f, f + 1}| >= 2 <==> f in b && f + 1 in b
  {
    SubsetCard(b * {f, f + 1}, {f, f + 1});
    assert |{f, f + 1}| == 2;
    if f in b && f + 1 in b {
      assert b * {f, f + 1} == {f, f + 1};
    }
  }

  lemma UnravelledHit(cs: Shape, B: seq<set<nat>>, B1: seq<set<nat>>, S: set<nat>, k: nat, x: nat)
    requires k < |B| && B[k] <= cs.fullset && B[k] != {}
    requires Unravelled(cs, B, cs.numBinaryVars, |B|, B1) && Hits(S, B1, |B1|)
    requires x < Product(cs, B[k], cs.numBinaryVars)
    ensures Row(cs, B[k], cs.numBinaryVars, cs.numVars, x) * S != {}
  {
    RowsNonEmpty(cs, B[k], cs.numBinaryVars, x);
    assert RowAmong(cs, B[k], cs.numBinaryVars, x, B1);
    var j :| 0 <= j < |B1| && B1[j] == Row(cs, B[k], cs.numBinaryVars, cs.numVars, x);
  }

  lemma CoverClears(cs: Shape, bb: seq<Cube>, raise: set<nat>, free: set<nat>, B: seq<set<nat>>, of: seq<nat>,
                    B1: seq<set<nat>>, S: set<nat>)
    requires PartsFit(cs, bb) && Blocking(cs, bb, raise + free) && Far(cs, bb, raise, 2) && BinaryRaised(cs, raise)
    requires LowerSets(cs, bb, raise, B, of)
    requires Unravelled(cs, B, cs.numBinaryVars, |B|, B1) && Hits(S, B1, |B1|)
    ensures Orthogonal(cs, bb, raise + (free - S))
  {
    forall k | 0 <= k < |bb| ensures !Distance0(cs, bb[k].parts, raise + (free - S)) {
      if bb[k].active {
        assert k in of;
        var j :| 0 <= j < |of| && of[j] == k;
        forall x: nat | B[j] != {} && x < Product(cs, B[j], cs.numBinaryVars)
          ensures Row(cs, B[j], cs.numBinaryVars, cs.numVars, x) * S != {}
        {
          UnravelledHit(cs, B, B1, S, j, x);
        }
        forall v | 0 <= v < cs.numBinaryVars ensures !Expanded(cs, B[j], v) {
          BinaryLower(cs, bb[k].parts, raise, B[j], v);
        }
        HittingClears(cs, bb[k].parts, raise, B[j], free, S);
      } else if Distance0(cs, bb[k].parts, raise + (free - S)) {
        MeetsLess(cs, bb[k].parts, raise + (free - S), raise + free);
      }
    }
  }

  /** The positions of the void cubes. */
  ghost function VoidOnes(cs: Shape, bb: seq<Cube>): set<nat> {
    set k: nat | k < |bb| && !NonVoid(cs, bb[k].parts)
  }

  /** Void cubes of the OFF-set meet nothing, but mincov counts them: see VoidCubesStall. */
  ghost predicate FewVoid(cs: Shape, bb: seq<Cube>) {
    |VoidOnes(cs, bb)| <= 500
  }

  lemma FewVoidKept(cs: Shape, bb: seq<Cube>, bb': seq<Cube>)
    requires FewVoid(cs, bb) && PartsKept(bb, bb')
    ensures FewVoid(cs, bb')
  {
    assert VoidOnes(cs, bb') == VoidOnes(cs, bb);
  }

  /** With no free part left, only void cubes are still active, and they have nothing to lower. */
  lemma OnlyVoidLeft(cs: Shape, bb: seq<Cube>, raise: set<nat>, k: nat, b: set<nat>)
    requires Expanding(cs, bb, [], raise, {}) && k < |bb| && bb[k].active && LowerSet(cs, bb[k].parts, raise, b)
    ensures raise == cs.fullset && !NonVoid(cs, bb[k].parts) && b == {}
  {
    var p := bb[k].parts;
    DistanceZero(cs, p, raise);
    assert raise + {} == raise;
    if NonVoid(cs, p) {
      MeetsEverything(cs, p);
    }
    forall i | i in p ensures !ConflictIn(cs, p, raise, cs.partVar[i]) {
      assert i in p * raise * cs.varMask[cs.partVar[i]];
    }
    assert forall i: nat :: !ForcedLow(cs, p, raise, i);
  }

  lemma {:induction false} EmptySets(cs: Shape, B: seq<set<nat>>, n: nat)
    requires n <= |B| && forall j :: 0 <= j < |B| ==> B[j] == {}
    ensures SetCount(cs, B, cs.numBinaryVars, n) == n
  {
    if n > 0 {
      EmptySets(cs, B, n - 1);
      assert forall u :: 0 <= u < cs.numVars ==> {} * cs.varMask[u] == {};
      NoneExpanded(cs, B[n - 1], cs.numBinaryVars);
    }
  }

  ghost function ActiveOnes(bb: seq<Cube>): set<nat> {
    set k: nat | k < |bb| && bb[k].active
  }

  /**
   With no part free mincov is heuristic exactly if more than 500 cubes are active, all of them void: then it cannot
   go on.
   */
  lemma StallsExactly(cs: Shape, bb: seq<Cube>, raise: set<nat>, B: seq<set<nat>>, of: seq<nat>)
    requires Expanding(cs, bb, [], raise, {}) && LowerSets(cs, bb, raise, B, of)
    ensures ActiveOnes(bb) <= VoidOnes(cs, bb)
    ensures SetCount(cs, B, cs.numBinaryVars, |B|) > 500 <==> |ActiveOnes(bb)| > 500
  {
    forall j | 0 <= j < |B| ensures B[j] == {} && of[j] in VoidOnes(cs, bb) {
      OnlyVoidLeft(cs, bb, raise, of[j], B[j]);
    }
    EmptySets(cs, B, |B|);
    DistinctMembers(of, ActiveOnes(bb));
  }

  /** A part is free whenever mincov is heuristic. */
  lemma FreeLeft(cs: Shape, bb: seq<Cube>, raise: set<nat>, free: set<nat>, B: seq<set<nat>>, of: seq<nat>)
    requires Expanding(cs, bb, [], raise, free) && FewVoid(cs, bb) && SetCount(cs, B, cs.numBinaryVars, |B|) > 500
    requires LowerSets(cs, bb, raise, B, of)
    ensures free != {}
  {
    if free == {} {
      StallsExactly(cs, bb, raise, B, of);
      SubsetCard(ActiveOnes(bb), VoidOnes(cs, bb));
    }
  }

  lemma {:induction false} DistinctMembers(s: seq<nat>, t: set<nat>)
    requires (forall i, j :: 0 <= i < j < |s| ==> s[i] < s[j]) && forall x :: x in s <==> x in t
    ensures |s| == |t|
  {
    if s != [] {
      var n := |s| - 1;
      assert s == s[..n] + [s[n]];
      DistinctMembers(s[..n], t - {s[n]});
    }
  }

  /**
   With more than 500 void cubes in the OFF-set it need not end.  No free part is left, no active cube is
   near: mincov takes its heuristic branch, most_frequent finds no part to raise, and essen_parts has
   nothing to do, so that the next round of the loop starts from the same state.
   */
  lemma VoidCubesStall(cs: Shape, bb: seq<Cube>, B: seq<set<nat>>)
    requires cs.numVars >= 2 && |bb| > 500 && forall k :: 0 <= k < |bb| ==> bb[k].parts == {} && bb[k].active
    requires |B| == |bb| && forall j :: 0 <= j < |B| ==> LowerSet(cs, bb[j].parts, cs.fullset, B[j])
    ensures Expanding(cs, bb, [], cs.fullset, {}) && SetCount(cs, B, cs.numBinaryVars, |B|) > 500
  {
    forall k | 0 <= k < |bb| ensures Distance(cs, bb[k].parts, cs.fullset, cs.numVars) >= 2 {
      NothingShared(cs, cs.fullset, cs.numVars);
    }
    assert cs.fullset + {} == cs.fullset;
    forall j | 0 <= j < |B| ensures B[j] == {} {
      OnlyVoidLeft(cs, bb, cs.fullset, j, B[j]);
    }
    EmptySets(cs, B, |B|);
  }

  lemma {:induction false} NothingShared(cs: Shape, p: set<nat>, n: nat)
    requires n <= cs.numVars
    ensures Distance(cs, {}, p, n) == n
  {
    if n > 0 {
      NothingShared(cs, p, n - 1);
    }
  }

  /** heuristic_mincov: raise the first free part. */
  method RaiseFirst(cs: Shape, BB: Cover, raise: set<nat>, free: set<nat>) returns (raise': set<nat>, free': set<nat>)
    requires Counted(BB) && free != {} && Expanding(cs, BB.cubes, [], raise, free)
    modifies BB
    ensures Counted(BB) && PartsKept(old(BB.cubes), BB.cubes) && Expanding(cs, BB.cubes, [], raise', free')
    ensures raise <= raise' && raise' + free' <= raise + free && free' < free
  {
    var best := MostFrequent(cs, null, free);
    FarAfterRaise(cs, BB.cubes, raise, best);
    raise' := raise + {best};
    free' := free - raise';
    assert raise' + free' == raise + free;
    free' := EssenParts(cs, BB, null, raise', free');
  }

  /** The covering problem of mincov. */
  method SolveLowering(cs: Shape, B: seq<set<nat>>) returns (xlower: set<nat>, ghost B1: seq<set<nat>>)
    requires forall k :: 0 <= k < |B| ==> B[k] <= cs.fullset
    ensures Unravelled(cs, B, cs.numBinaryVars, |B|, B1) && |B1| == SetCount(cs, B, cs.numBinaryVars, |B|)
    ensures Hits(xlower, B1, |B1|) && forall x :: x in xlower ==> exists k :: 0 <= k < |B1| && x in B1[k]
    ensures |B1| == 1 && B1[0] != {} ==> |xlower| == 1
  {
    var rows := UnravelFrom(cs, B, cs.numBinaryVars);
    B1 := rows;
    xlower := DoSmMinimumCover(rows);
  }

  /** mincov -- either everything is decided, or one more part has been raised. */
  method MinCov(cs: Shape, BB: Cover, raise: set<nat>, free: set<nat>) returns (raise': set<nat>, free': set<nat>)
    requires Counted(BB) && BB.activeCount > 0 && Expanding(cs, BB.cubes, [], raise, free) && BinaryRaised(cs, raise)
    requires FewVoid(cs, BB.cubes)
    modifies BB
    ensures PartsKept(old(BB.cubes), BB.cubes) && raise <= raise' && raise' + free' <= raise + free
    ensures (BB.activeCount == 0 && free' == {} && Orthogonal(cs, BB.cubes, raise')) ||
            (Counted(BB) && Expanding(cs, BB.cubes, [], raise', free') && free' < free)
  {
    ghost var of;
    var B;
    B, of := CollectLower(cs, BB, raise);
    var heuristic := TooManySets(cs, B);
    if !heuristic {
      var xlower;
      ghost var B1;
      xlower, B1 := SolveLowering(cs, B);
      CoverClears(cs, BB.cubes, raise, free, B, of, B1, xlower);
      raise', free' := raise + (free - xlower), {};
      BB.activeCount := 0;
    } else {
      FreeLeft(cs, BB.cubes, raise, free, B, of);
      raise', free' := RaiseFirst(cs, BB, raise, free);
    }
  }

  // ---------- mincov on a void cube ----------

  /** The raised parts are void in every variable in which they conflict with p, and p has both parts of it. */
  ghost predicate VoidPairs(cs: Shape, p: set<nat>, raise: set<nat>) {
    forall v :: 0 <= v < cs.numVars && ConflictIn(cs, p, raise, v) ==> v < cs.numBinaryVars && cs.varMask[v] <= p
  }

  /** Lowering one part of such a variable leaves the other. */
  lemma OneLowered(cs: Shape, p: set<nat>, raise: set<nat>, free: set<nat>, b: set<nat>, x: nat)
    requires LowerSet(cs, p, raise, b) && VoidPairs(cs, p, raise) && Distance0(cs, p, raise + free) && raise !! free &&
      x in b
    requires cs.fullset <= raise + free
    ensures Distance0(cs, p, raise + (free - {x}))
  {
    assert ForcedLow(cs, p, raise, x);
    var v := cs.partVar[x];
    var f := cs.firstPart[v];
    assert x in cs.varMask[v] && cs.varMask[v] <= p;
    assert x !in raise by { assert x !in p * raise * cs.varMask[v]; }
    var y := if x == f then f + 1 else f;
    assert y in cs.varMask[v];
    forall u | 0 <= u < cs.numVars ensures p * (raise + (free - {x})) * cs.varMask[u] != {} {
      if u == v {
        assert y in p * (raise + (free - {x})) * cs.varMask[u];
      } else {
        var j :| j in p * (raise + free) * cs.varMask[u];
        assert x !in cs.varMask[u];
        assert j in p * (raise + (free - {x})) * cs.varMask[u];
      }
    }
  }

  lemma LoweredInConflict(cs: Shape, p: set<nat>, raise: set<nat>, b: set<nat>, u: nat)
    requires LowerSet(cs, p, raise, b) && u < cs.numVars && b <= cs.fullset
    ensures b * cs.varMask[u] != {} ==> ConflictIn(cs, p, raise, u)
  {
    if i :| i in b * cs.varMask[u] {
      assert ForcedLow(cs, p, raise, i);
    }
  }

  /** Such a cube is not unravelled: it is the only row. */
  lemma SingleLowering(cs: Shape, p: set<nat>, raise: set<nat>, b: set<nat>, B1: seq<set<nat>>)
    requires LowerSet(cs, p, raise, b) && VoidPairs(cs, p, raise) && b <= cs.fullset
    ensures SetCount(cs, [b], cs.numBinaryVars, 1) == 1
    ensures Unravelled(cs, [b], cs.numBinaryVars, 1, B1) && |B1| == 1 ==> B1 == [b]
  {
    forall u | cs.numBinaryVars <= u < cs.numVars ensures b * cs.varMask[u] == {} {
      LoweredInConflict(cs, p, raise, b, u);
    }
    NoneExpanded(cs, b, cs.numBinaryVars);
    assert SetCount(cs, [b], cs.numBinaryVars, 0) == 0;
    forall x: nat ensures Row(cs, b, cs.numBinaryVars, cs.numVars, x) == b {
      forall i | i in b ensures InRow(cs, b, cs.numBinaryVars, cs.numVars, x, i) {
        assert i in b * cs.varMask[cs.partVar[i]];
      }
    }
    if Unravelled(cs, [b], cs.numBinaryVars, 1, B1) && |B1| == 1 {
      assert FromSome(cs, [b], cs.numBinaryVars, 1, B1[0]);
    }
  }

  /**
   The cover that mincov finds for a void cube, when one cube of the OFF-set is left and conflicts only in
   void variables: it lowers a single part, and the raised cube meets the OFF-set.
   */
  method MinCovVoid(cs: Shape, BB: Cover, raise: set<nat>, free: set<nat>) returns (raise': set<nat>)
    requires |BB.cubes| == 1 && BB.cubes[0].active && BB.cubes[0].parts <= cs.fullset <= raise + free && raise !! free
    requires var p := BB.cubes[0].parts;
             NonVoid(cs, p) && Distance(cs, p, raise, cs.numVars) >= 1 && VoidPairs(cs, p, raise)
    ensures Distance0(cs, BB.cubes[0].parts, raise')
  {
    var B, heuristic, xlower;
    ghost var p, b := BB.cubes[0].parts, {};
    ghost var B1;
    B, b := LowerVoid(cs, BB, raise);
    SingleLowering(cs, p, raise, b, []);
    heuristic := TooManySets(cs, B);
    assert !heuristic;
    xlower, B1 := SolveLowering(cs, B);
    SingleLowering(cs, p, raise, b, B1);
    CoverMeets(cs, p, raise, free, b, xlower);
    raise' := raise + (free - xlower);
  }

  method LowerVoid(cs: Shape, BB: Cover, raise: set<nat>) returns (B: seq<set<nat>>, ghost b: set<nat>)
    requires |BB.cubes| == 1 && BB.cubes[0].active
    ensures B == [b] && b <= cs.fullset && LowerSet(cs, BB.cubes[0].parts, raise, b)
  {
    ghost var of;
    B, of := CollectLower(cs, BB, raise);
    assert 0 in of;
    OneActive(of);
    b := B[0];
  }

  lemma CoverMeets(cs: Shape, p: set<nat>, raise: set<nat>, free: set<nat>, b: set<nat>, xlower: set<nat>)
    requires p <= cs.fullset <= raise + free && raise !! free && b <= cs.fullset && LowerSet(cs, p, raise, b)
    requires NonVoid(cs, p) && Distance(cs, p, raise, cs.numVars) >= 1 && VoidPairs(cs, p, raise)
    requires (b != {} ==> |xlower| == 1) && forall x :: x in xlower ==> x in b
    ensures Distance0(cs, p, raise + (free - xlower))
  {
    SomethingLowered(cs, p, raise, b);
    OnlyMember(xlower, b);
    var x :| x in xlower;
    MeetsAll(cs, p, raise + free);
    OneLowered(cs, p, raise, free, b, x);
    assert free - xlower == free - {x};
  }

  lemma OneActive(of: seq<nat>)
    requires (forall i, j :: 0 <= i < j < |of| ==> of[i] < of[j]) && forall j :: 0 <= j < |of| ==> of[j] < 1
    ensures |of| <= 1
  {
    assert of != [] ==> of[0] == of[|of| - 1];
  }

  lemma SomethingLowered(cs: Shape, p: set<nat>, raise: set<nat>, b: set<nat>)
    requires LowerSet(cs, p, raise, b) && NonVoid(cs, p) && p <= cs.fullset && Distance(cs, p, raise, cs.numVars) >= 1
    ensures b != {}
  {
    NoConflict(cs, p, raise, cs.numVars);
    var v :| 0 <= v < cs.numVars && ConflictIn(cs, p, raise, v);
    var i :| i in p * cs.varMask[v];
    assert ForcedLow(cs, p, raise, i);
  }

  lemma OnlyMember(s: set<nat>, p: set<nat>)
    requires |s| == 1 && forall x :: x in s ==> x in p
    ensures exists x :: x in s && s == {x} && x in p
  {
    var x :| x in s;
    SubsetCard({x}, s);
  }

  lemma MeetsAll(cs: Shape, p: set<nat>, q: set<nat>)
    requires NonVoid(cs, p) && p <= cs.fullset <= q
    ensures Distance0(cs, p, q)
  {
    MeetsEverything(cs, p);
    MeetsLess(cs, p, cs.fullset, q);
  }

  /** Three binary variables. */
  function ThreeVariables(): (cs: CubeStruct)
    ensures cs.Valid()
  {
    CubeStruct(3, 3, 6, [0, 2, 4], [1, 3, 5], [{0, 1}, {2, 3}, {4, 5}], [0, 0, 1, 1, 2, 2], {0, 1, 2, 3, 4, 5},
               [false, false, false])
  }

  lemma ThreeVariableFacts(off: set<nat>, raise: set<nat>)
    requires off == {0, 1, 2, 3, 4} && raise == {4}
    ensures var cs: Shape := ThreeVariables();
            && off <= cs.fullset && NonVoid(cs, off) && VoidPairs(cs, off, raise) && !Distance0(cs, off, raise)
            && Distance(cs, off, raise, cs.numVars) == 2
  {
    var cs: Shape := ThreeVariables();
    assert 0 in off * cs.varMask[0] && 2 in off * cs.varMask[1] && 4 in off * cs.varMask[2];
    assert off * raise == {4};
    assert 4 in off * raise * cs.varMask[2];
    assert ConflictIn(cs, off, raise, 0) && ConflictIn(cs, off, raise, 1) && !ConflictIn(cs, off, raise, 2);
    assert Distance(cs, off, raise, 0) == 0;
    assert Distance(cs, off, raise, 1) == 1;
    assert Distance(cs, off, raise, 2) == 2;
  }

  /**
   For example the ON-set cube {4}, void in two of three variables, and the OFF-set cube {0,1,2,3,4}: the two
   are orthogonal, but the cube that the run of expand1 makes of the first meets the second.
   */
  method VoidCubeExpanded() returns (raise: set<nat>)
    ensures Distance0(ThreeVariables(), {0, 1, 2, 3, 4}, {4}) == false
    ensures Distance0(ThreeVariables(), {0, 1, 2, 3, 4}, raise)
  {
    hide ThreeVariables, NonVoid, VoidPairs, Distance, Counted, Coverable, Progress;
    var cs: Shape := ThreeVariables();
    var off: set<nat> := {0, 1, 2, 3, 4};
    var BB := new Cover([MkCube(off)]);
    raise := {4};
    var free := cs.fullset - raise;
    ThreeVariableFacts(off, raise);
    SetupBlocking(BB);
    assert raise + free == cs.fullset;
    free := EssenParts(cs, BB, null, raise, free);
    raise := MinCovVoid(cs, BB, raise, free);
  }

  // ---------- expand1 ----------

  lemma {:induction false} AllActive(s: seq<Cube>)
    requires forall k :: 0 <= k < |s| ==> s[k].active
    ensures NumActive(s) == |s|
  {
    if s != [] {
      AllActive(s[..|s| - 1]);
    }
  }

  /** setup_BB_CC, the blocking cubes: all of them are active. */
  method SetupBlocking(BB: Cover)
    modifies BB
    ensures Counted(BB) && |BB.cubes| == |old(BB.cubes)|
    ensures forall k :: 0 <= k < |BB.cubes| ==> BB.cubes[k] == old(BB.cubes)[k].(active := true)
  {
    BB.activeCount := |BB.cubes|;
    for k := 0 to |BB.cubes|
      invariant |BB.cubes| == |old(BB.cubes)| && BB.activeCount == |BB.cubes|
      invariant forall j :: 0 <= j < k ==> BB.cubes[j] == old(BB.cubes)[j].(active := true)
      invariant forall j :: k <= j < |BB.cubes| ==> BB.cubes[j] == old(BB.cubes)[j]
    {
      BB.cubes := BB.cubes[k := BB.cubes[k].(active := true)];
    }
    AllActive(BB.cubes);
  }

  lemma NumActivePrefix(s: seq<Cube>, t: seq<Cube>, k: nat)
    requires |s| == |t| && k < |s| && s[..k] == t[..k]
    ensures NumActive(t[..k + 1]) == NumActive(s[..k]) + if t[k].active then 1 else 0
  {
    assert t[..k + 1][..k] == s[..k];
  }

  /** setup_BB_CC, the covering cubes: those neither prime nor covered are active. */
  method SetupCovering(CC: Cover)
    modifies CC
    ensures Counted(CC) && |CC.cubes| == |old(CC.cubes)|
    ensures forall k :: 0 <= k < |CC.cubes| ==> var p := old(CC.cubes)[k];
      CC.cubes[k] == p.(active := !p.covered && !p.prime)
  {
    CC.activeCount := |CC.cubes|;
    for k := 0 to |CC.cubes|
      invariant |CC.cubes| == |old(CC.cubes)| && CC.activeCount == |CC.cubes| - k + NumActive(CC.cubes[..k])
      invariant forall j :: 0 <= j < k ==>
        var p := old(CC.cubes)[j]; CC.cubes[j] == p.(active := !p.covered && !p.prime)
      invariant forall j :: k <= j < |CC.cubes| ==> CC.cubes[j] == old(CC.cubes)[j]
    {
      ghost var before := CC.cubes;
      if CC.cubes[k].covered || CC.cubes[k].prime {
        CC.activeCount := CC.activeCount - 1;
        CC.cubes := CC.cubes[k := CC.cubes[k].(active := false)];
      } else {
        CC.cubes := CC.cubes[k := CC.cubes[k].(active := true)];
      }
      NumActivePrefix(before, CC.cubes, k);
    }
    assert CC.cubes[..|CC.cubes|] == CC.cubes;
  }

  lemma MeetsEverything(cs: Shape, p: set<nat>)
    requires NonVoid(cs, p) && p <= cs.fullset
    ensures Distance0(cs, p, cs.fullset)
  {
    forall v | 0 <= v < cs.numVars ensures p * cs.fullset * cs.varMask[v] != {} {
      var i :| i in p * cs.varMask[v];
      assert i in p * cs.fullset * cs.varMask[v];
    }
  }

  /** What expand1 may do to the covering cubes; cube c is the one expanded. */
  ghost predicate ExpandMarks(cc: seq<Cube>, cc': seq<Cube>, c: nat, raise: set<nat>) {
    && |cc'| == |cc|
    && forall k :: 0 <= k < |cc| ==>
         && cc'[k] == cc[k].(active := cc'[k].active, covered := cc'[k].covered, prime := cc[k].prime || k == c)
         && (cc[k].covered ==> cc'[k].covered)
         && (cc'[k].covered && !cc[k].covered ==> !cc[k].prime && k != c && cc[k].parts <= raise)
  }

  lemma AllAway(cs: Shape, bb: seq<Cube>, raise: set<nat>)
    requires Orthogonal(cs, bb, raise)
    ensures forall k :: 0 <= k < |bb| ==> Distance(cs, bb[k].parts, raise, cs.numVars) >= 1
  {
    forall k | 0 <= k < |bb| ensures Distance(cs, bb[k].parts, raise, cs.numVars) >= 1 {
      DistanceZero(cs, bb[k].parts, raise);
    }
  }

  /** The families, RAISE and FREESET of expand1 before the first essen_parts. */
  method SetupExpansion(cs: Shape, BB: Cover, CC: Cover, initLower: set<nat>, c: nat)
    returns (raise: set<nat>, free: set<nat>)
    requires BB != CC && c < |CC.cubes| && PartsFit(cs, BB.cubes) && PartsFit(cs, CC.cubes)
    requires Orthogonal(cs, BB.cubes, CC.cubes[c].parts)
    modifies BB, CC
    ensures Counted(BB) && Counted(CC) && PartsFit(cs, BB.cubes) && Blocking(cs, BB.cubes, raise + free)
    ensures Far(cs, BB.cubes, raise, 1) && Coverable(CC.cubes, raise + free)
    ensures PartsKept(old(BB.cubes), BB.cubes) && ExpandMarks(old(CC.cubes), CC.cubes, c, {})
    ensures forall k :: 0 <= k < |CC.cubes| ==> CC.cubes[k].covered == old(CC.cubes)[k].covered
    ensures forall k :: 0 <= k < |CC.cubes| && CC.cubes[k].active ==> !old(CC.cubes)[k].prime && k != c
    ensures raise == old(CC.cubes)[c].parts && raise + free <= raise + (cs.fullset - initLower) &&
      raise + free <= cs.fullset
  {
    hide Blocking, Coverable, Covering, ExpandMarks, Far, Orthogonal, PartsFit, PartsKept, Progress;
    ghost var bb, cc := BB.cubes, CC.cubes;
    CC.cubes := CC.cubes[c := CC.cubes[c].(prime := true)];
    ghost var cc1 := CC.cubes;
    SetupBlocking(BB);
    SetupCovering(CC);
    raise := CC.cubes[c].parts;
    free := cs.fullset - raise;
    SetupDone(cs, bb, BB.cubes, cc, CC.cubes, raise, c);
    CoveringSet(cc, cc1, CC.cubes, c);
    assert raise + free == cs.fullset;
    if initLower != {} {
      ghost var bb1, cc2 := BB.cubes, CC.cubes;
      free := LowerInitially(cs, BB, CC, raise, free, initLower);
      StillSetUp(cs, bb, bb1, BB.cubes, cc, cc2, CC.cubes, raise, c);
    }
    CoveringMarks(cc, CC.cubes, c);
  }

  /** The covering cubes after the setup: cube c is flagged prime, and prime or covered ones are not active. */
  ghost predicate Covering(cc: seq<Cube>, cc': seq<Cube>, c: nat) {
    && |cc'| == |cc|
    && forall k :: 0 <= k < |cc| ==>
         && cc'[k] == cc[k].(active := cc'[k].active, prime := cc[k].prime || k == c)
         && (cc'[k].active ==> !cc[k].prime && k != c)
  }

  lemma CoveringSet(cc: seq<Cube>, cc1: seq<Cube>, cc2: seq<Cube>, c: nat)
    requires c < |cc| && cc1 == cc[c := cc[c].(prime := true)] && |cc2| == |cc1|
    requires forall k :: 0 <= k < |cc1| ==> var p := cc1[k]; cc2[k] == p.(active := !p.covered && !p.prime)
    ensures Covering(cc, cc2, c)
  {
  }

  lemma CoveringMarks(cc: seq<Cube>, cc': seq<Cube>, c: nat)
    requires Covering(cc, cc', c)
    ensures ExpandMarks(cc, cc', c, {}) && |cc'| == |cc|
    ensures forall k :: 0 <= k < |cc'| ==> cc'[k].covered == cc[k].covered
    ensures forall k :: 0 <= k < |cc'| && cc'[k].active ==> !cc[k].prime && k != c
  {
  }

  /** With all blocking cubes active and nothing lowered. */
  lemma SetupDone(cs: Shape, bb: seq<Cube>, bb': seq<Cube>, cc: seq<Cube>, cc': seq<Cube>, raise: set<nat>, c: nat)
    requires Orthogonal(cs, bb, raise) && PartsFit(cs, bb) && PartsFit(cs, cc) && c < |cc| && raise == cc[c].parts
    requires |bb'| == |bb| && forall k :: 0 <= k < |bb| ==> bb'[k] == bb[k].(active := true)
    requires |cc'| == |cc| && forall k :: 0 <= k < |cc| ==> cc'[k].parts == cc[k].parts
    ensures Far(cs, bb', raise, 1) && PartsFit(cs, bb') && Blocking(cs, bb', cs.fullset) && Coverable(cc', cs.fullset)
    ensures PartsKept(bb, bb')
    ensures raise <= cs.fullset
  {
    AllAway(cs, bb, raise);
  }

  /** Cubes only become inactive. */
  lemma StillSetUp(cs: Shape, bb: seq<Cube>, bb1: seq<Cube>, bb2: seq<Cube>, cc: seq<Cube>, cc2: seq<Cube>,
                   cc3: seq<Cube>, raise: set<nat>, c: nat)
    requires PartsKept(bb, bb1) && PartsKept(bb1, bb2) && (forall k :: 0 <= k < |bb1| ==> bb1[k].active)
    requires Far(cs, bb1, raise, 1) && PartsFit(cs, bb1) && Covering(cc, cc2, c) && Progress(cc2, cc3, {})
    requires forall k :: 0 <= k < |cc3| ==> cc3[k].covered == cc2[k].covered
    ensures Far(cs, bb2, raise, 1) && PartsFit(cs, bb2) && PartsKept(bb, bb2) && Covering(cc, cc3, c)
  {
  }

  /** Parts that must not be raised are taken out before the expansion starts. */
  method LowerInitially(cs: Shape, BB: Cover, CC: Cover, raise: set<nat>, free0: set<nat>, initLower: set<nat>)
    returns (free: set<nat>)
    requires BB != CC && Counted(BB) && Counted(CC) && forall k :: 0 <= k < |BB.cubes| ==> BB.cubes[k].active
    modifies BB, CC
    ensures free == free0 - initLower
    ensures Counted(BB) && PartsKept(old(BB.cubes), BB.cubes) && Blocking(cs, BB.cubes, raise + free)
    ensures Counted(CC) && Progress(old(CC.cubes), CC.cubes, {}) && Coverable(CC.cubes, raise + free)
    ensures forall k :: 0 <= k < |CC.cubes| ==> CC.cubes[k].covered == old(CC.cubes)[k].covered
  {
    free := free0 - initLower;
    ElimLowering(cs, BB, CC, raise, free);
  }

  /** expand1 up to the first essen_parts. */
  method StartExpansion(cs: Shape, BB: Cover, CC: Cover, initLower: set<nat>, c: nat)
    returns (raise: set<nat>, free: set<nat>)
    requires BB != CC && c < |CC.cubes| && PartsFit(cs, BB.cubes) && PartsFit(cs, CC.cubes)
    requires Orthogonal(cs, BB.cubes, CC.cubes[c].parts)
    modifies BB, CC
    ensures Counted(BB) && Counted(CC) && Expanding(cs, BB.cubes, CC.cubes, raise, free)
    ensures PartsKept(old(BB.cubes), BB.cubes) && ExpandMarks(old(CC.cubes), CC.cubes, c, {})
    ensures forall k :: 0 <= k < |CC.cubes| ==> CC.cubes[k].covered == old(CC.cubes)[k].covered
    ensures forall k :: 0 <= k < |CC.cubes| && CC.cubes[k].active ==> !old(CC.cubes)[k].prime && k != c
    ensures raise == old(CC.cubes)[c].parts && raise + free <= raise + (cs.fullset - initLower)
  {
    ghost var cc := CC.cubes;
    raise, free := SetupExpansion(cs, BB, CC, initLower, c);
    ghost var cc1 := CC.cubes;
    free := EssenParts(cs, BB, CC, raise, free);
    MarksProgress(cc, cc1, CC.cubes, c, {}, {});
  }

  /** While a covering cube is active, some part is free. */
  lemma FreeForCovering(cs: Shape, bb: seq<Cube>, cc: seq<Cube>, raise: set<nat>, free: set<nat>)
    requires Expanding(cs, bb, cc, raise, free) && ListedOrHopeless(cs, bb, cc, [], raise) && NumActive(cc) > 0
    ensures free != {}
  {
    SomeActive(cc);
    var k :| 0 <= k < |cc| && cc[k].active;
    RaisedOrthogonal(cs, bb, raise, raise + free);
    HopelessUncovered(cs, bb, raise, cc[k].parts);
  }

  lemma MovePart(raise: set<nat>, free: set<nat>, i: nat)
    requires i in free
    ensures raise + {i} + (free - {i}) == raise + free
  {
  }

  /** One step of the loop that raises the most frequent part. */
  method RaiseFrequent(cs: Shape, BB: Cover, CC: Cover, raise: set<nat>, free: set<nat>)
    returns (raise': set<nat>, free': set<nat>)
    requires BB != CC && Counted(BB) && Counted(CC) && Expanding(cs, BB.cubes, CC.cubes, raise, free)
    requires ListedOrHopeless(cs, BB.cubes, CC.cubes, [], raise) && CC.activeCount > 0
    modifies BB, CC
    ensures Counted(BB) && Counted(CC) && Expanding(cs, BB.cubes, CC.cubes, raise', free')
    ensures PartsKept(old(BB.cubes), BB.cubes) && Progress(old(CC.cubes), CC.cubes, {})
    ensures forall k :: 0 <= k < |CC.cubes| ==> CC.cubes[k].covered == old(CC.cubes)[k].covered
    ensures ListedOrHopeless(cs, BB.cubes, CC.cubes, [], raise')
    ensures raise <= raise' && raise' + free' <= raise + free && free' < free
  {
    ghost var bb, cc := BB.cubes, CC.cubes;
    FreeForCovering(cs, bb, cc, raise, free);
    var best := MostFrequent(cs, CC, free);
    FarAfterRaise(cs, BB.cubes, raise, best);
    MovePart(raise, free, best);
    raise', free' := raise + {best}, free - {best};
    free' := EssenParts(cs, BB, CC, raise', free');
    ListedGrows(cs, bb, BB.cubes, cc, CC.cubes, [], raise, raise');
  }

  lemma MarksProgress(a: seq<Cube>, b: seq<Cube>, d: seq<Cube>, c: nat, raise: set<nat>, raise': set<nat>)
    requires ExpandMarks(a, b, c, raise) && Progress(b, d, raise') && raise <= raise'
    requires forall k :: 0 <= k < |b| && b[k].active ==> !a[k].prime && k != c
    ensures ExpandMarks(a, d, c, raise')
    ensures forall k :: 0 <= k < |d| && d[k].active ==> !a[k].prime && k != c
  {
  }

  /** The loop that raises frequent parts until no active covering cube is left. */
  method RaiseCovering(cs: Shape, BB: Cover, CC: Cover, raise0: set<nat>, free0: set<nat>)
    returns (raise: set<nat>, free: set<nat>)
    requires BB != CC && Counted(BB) && Counted(CC) && Expanding(cs, BB.cubes, CC.cubes, raise0, free0)
    requires ListedOrHopeless(cs, BB.cubes, CC.cubes, [], raise0)
    modifies BB, CC
    ensures Counted(BB) && Expanding(cs, BB.cubes, CC.cubes, raise, free)
    ensures PartsKept(old(BB.cubes), BB.cubes) && Progress(old(CC.cubes), CC.cubes, raise)
    ensures forall k :: 0 <= k < |CC.cubes| ==> CC.cubes[k].covered == old(CC.cubes)[k].covered
    ensures raise0 <= raise && raise + free <= raise0 + free0
  {
    raise, free := raise0, free0;
    ghost var bb, cc := BB.cubes, CC.cubes;
    while CC.activeCount > 0
      invariant Counted(BB) && Counted(CC) && Expanding(cs, BB.cubes, CC.cubes, raise, free)
      invariant PartsKept(bb, BB.cubes) && Progress(cc, CC.cubes, raise)
      invariant forall k :: 0 <= k < |CC.cubes| ==> CC.cubes[k].covered == cc[k].covered
      invariant ListedOrHopeless(cs, BB.cubes, CC.cubes, [], raise)
      invariant raise0 <= raise && raise + free <= raise0 + free0
      decreases free
    {
      raise, free := RaiseFrequent(cs, BB, CC, raise, free);
    }
  }

  lemma NoneActive(cs: Shape, bb: seq<Cube>, over: set<nat>)
    requires Blocking(cs, bb, over) && NumActive(bb) == 0
    ensures Orthogonal(cs, bb, over)
  {
    SomeActive(bb);
  }

  /** The loop over mincov, and the final raise. */
  method RaiseBlocking(cs: Shape, BB: Cover, raise0: set<nat>, free0: set<nat>) returns (raise: set<nat>)
    requires Counted(BB) && Expanding(cs, BB.cubes, [], raise0, free0) && BinaryRaised(cs, raise0) &&
      FewVoid(cs, BB.cubes)
    modifies BB
    ensures PartsKept(old(BB.cubes), BB.cubes) && Orthogonal(cs, BB.cubes, raise)
    ensures raise0 <= raise <= raise0 + free0
  {
    raise := raise0;
    var free := free0;
    ghost var bb := BB.cubes;
    while BB.activeCount > 0
      invariant PartsKept(bb, BB.cubes) && raise0 <= raise && raise + free <= raise0 + free0
      invariant (BB.activeCount == 0 && free == {} && Orthogonal(cs, BB.cubes, raise)) ||
                (Counted(BB) && Expanding(cs, BB.cubes, [], raise, free))
      invariant BinaryRaised(cs, raise)
      decreases free
    {
      ghost var before := raise;
      FewVoidKept(cs, bb, BB.cubes);
      raise, free := MinCov(cs, BB, raise, free);
      StillRaised(cs, before, raise);
      if BB.activeCount == 0 {
        break;
      }
    }
    assert free == {} ==> raise + free == raise;
    if Counted(BB) && Expanding(cs, BB.cubes, [], raise, free) {
      NoneActive(cs, BB.cubes, raise + free);
    }
    raise := raise + free;
  }

  lemma StillRaised(cs: Shape, raise: set<nat>, raise': set<nat>)
    requires BinaryRaised(cs, raise) && raise <= raise'
    ensures BinaryRaised(cs, raise')
  {
    forall v | 0 <= v < cs.numBinaryVars ensures raise' * cs.varMask[v] != {} {
      var i :| i in raise * cs.varMask[v];
      assert i in raise' * cs.varMask[v];
    }
  }

  lemma BinaryParts(cs: Shape, p: set<nat>, raise: set<nat>)
    requires NonVoid(cs, p) && p <= raise
    ensures BinaryRaised(cs, raise)
  {
    forall v | 0 <= v < cs.numBinaryVars ensures raise * cs.varMask[v] != {} {
      var i :| i in p * cs.varMask[v];
      assert i in raise * cs.varMask[v];
    }
  }

  /** Cover the cubes that can be covered, then raise frequent parts while some cube is active. */
  method CoverPhase(cs: Shape, BB: Cover, CC: Cover, raise0: set<nat>, free0: set<nat>)
    returns (raise: set<nat>, free: set<nat>, super: set<nat>, num: nat)
    requires BB != CC && Counted(BB) && Counted(CC) && Expanding(cs, BB.cubes, CC.cubes, raise0, free0)
    modifies BB, CC
    ensures Counted(BB) && Expanding(cs, BB.cubes, CC.cubes, raise, free)
    ensures PartsKept(old(BB.cubes), BB.cubes) && Progress(old(CC.cubes), CC.cubes, raise)
    ensures raise0 <= super <= raise && raise + free <= raise0 + free0
    ensures num == 0 ==> forall k :: 0 <= k < |CC.cubes| ==> CC.cubes[k].covered == old(CC.cubes)[k].covered
  {
    raise, free, super, num := raise0, free0, raise0, 0;
    ghost var cc := CC.cubes;
    if CC.activeCount > 0 {
      raise, free, super, num := SelectFeasible(cs, BB, CC, raise, free, super, num);
    } else {
      SomeActive(CC.cubes);
    }
    ghost var cc1, raise1 := CC.cubes, raise;
    raise, free := RaiseCovering(cs, BB, CC, raise, free);
    ProgressTrans(cc, cc1, CC.cubes, raise1, raise);
  }

  /** expand1 -- raise is a cube that contains cube c and misses the whole OFF-set. */
  method Expand1(cs: Shape, BB: Cover, CC: Cover, initLower: set<nat>, c: nat)
    returns (raise: set<nat>, overexpanded: set<nat>, super: set<nat>, num: nat)
    requires BB != CC && c < |CC.cubes| && PartsFit(cs, BB.cubes) && PartsFit(cs, CC.cubes)
    requires FewVoid(cs, BB.cubes) && BinaryRaised(cs, CC.cubes[c].parts)
    requires Orthogonal(cs, BB.cubes, CC.cubes[c].parts)
    modifies BB, CC
    ensures PartsKept(old(BB.cubes), BB.cubes) && ExpandMarks(old(CC.cubes), CC.cubes, c, raise)
    ensures Orthogonal(cs, BB.cubes, raise)
    ensures var p := old(CC.cubes)[c].parts; p <= super <= raise <= overexpanded <= p + (cs.fullset - initLower)
    ensures num == 0 ==> forall k :: 0 <= k < |CC.cubes| ==> CC.cubes[k].covered == old(CC.cubes)[k].covered
  {
    ghost var bb, cc := BB.cubes, CC.cubes;
    var free;
    raise, free := StartExpansion(cs, BB, CC, initLower, c);
    overexpanded := raise + free;
    ghost var cc1 := CC.cubes;
    raise, free, super, num := CoverPhase(cs, BB, CC, raise, free);
    MarksProgress(cc, cc1, CC.cubes, c, {}, raise);
    ghost var raise1 := raise;
    StillRaised(cs, cc[c].parts, raise);
    FewVoidKept(cs, bb, BB.cubes);
    raise := RaiseBlocking(cs, BB, raise, free);
    MarksProgress(cc, CC.cubes, CC.cubes, c, raise1, raise);
  }

  // ---------- expand ----------

  /** The OFF-set: cubes of the space, not too many of them void. */
  ghost predicate OffSet(cs: Shape, bb: seq<Cube>) {
    PartsFit(cs, bb) && FewVoid(cs, bb)
  }

  lemma OffSetKept(cs: Shape, bb: seq<Cube>, bb': seq<Cube>)
    requires OffSet(cs, bb) && PartsKept(bb, bb')
    ensures OffSet(cs, bb')
  {
    FewVoidKept(cs, bb, bb');
  }

  /** Cube p is nonvoid and misses the OFF-set. */
  ghost predicate OnCube(cs: Shape, bb: seq<Cube>, p: set<nat>) {
    p <= cs.fullset && NonVoid(cs, p) && Orthogonal(cs, bb, p)
  }

  ghost predicate OnSet(cs: Shape, bb: seq<Cube>, s: seq<Cube>) {
    forall k :: 0 <= k < |s| ==> OnCube(cs, bb, s[k].parts)
  }

  lemma OnSetKept(cs: Shape, bb: seq<Cube>, bb': seq<Cube>, s: seq<Cube>)
    requires OnSet(cs, bb, s) && PartsKept(bb, bb')
    ensures OnSet(cs, bb', s)
  {
    forall k | 0 <= k < |s| ensures OnCube(cs, bb', s[k].parts) {
      assert OnCube(cs, bb, s[k].parts);
    }
  }

  /** Cube p misses the OFF-set, and is not void in a binary variable. */
  ghost predicate NearOnCube(cs: Shape, bb: seq<Cube>, p: set<nat>) {
    p <= cs.fullset && BinaryRaised(cs, p) && Orthogonal(cs, bb, p)
  }

  ghost predicate NearOnSet(cs: Shape, bb: seq<Cube>, s: seq<Cube>) {
    forall k :: 0 <= k < |s| ==> NearOnCube(cs, bb, s[k].parts)
  }

  lemma OnSetNear(cs: Shape, bb: seq<Cube>, s: seq<Cube>)
    requires OnSet(cs, bb, s)
    ensures NearOnSet(cs, bb, s)
  {
    forall k | 0 <= k < |s| ensures NearOnCube(cs, bb, s[k].parts) {
      assert OnCube(cs, bb, s[k].parts);
    }
  }

  lemma NearKept(cs: Shape, bb: seq<Cube>, bb': seq<Cube>, s: seq<Cube>)
    requires NearOnSet(cs, bb, s) && PartsKept(bb, bb')
    ensures NearOnSet(cs, bb', s)
  {
    forall k | 0 <= k < |s| ensures NearOnCube(cs, bb', s[k].parts) {
      assert NearOnCube(cs, bb, s[k].parts);
    }
  }

  /** The parts expand may not raise. */
  method LowerSparse(cs: Shape, nonsparse: bool) returns (initLower: set<nat>)
    ensures forall i :: i in initLower <==> nonsparse && i in cs.fullset && cs.sparse[cs.partVar[i]]
  {
    initLower := {};
    if nonsparse {
      for v := 0 to cs.numVars
        invariant forall i :: i in initLower <==> i in cs.fullset && cs.partVar[i] < v && cs.sparse[cs.partVar[i]]
      {
        forall i | i in cs.fullset ensures i in cs.varMask[v] <==> cs.partVar[i] == v {
        }
        if cs.sparse[v] {
          initLower := initLower + cs.varMask[v];
        }
      }
    }
  }

  /** A covered cube lies in a prime one that is not covered itself. */
  ghost predicate HasCoverer(s: seq<Cube>, k: nat)
    requires k < |s|
  {
    exists i :: 0 <= i < |s| && s[i].prime && !s[i].covered && s[k].parts <= s[i].parts
  }

  ghost predicate CoveredInside(s: seq<Cube>) {
    forall k :: 0 <= k < |s| && s[k].covered ==> HasCoverer(s, k)
  }

  /** The cubes have only grown, and not by parts of initLower. */
  ghost predicate Grown(cs: Shape, a: seq<Cube>, s: seq<Cube>, initLower: set<nat>) {
    |s| == |a| && forall k :: 0 <= k < |a| ==> a[k].parts <= s[k].parts <= a[k].parts + (cs.fullset - initLower)
  }

  /** The state of the loop of expand after n cubes. */
  ghost predicate Expanded1(cs: Shape, bb: seq<Cube>, a: seq<Cube>, s: seq<Cube>, initLower: set<nat>, n: nat) {
    && NearOnSet(cs, bb, s) && Grown(cs, a, s, initLower) && CoveredInside(s)
    && forall k :: 0 <= k < n && k < |s| ==> s[k].prime || s[k].covered
  }

  /** One cube expanded: s before, t after expand1, then cube k overwritten by c. */
  lemma ExpandStep(cs: Shape, bb: seq<Cube>, a: seq<Cube>, s: seq<Cube>, t: seq<Cube>, initLower: set<nat>, k: nat,
                   c: Cube)
    requires k < |s| && Expanded1(cs, bb, a, s, initLower, k) && !s[k].prime && !s[k].covered
    requires ExpandMarks(s, t, k, c.parts) && NearOnCube(cs, bb, c.parts) && c.prime && !c.covered
    requires s[k].parts <= c.parts <= s[k].parts + (cs.fullset - initLower)
    ensures Expanded1(cs, bb, a, t[k := c], initLower, k + 1)
  {
    var u := t[k := c];
    forall j | 0 <= j < |u| ensures NearOnCube(cs, bb, u[j].parts) {
      if j != k {
        assert NearOnCube(cs, bb, s[j].parts);
      }
    }
    forall j | 0 <= j < |u| && u[j].covered ensures HasCoverer(u, j) {
      if s[j].covered {
        assert HasCoverer(s, j);
        var i :| 0 <= i < |s| && s[i].prime && !s[i].covered && s[j].parts <= s[i].parts;
        assert u[i].prime && !u[i].covered && u[j].parts <= u[i].parts;
      } else {
        assert u[k].prime && !u[k].covered && u[j].parts <= u[k].parts;
      }
    }
  }

  lemma SkipStep(cs: Shape, bb: seq<Cube>, a: seq<Cube>, s: seq<Cube>, initLower: set<nat>, k: nat)
    requires k < |s| && Expanded1(cs, bb, a, s, initLower, k) && (s[k].prime || s[k].covered)
    ensures Expanded1(cs, bb, a, s, initLower, k + 1)
  {
  }

  /** The body of the loop of expand for cube k. */
  method ExpandCube(cs: Shape, F: Cover, R: Cover, initLower: set<nat>, k: nat, ghost a: seq<Cube>)
    requires F != R && k < |F.cubes| && OffSet(cs, R.cubes)
    requires Expanded1(cs, R.cubes, a, F.cubes, initLower, k)
    modifies F, R
    ensures PartsKept(old(R.cubes), R.cubes) && Expanded1(cs, R.cubes, a, F.cubes, initLower, k + 1)
  {
    ghost var s, bb := F.cubes, R.cubes;
    var p := F.cubes[k];
    if !p.prime && !p.covered {
      assert NearOnCube(cs, bb, s[k].parts);
      forall j | 0 <= j < |s| ensures s[j].parts <= cs.fullset {
        assert NearOnCube(cs, bb, s[j].parts);
      }
      var raise, overexpanded, super, num := Expand1(cs, R, F, initLower, k);
      var nonessen := num == 0 && raise != overexpanded;
      var c := F.cubes[k].(parts := raise, prime := true, covered := false, nonessen := nonessen);
      StillRaised(cs, p.parts, raise);
      ExpandStepKept(cs, bb, R.cubes, a, s, initLower, k);
      ExpandStep(cs, R.cubes, a, s, F.cubes, initLower, k, c);
      F.cubes := F.cubes[k := c];
    } else {
      SkipStep(cs, bb, a, s, initLower, k);
    }
  }

  lemma ExpandStepKept(cs: Shape, bb: seq<Cube>, bb': seq<Cube>, a: seq<Cube>, s: seq<Cube>, initLower: set<nat>,
                       n: nat)
    requires Expanded1(cs, bb, a, s, initLower, n) && PartsKept(bb, bb')
    ensures Expanded1(cs, bb', a, s, initLower, n)
  {
    NearKept(cs, bb, bb', s);
  }

  /** Mark all cubes as not covered, and maybe essential. */
  method ResetCovered(F: Cover)
    modifies F
    ensures |F.cubes| == |old(F.cubes)|
    ensures forall k :: 0 <= k < |F.cubes| ==> F.cubes[k] == old(F.cubes)[k].(covered := false, nonessen := false)
  {
    for k := 0 to |F.cubes|
      invariant |F.cubes| == |old(F.cubes)|
      invariant forall j :: 0 <= j < k ==> F.cubes[j] == old(F.cubes)[j].(covered := false, nonessen := false)
      invariant forall j :: k <= j < |F.cubes| ==> F.cubes[j] == old(F.cubes)[j]
    {
      F.cubes := F.cubes[k := F.cubes[k].(covered := false, nonessen := false)];
    }
  }

  /** Delete the cubes that became covered. */
  method DeleteCovered(cs: Shape, F: Cover)
    modifies F
    ensures Uncovered(old(F.cubes), F.cubes)
    ensures TotalLiterals(cs, F.cubes) <= TotalLiterals(cs, old(F.cubes))
  {
    ghost var s := F.cubes;
    F.activeCount := 0;
    var change := false;
    for k := 0 to |F.cubes|
      invariant |F.cubes| == |s|
      invariant !change ==> forall j :: 0 <= j < k ==> !s[j].covered
      invariant forall j :: 0 <= j < k ==> F.cubes[j] == s[j].(active := !s[j].covered)
      invariant forall j :: k <= j < |s| ==> F.cubes[j] == s[j]
    {
      if F.cubes[k].covered {
        F.cubes := F.cubes[k := F.cubes[k].(active := false)];
        change := true;
      } else {
        F.cubes := F.cubes[k := F.cubes[k].(active := true)];
        F.activeCount := F.activeCount + 1;
      }
    }
    ghost var marked := F.cubes;
    TotalNoDearer(cs, marked, s);
    ActiveNoDearer(cs, marked);
    if change {
      SfInactive(F);
    }
    forall c | c in F.cubes ensures UncoveredIn(s, c) {
      assert c in marked;
      var k :| 0 <= k < |marked| && marked[k] == c;
    }
    forall k | 0 <= k < |s| && !s[k].covered ensures s[k].(active := true) in F.cubes {
      assert marked[k] in marked;
    }
  }

  /** What expand makes of a cover. */
  ghost predicate Expansion(cs: Shape, bb: seq<Cube>, before: seq<Cube>, after: seq<Cube>, initLower: set<nat>) {
    && Dominates(after, before)
    && (forall c :: c in after ==> c.prime && NearOnCube(cs, bb, c.parts) && GrownFrom(cs, before, c.parts, initLower))
    && |after| <= |before|
  }

  ghost predicate GrownFrom(cs: Shape, before: seq<Cube>, p: set<nat>, initLower: set<nat>) {
    exists b :: b in before && b.parts <= p <= b.parts + (cs.fullset - initLower)
  }

  ghost predicate SameCubes(a: seq<Cube>, b: seq<Cube>) {
    && |a| == |b|
    && (forall c {:trigger HasParts(b, c.parts)} :: c in a ==> HasParts(b, c.parts))
    && (forall c {:trigger HasParts(a, c.parts)} :: c in b ==> HasParts(a, c.parts))
  }

  /** t holds the cubes of s that are not covered. */
  ghost predicate Uncovered(s: seq<Cube>, t: seq<Cube>) {
    && (forall c {:trigger UncoveredIn(s, c)} :: c in t ==> UncoveredIn(s, c))
    && (forall k :: 0 <= k < |s| && !s[k].covered ==> s[k].(active := true) in t)
    && |t| <= |s|
  }

  ghost predicate UncoveredIn(s: seq<Cube>, c: Cube) {
    exists k :: 0 <= k < |s| && !s[k].covered && c == s[k].(active := true)
  }

  lemma UncoveredDominates(s: seq<Cube>, t: seq<Cube>, k: nat)
    requires Uncovered(s, t) && CoveredInside(s) && k < |s|
    ensures Within(s[k].parts, t)
  {
    if s[k].covered {
      assert HasCoverer(s, k);
      var i :| 0 <= i < |s| && s[i].prime && !s[i].covered && s[k].parts <= s[i].parts;
      assert s[i].(active := true) in t;
    } else {
      assert s[k].(active := true) in t;
    }
  }

  lemma ExpansionOf(cs: Shape, bb: seq<Cube>, F0: seq<Cube>, a: seq<Cube>, s: seq<Cube>, t: seq<Cube>,
                    initLower: set<nat>)
    requires Expanded1(cs, bb, a, s, initLower, |s|) && SameCubes(F0, a) && Uncovered(s, t)
    ensures Expansion(cs, bb, F0, t, initLower)
  {
    forall b | b in F0 ensures Within(b.parts, t) {
      assert HasParts(a, b.parts);
      var c :| c in a && c.parts == b.parts;
      var k :| 0 <= k < |a| && a[k] == c;
      UncoveredDominates(s, t, k);
      var r :| r in t && s[k].parts <= r.parts;
    }
    forall c | c in t ensures c.prime && NearOnCube(cs, bb, c.parts) && GrownFrom(cs, F0, c.parts, initLower) {
      assert UncoveredIn(s, c);
      var k :| 0 <= k < |s| && !s[k].covered && c == s[k].(active := true);
      assert NearOnCube(cs, bb, s[k].parts);
      assert a[k] in a && HasParts(F0, a[k].parts);
      var b :| b in F0 && b.parts == a[k].parts;
    }
  }

  /** expand */
  method Expand(cs: Shape, F: Cover, R: Cover, nonsparse: bool) returns (ghost initLower: set<nat>)
    requires F != R && OffSet(cs, R.cubes) && NearOnSet(cs, R.cubes, F.cubes)
    modifies F, R
    ensures PartsKept(old(R.cubes), R.cubes) && OffSet(cs, R.cubes)
    ensures forall i :: i in initLower <==> nonsparse && i in cs.fullset && cs.sparse[cs.partVar[i]]
    ensures Expansion(cs, R.cubes, old(F.cubes), F.cubes, initLower)
    ensures nonsparse ==> TotalLiterals(cs, F.cubes) <= TotalLiterals(cs, old(F.cubes))
  {
    ghost var F0, bb := F.cubes, R.cubes;
    ghost var count := MiniSort(cs, F, false);
    SameMembers(F.cubes, F0);
    var lower := LowerSparse(cs, nonsparse);
    initLower := lower;
    ghost var F1 := F.cubes;
    ResetCovered(F);
    ghost var a := F.cubes;
    StartExpanded(cs, bb, F0, F1, a, initLower);
    for k := 0 to |F.cubes|
      invariant |F.cubes| == |a| && PartsKept(bb, R.cubes) && OffSet(cs, R.cubes)
      invariant Expanded1(cs, R.cubes, a, F.cubes, initLower, k)
    {
      ghost var bb1 := R.cubes;
      ExpandCube(cs, F, R, lower, k, a);
      OffSetKept(cs, bb1, R.cubes);
    }
    ghost var s := F.cubes;
    DeleteCovered(cs, F);
    if nonsparse {
      GrownNoDearer(cs, F0, F1, a, s, initLower);
    }
    ExpansionOf(cs, R.cubes, F0, a, s, F.cubes, initLower);
  }

  /** Without the sparse variables, expansion adds no literal. */
  lemma GrownNoDearer(cs: Shape, F0: seq<Cube>, F1: seq<Cube>, a: seq<Cube>, s: seq<Cube>, initLower: set<nat>)
    requires multiset(F1) == multiset(F0) && |a| == |F1| && Grown(cs, a, s, initLower)
    requires forall k :: 0 <= k < |a| ==> a[k].parts == F1[k].parts
    requires forall i :: i in initLower <==> i in cs.fullset && cs.sparse[cs.partVar[i]]
    ensures TotalLiterals(cs, s) <= TotalLiterals(cs, F0)
  {
    TotalPermuted(cs, F1, F0);
    TotalNoDearer(cs, a, F1);
    forall k | 0 <= k < |s| ensures NoDearer(cs, s[k].parts, a[k].parts) {
      forall v | 0 <= v < cs.numVars && cs.sparse[v] ensures s[k].parts * cs.varMask[v] <= a[k].parts {
        forall i | i in s[k].parts * cs.varMask[v] ensures i in a[k].parts {
          assert cs.partVar[i] == v && i in cs.fullset;
          assert i in initLower;
        }
      }
    }
    TotalNoDearer(cs, s, a);
  }

  lemma StartExpanded(cs: Shape, bb: seq<Cube>, F0: seq<Cube>, F1: seq<Cube>, a: seq<Cube>, initLower: set<nat>)
    requires NearOnSet(cs, bb, F0) && (forall c :: c in F1 <==> c in F0) && |F1| == |F0| == |a|
    requires forall k :: 0 <= k < |a| ==> a[k] == F1[k].(covered := false, nonessen := false)
    ensures Expanded1(cs, bb, a, a, initLower, 0) && SameCubes(F0, a)
  {
    forall k | 0 <= k < |a| ensures NearOnCube(cs, bb, a[k].parts) && HasParts(F0, a[k].parts) {
      assert F1[k] in F0;
      var j :| 0 <= j < |F0| && F0[j] == F1[k];
      assert NearOnCube(cs, bb, F0[j].parts);
    }
    forall b | b in F0 ensures HasParts(a, b.parts) {
      assert b in F1;
      var k :| 0 <= k < |F1| && F1[k] == b;
      assert a[k] in a;
    }
  }

  lemma ExpansionNear(cs: Shape, bb: seq<Cube>, s: seq<Cube>, t: seq<Cube>, initLower: set<nat>)
    requires Expansion(cs, bb, s, t, initLower)
    ensures NearOnSet(cs, bb, t)
  {
    forall k | 0 <= k < |t| ensures NearOnCube(cs, bb, t[k].parts) {
      assert t[k] in t;
    }
  }

  /** What was not void does not become void. */
  lemma ExpansionOnSet(cs: Shape, bb: seq<Cube>, s: seq<Cube>, t: seq<Cube>, initLower: set<nat>)
    requires Expansion(cs, bb, s, t, initLower) && OnSet(cs, bb, s)
    ensures OnSet(cs, bb, t)
  {
    forall k | 0 <= k < |t| ensures OnCube(cs, bb, t[k].parts) {
      assert t[k] in t && GrownFrom(cs, s, t[k].parts, initLower);
      var b :| b in s && b.parts <= t[k].parts <= b.parts + (cs.fullset - initLower);
      var j := Position(s, b);
      assert OnCube(cs, bb, s[j].parts);
      NonVoidGrows(cs, b.parts, t[k].parts);
    }
  }
}
