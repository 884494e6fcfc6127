/** cubelist_partition (cvrm.c): split a cubelist into two parts with no active variable in common. */
module Partition {
  import opened Cubes
  import opened Cofactor
  import opened Recursion

  /** a and b share a variable in which neither is full (`ccommon`). */
  predicate CCommon(cs: Shape, a: set<nat>, b: set<nat>, cof: set<nat>) {
    exists v :: 0 <= v < cs.numVars && !(cs.varMask[v] <= a + cof) && !(cs.varMask[v] <= b + cof)
  }

  /** Indices of the cubes marked COVERED. */
  ghost function Marked(covered: seq<bool>): set<nat> {
    set i | 0 <= i < |covered| && covered[i]
  }

  lemma MarkOne(covered: seq<bool>, i: nat)
    requires i < |covered| && !covered[i]
    ensures |Marked(covered[i := true])| == |Marked(covered)| + 1
  {
    assert Marked(covered[i := true]) == Marked(covered) + {i};
  }

  lemma {:induction false} AllMarked(covered: seq<bool>)
    ensures |Marked(covered)| <= |covered|
    ensures (forall i :: 0 <= i < |covered| ==> covered[i]) ==> |Marked(covered)| == |covered|
  {
    if covered != [] {
      var n := |covered| - 1;
      AllMarked(covered[..n]);
      assert Marked(covered) == Marked(covered[..n]) + (if covered[n] then {n} else {});
    }
  }

  /** No cube with an index in W shares an active variable with a cube outside. */
  ghost predicate LinkClosed(cs: Shape, s: seq<Cube>, cof: set<nat>, W: set<nat>) {
    forall i, j :: i in W && i < |s| && 0 <= j < |s| && j !in W ==> !CCommon(cs, s[j].parts, s[i].parts, cof)
  }

  /**
   Nothing is marked that is not linked to the first cube: every closed set with that cube has all the marked ones.
   */
  ghost predicate Reached(cs: Shape, s: seq<Cube>, cof: set<nat>, covered: seq<bool>) {
    forall W: set<nat> {:trigger LinkClosed(cs, s, cof, W)} :: 0 in W && LinkClosed(cs, s, cof, W) ==>
      Marked(covered) <= W
  }

  /** Part x is in all marked cubes. */
  ghost predicate InAll(s: seq<Cube>, covered: seq<bool>, x: nat)
    requires |covered| == |s|
  {
    forall j :: 0 <= j < |s| && covered[j] ==> x in s[j].parts
  }

  /** A cube that shares a variable with the intersection of the marked cubes shares it with one of them. */
  lemma ReachedStep(cs: Shape, s: seq<Cube>, cof: set<nat>, covered: seq<bool>, seed: set<nat>, i: nat)
    requires |covered| == |s| && i < |s| && Reached(cs, s, cof, covered) && CCommon(cs, s[i].parts, seed, cof)
    requires forall x: nat :: InAll(s, covered, x) ==> x in seed
    ensures Reached(cs, s, cof, covered[i := true])
  {
    var v :| 0 <= v < cs.numVars && !(cs.varMask[v] <= s[i].parts + cof) && !(cs.varMask[v] <= seed + cof);
    var x: nat :| x in cs.varMask[v] && x !in seed + cof;
    assert !InAll(s, covered, x);
    var j :| 0 <= j < |s| && covered[j] && x !in s[j].parts;
    assert CCommon(cs, s[i].parts, s[j].parts, cof);
    forall W: set<nat> | 0 in W && LinkClosed(cs, s, cof, W) ensures Marked(covered[i := true]) <= W {
      assert j in Marked(covered);
    }
  }

  lemma SeedStep(s: seq<Cube>, covered: seq<bool>, seed: set<nat>, i: nat)
    requires |covered| == |s| && i < |s| && !covered[i] && forall x: nat :: InAll(s, covered, x) ==> x in seed
    ensures forall x: nat :: InAll(s, covered[i := true], x) ==> x in seed * s[i].parts
  {
    forall x: nat | InAll(s, covered[i := true], x) ensures x in seed * s[i].parts {
      assert covered[i := true][i];
      assert forall j :: 0 <= j < |s| && covered[j] ==> covered[i := true][j];
      assert InAll(s, covered, x);
    }
  }

  /** The closed set of marked cubes around the first cube; seed is the intersection of its members. */
  method MarkComponent(cs: Shape, T: CubeList) returns (covered: seq<bool>, count: nat, seed: set<nat>)
    requires T.cubes != []
    ensures |covered| == |T.cubes| && covered[0] && Reached(cs, T.cubes, T.cof, covered)
    ensures count == |Marked(covered)|
    ensures forall i :: 0 <= i < |covered| && covered[i] ==> seed <= T.cubes[i].parts
    ensures forall i :: 0 <= i < |covered| && !covered[i] ==> !CCommon(cs, T.cubes[i].parts, seed, T.cof)
  {
    var n := |T.cubes|;
    covered := seq(n, i => i == 0);
    seed, count := T.cubes[0].parts, 1;
    assert Marked(covered) == {0};
    var change := true;
    while change
      invariant |covered| == n && covered[0] && count == |Marked(covered)|
      invariant forall i :: 0 <= i < n && covered[i] ==> seed <= T.cubes[i].parts
      invariant Reached(cs, T.cubes, T.cof, covered) && forall x: nat :: InAll(T.cubes, covered, x) ==> x in seed
      invariant !change ==> forall i :: 0 <= i < n && !covered[i] ==> !CCommon(cs, T.cubes[i].parts, seed, T.cof)
      decreases n - count, change
    {
      change := false;
      ghost var before := count;
      for i := 0 to n
        invariant |covered| == n && covered[0] && count == |Marked(covered)| && before <= count
        invariant change ==> before < count
        invariant forall j :: 0 <= j < n && covered[j] ==> seed <= T.cubes[j].parts
        invariant Reached(cs, T.cubes, T.cof, covered) && forall x: nat :: InAll(T.cubes, covered, x) ==> x in seed
        invariant !change ==> forall j :: 0 <= j < i && !covered[j] ==> !CCommon(cs, T.cubes[j].parts, seed, T.cof)
      {
        if !covered[i] && CCommon(cs, T.cubes[i].parts, seed, T.cof) {
          ReachedStep(cs, T.cubes, T.cof, covered, seed, i);
          SeedStep(T.cubes, covered, seed, i);
          seed := seed * T.cubes[i].parts;
          MarkOne(covered, i);
          covered, change, count := covered[i := true], true, count + 1;
        }
      }
      AllMarked(covered);
    }
  }

  /** All cubes are linked: no set of cubes with the first, but not all of them, is closed. */
  ghost predicate OneComponent(cs: Shape, s: seq<Cube>, cof: set<nat>) {
    forall W: set<nat> {:trigger LinkClosed(cs, s, cof, W)} ::
      0 in W && LinkClosed(cs, s, cof, W) ==> forall i: nat :: i < |s| ==> i in W
  }

  lemma AllReached(cs: Shape, s: seq<Cube>, cof: set<nat>, covered: seq<bool>)
    requires |covered| == |s| && Reached(cs, s, cof, covered) && |Marked(covered)| == |s|
    ensures OneComponent(cs, s, cof)
  {
    EveryMarked(covered);
    forall W: set<nat> | 0 in W && LinkClosed(cs, s, cof, W) ensures forall i: nat :: i < |s| ==> i in W {
      forall i: nat | i < |s| ensures i in W {
        assert i in Marked(covered);
      }
    }
  }

  lemma EveryMarked(covered: seq<bool>)
    requires |Marked(covered)| == |covered|
    ensures forall i :: 0 <= i < |covered| ==> covered[i]
  {
    if i :| 0 <= i < |covered| && !covered[i] {
      MarkOne(covered, i);
      AllMarked(covered[i := true]);
    }
  }

  /** The cubes with the given mark. */
  ghost function Pick(s: seq<Cube>, marks: seq<bool>, mark: bool): (r: seq<Cube>)
    requires |s| == |marks|
    ensures |r| <= |s|
    ensures (exists i :: 0 <= i < |s| && marks[i] != mark) ==> |r| < |s|
    ensures forall x :: x in r ==> exists i :: 0 <= i < |s| && marks[i] == mark && s[i] == x
    ensures forall i :: 0 <= i < |s| && marks[i] == mark ==> s[i] in r
  {
    if s == [] then [] else
      var n := |s| - 1;
      Pick(s[..n], marks[..n], mark) + (if marks[n] == mark then [s[n]] else [])
  }

  lemma {:induction false} PickAll(s: seq<Cube>, marks: seq<bool>)
    requires |s| == |marks|
    ensures |Pick(s, marks, true)| + |Pick(s, marks, false)| == |s|
  {
    if s != [] {
      PickAll(s[..|s| - 1], marks[..|s| - 1]);
    }
  }

  lemma MarkedLast(marks: seq<bool>, n: nat)
    requires |marks| == n + 1
    ensures |Marked(marks)| == |Marked(marks[..n])| + if marks[n] then 1 else 0
  {
    assert Marked(marks) == Marked(marks[..n]) + (if marks[n] then {n} else {});
  }

  lemma {:induction false} PickCount(s: seq<Cube>, marks: seq<bool>)
    requires |s| == |marks|
    ensures |Pick(s, marks, true)| == |Marked(marks)|
  {
    if s == [] {
      assert Marked(marks) == {};
    } else {
      PickCount(s[..|s| - 1], marks[..|s| - 1]);
      MarkedLast(marks, |s| - 1);
    }
  }

  /** The loop that hands out the cubes of T to the two components. */
  lemma PickNext(s: seq<Cube>, marks: seq<bool>, mark: bool, k: nat)
    requires |s| == |marks| && k < |s|
    ensures Pick(s[..k + 1], marks[..k + 1], mark) ==
            Pick(s[..k], marks[..k], mark) + if marks[k] == mark then [s[k]] else []
  {
    assert s[..k + 1][..k] == s[..k] && marks[..k + 1][..k] == marks[..k];
  }

  method Distribute(s: seq<Cube>, covered: seq<bool>) returns (a: seq<Cube>, b: seq<Cube>)
    requires |s| == |covered|
    ensures a == Pick(s, covered, true) && b == Pick(s, covered, false)
  {
    a, b := [], [];
    for k := 0 to |s|
      invariant a == Pick(s[..k], covered[..k], true) && b == Pick(s[..k], covered[..k], false)
    {
      PickNext(s, covered, true, k);
      PickNext(s, covered, false, k);
      if covered[k] {
        a := a + [s[k]];
      } else {
        b := b + [s[k]];
      }
    }
    assert s[..|s|] == s && covered[..|s|] == covered;
  }

  /** cubelist_partition -- the result is 0 when T has one component. */
  method CubelistPartition(cs: Shape, T: CubeList) returns (rest: nat, A: CubeList, B: CubeList)
    requires T.cubes != []
    ensures rest != 0 ==> fresh(A) && fresh(B) && A != B
    ensures rest != 0 ==> A.cof == T.cof && B.cof == T.cof
    ensures rest != 0 ==> Partitioned(T.cubes, A.cubes, B.cubes) && Separate(cs, A.cubes, B.cubes, T.cof)
    ensures rest != 0 ==> rest == |B.cubes| == |T.cubes| - |A.cubes|
    ensures rest == 0 ==> OneComponent(cs, T.cubes, T.cof)
  {
    A, B := T, T;
    var covered, count, seed := MarkComponent(cs, T);
    var numcube := |T.cubes|;
    AllMarked(covered);
    if count != numcube {
      ComponentsSeparate(cs, T.cubes, covered, T.cof, seed);
      PickCount(T.cubes, covered);
      PickAll(T.cubes, covered);
      var a, b := Distribute(T.cubes, covered);
      A := new CubeList(T.cof, a);
      B := new CubeList(T.cof, b);
    } else {
      AllReached(cs, T.cubes, T.cof, covered);
    }
    rest := numcube - count;
  }

  lemma ComponentsSeparate(cs: Shape, s: seq<Cube>, covered: seq<bool>, cof: set<nat>, seed: set<nat>)
    requires |covered| == |s| > 0 && covered[0] && |Marked(covered)| != |s|
    requires forall i :: 0 <= i < |s| && covered[i] ==> seed <= s[i].parts
    requires forall i :: 0 <= i < |s| && !covered[i] ==> !CCommon(cs, s[i].parts, seed, cof)
    ensures Partitioned(s, Pick(s, covered, true), Pick(s, covered, false))
    ensures Separate(cs, Pick(s, covered, true), Pick(s, covered, false), cof)
  {
    AllMarked(covered);
    var a, b := Pick(s, covered, true), Pick(s, covered, false);
    forall x, y, v | x in a && y in b && 0 <= v < cs.numVars
      ensures FullIn(cs, x.parts + cof, v) || FullIn(cs, y.parts + cof, v)
    {
      var i :| 0 <= i < |s| && covered[i] && s[i] == x;
      var j :| 0 <= j < |s| && !covered[j] && s[j] == y;
      assert !CCommon(cs, y.parts, seed, cof);
    }
  }
}
