/** cubestr.c: cube_setup lays the parts of the variables out one after the other. */
module CubeSetup {
  import opened Cubes

  /** The parts of the first v variables. */
  function PartsBefore(sizes: seq<nat>, v: nat): nat
    requires v <= |sizes|
  {
    if v == 0 then 0 else PartsBefore(sizes, v - 1) + sizes[v - 1]
  }

  lemma {:induction false} PartsGrow(sizes: seq<nat>, u: nat, v: nat)
    requires u <= v <= |sizes|
    ensures PartsBefore(sizes, u) <= PartsBefore(sizes, v)
  {
    if u < v {
      PartsGrow(sizes, u, v - 1);
    }
  }

  /** The binary variables come first and have two parts each; every variable has a part. */
  ghost predicate SizesOk(numBinaryVars: nat, sizes: seq<nat>) {
    && numBinaryVars <= |sizes|
    && (forall v :: 0 <= v < numBinaryVars ==> sizes[v] == 2)
    && forall v :: 0 <= v < |sizes| ==> sizes[v] > 0
  }

  lemma {:induction false} BinaryParts(numBinaryVars: nat, sizes: seq<nat>, v: nat)
    requires SizesOk(numBinaryVars, sizes) && v <= numBinaryVars
    ensures PartsBefore(sizes, v) == 2 * v
  {
    if v > 0 {
      BinaryParts(numBinaryVars, sizes, v - 1);
    }
  }

  function Range(lo: nat, hi: nat): (r: set<nat>)
    requires lo <= hi
    ensures forall i :: i in r <==> lo <= i < hi
    decreases hi
  {
    if lo == hi then {} else Range(lo, hi - 1) + {hi - 1}
  }

  /** The fields filled in for the variables before v. */
  ghost predicate LaidOut(sizes: seq<nat>, v: nat, first: seq<nat>, last: seq<nat>,
                          mask: seq<set<nat>>, partVar: seq<nat>)
    requires v <= |sizes|
  {
    && |first| == |last| == |mask| == v && |partVar| == PartsBefore(sizes, v)
    && BoundsOut(sizes, first, last) && MasksOut(first, last, mask) && PartVarsOut(first, last, partVar)
  }

  ghost predicate BoundsOut(sizes: seq<nat>, first: seq<nat>, last: seq<nat>)
    requires |first| == |last| <= |sizes|
  {
    forall u :: 0 <= u < |first| ==>
      first[u] == PartsBefore(sizes, u) && last[u] + 1 == PartsBefore(sizes, u + 1) && first[u] <= last[u]
  }

  ghost predicate MasksOut(first: seq<nat>, last: seq<nat>, mask: seq<set<nat>>)
    requires |first| == |last| == |mask|
  {
    forall u, i {:trigger i in mask[u]} :: 0 <= u < |mask| ==> (i in mask[u] <==> first[u] <= i <= last[u])
  }

  ghost predicate PartVarsOut(first: seq<nat>, last: seq<nat>, partVar: seq<nat>)
    requires |first| == |last|
  {
    forall i :: 0 <= i < |partVar| ==> partVar[i] < |first| && first[partVar[i]] <= i <= last[partVar[i]]
  }

  lemma LaidOutNone(sizes: seq<nat>)
    ensures LaidOut(sizes, 0, [], [], [], [])
  {
  }

  lemma LaidOutStep(sizes: seq<nat>, v: nat, first: seq<nat>, last: seq<nat>, mask: seq<set<nat>>,
                    partVar: seq<nat>)
    requires v < |sizes| && sizes[v] > 0 && LaidOut(sizes, v, first, last, mask, partVar)
    ensures PartsBefore(sizes, v + 1) == PartsBefore(sizes, v) + sizes[v]
    ensures var size := PartsBefore(sizes, v);
            LaidOut(sizes, v + 1, first + [size], last + [size + sizes[v] - 1],
                    mask + [Range(size, size + sizes[v])], partVar + seq(sizes[v], _ => v))
  {
    hide BoundsOut, MasksOut, PartVarsOut, Range;
    var size := PartsBefore(sizes, v);
    BoundsStep(sizes, first, last);
    MasksStep(first, last, mask, size, size + sizes[v] - 1);
    PartVarsStep(first, last, partVar, sizes[v]);
  }

  lemma BoundsStep(sizes: seq<nat>, first: seq<nat>, last: seq<nat>)
    requires |first| == |last| < |sizes| && sizes[|first|] > 0 && BoundsOut(sizes, first, last)
    ensures var size := PartsBefore(sizes, |first|);
            BoundsOut(sizes, first + [size], last + [size + sizes[|first|] - 1])
  {
  }

  lemma MasksStep(first: seq<nat>, last: seq<nat>, mask: seq<set<nat>>, lo: nat, hi: nat)
    requires |first| == |last| == |mask| && MasksOut(first, last, mask) && lo <= hi
    ensures MasksOut(first + [lo], last + [hi], mask + [Range(lo, hi + 1)])
  {
    hide Range;
  }

  lemma PartVarsStep(first: seq<nat>, last: seq<nat>, partVar: seq<nat>, count: nat)
    requires |first| == |last| && count > 0 && PartVarsOut(first, last, partVar)
    ensures PartVarsOut(first + [|partVar|], last + [|partVar| + count - 1], partVar + seq(count, _ => |first|))
  {
    var v, partVar' := |first|, partVar + seq(count, _ => |first|);
    var first', last' := first + [|partVar|], last + [|partVar| + count - 1];
    forall i | 0 <= i < |partVar'| ensures partVar'[i] < v + 1 && first'[partVar'[i]] <= i <= last'[partVar'[i]] {
      if i < |partVar| {
        assert partVar'[i] == partVar[i];
      } else {
        assert partVar'[i] == v;
      }
    }
  }

  /** The parts of the variables follow one another. */
  ghost predicate InOrder(cs: Shape) {
    forall u, v :: 0 <= u < v < cs.numVars ==> cs.lastPart[u] < cs.firstPart[v]
  }

  /** Where the binary parts are: variable v has parts 2v and 2v + 1, and all others come later. */
  ghost predicate BinaryFirst(cs: Shape) {
    forall v :: 0 <= v < cs.numVars ==>
      (v < cs.numBinaryVars ==> cs.firstPart[v] == 2 * v) &&
        (v >= cs.numBinaryVars ==> cs.firstPart[v] >= 2 * cs.numBinaryVars)
  }

  /** The loop over the variables. */
  method LayOut(sizes: seq<nat>)
    returns (size: nat, first: seq<nat>, last: seq<nat>, mask: seq<set<nat>>, partVar: seq<nat>)
    requires forall v :: 0 <= v < |sizes| ==> sizes[v] > 0
    ensures size == PartsBefore(sizes, |sizes|) && LaidOut(sizes, |sizes|, first, last, mask, partVar)
  {
    hide LaidOut, Range, PartsBefore;
    first, last, partVar, mask, size := [], [], [], [], 0;
    LaidOutNone(sizes);
    for v := 0 to |sizes|
      invariant size == PartsBefore(sizes, v) && LaidOut(sizes, v, first, last, mask, partVar)
    {
      LaidOutStep(sizes, v, first, last, mask, partVar);
      first := first + [size];
      last := last + [size + sizes[v] - 1];
      mask := mask + [Range(size, size + sizes[v])];
      partVar := partVar + seq(sizes[v], _ => v);
      size := size + sizes[v];
    }
  }

  function SizeOf(numBinaryVars: nat, partSize: seq<nat>, v: nat): nat
    requires v < |partSize|
  {
    if v < numBinaryVars then 2 else partSize[v]
  }

  /** cube_setup */
  method SetUp(numBinaryVars: nat, partSize: seq<nat>) returns (cs: CubeStruct)
    requires numBinaryVars <= |partSize| && forall v :: numBinaryVars <= v < |partSize| ==> partSize[v] > 0
    ensures cs.Valid() && cs.numBinaryVars == numBinaryVars && cs.numVars == |partSize|
    ensures InOrder(cs) && BinaryFirst(cs)
    ensures forall v :: 0 <= v < |partSize| ==>
      cs.lastPart[v] - cs.firstPart[v] + 1 == SizeOf(numBinaryVars, partSize, v)
  {
    var sizes := seq(|partSize|, v requires 0 <= v < |partSize| => SizeOf(numBinaryVars, partSize, v));
    var size, first, last, mask, partVar := LayOut(sizes);
    var sparse := seq(|sizes|, v => v >= numBinaryVars);
    cs := CubeStruct(numBinaryVars, |sizes|, size, first, last, mask, partVar, Range(0, size), sparse);
    LayoutValid(numBinaryVars, sizes, cs);
  }

  /** The fields of the cube structure, filled in for all variables. */
  ghost predicate Filled(numBinaryVars: nat, sizes: seq<nat>, cs: CubeStruct) {
    && SizesOk(numBinaryVars, sizes) && cs.numBinaryVars == numBinaryVars && cs.numVars == |sizes|
    && LaidOut(sizes, |sizes|, cs.firstPart, cs.lastPart, cs.varMask, cs.partVar)
    && cs.size == PartsBefore(sizes, |sizes|) && (forall i :: i in cs.fullset <==> 0 <= i < cs.size)
    && |cs.sparse| == |sizes| && (forall v :: 0 <= v < |sizes| ==> (cs.sparse[v] <==> v >= numBinaryVars))
  }

  lemma FilledOrder(numBinaryVars: nat, sizes: seq<nat>, cs: CubeStruct, u: nat, v: nat)
    requires Filled(numBinaryVars, sizes, cs) && u < v < cs.numVars
    ensures cs.lastPart[u] < cs.firstPart[v]
  {
    PartsGrow(sizes, u + 1, v);
  }

  lemma FilledPart(numBinaryVars: nat, sizes: seq<nat>, cs: CubeStruct, v: nat, i: nat)
    requires Filled(numBinaryVars, sizes, cs) && v < cs.numVars && cs.firstPart[v] <= i <= cs.lastPart[v]
    ensures i < cs.size && cs.partVar[i] == v
  {
    PartsGrow(sizes, v + 1, |sizes|);
    var u := cs.partVar[i];
    if u < v {
      FilledOrder(numBinaryVars, sizes, cs, u, v);
    } else if v < u {
      FilledOrder(numBinaryVars, sizes, cs, v, u);
    }
  }

  lemma FilledBinary(numBinaryVars: nat, sizes: seq<nat>, cs: CubeStruct, v: nat)
    requires Filled(numBinaryVars, sizes, cs) && v < cs.numVars
    ensures v < numBinaryVars ==> cs.firstPart[v] == 2 * v && cs.lastPart[v] == 2 * v + 1
    ensures v >= numBinaryVars ==> cs.firstPart[v] >= 2 * numBinaryVars
    ensures cs.lastPart[v] - cs.firstPart[v] + 1 == sizes[v]
  {
    assert cs.lastPart[v] + 1 == PartsBefore(sizes, v + 1) == PartsBefore(sizes, v) + sizes[v];
    if v < numBinaryVars {
      BinaryParts(numBinaryVars, sizes, v);
    } else {
      BinaryParts(numBinaryVars, sizes, numBinaryVars);
      PartsGrow(sizes, numBinaryVars, v);
    }
  }

  lemma LayoutValid(numBinaryVars: nat, sizes: seq<nat>, cs: CubeStruct)
    requires Filled(numBinaryVars, sizes, cs)
    ensures cs.Valid() && InOrder(cs) && BinaryFirst(cs)
    ensures forall v :: 0 <= v < |sizes| ==> cs.lastPart[v] - cs.firstPart[v] + 1 == sizes[v]
  {
    forall u, v | 0 <= u < v < cs.numVars ensures cs.lastPart[u] < cs.firstPart[v] {
      FilledOrder(numBinaryVars, sizes, cs, u, v);
    }
    forall v | 0 <= v < cs.numVars
      ensures v < numBinaryVars ==> cs.firstPart[v] == 2 * v && cs.lastPart[v] == 2 * v + 1
      ensures v >= numBinaryVars ==> cs.firstPart[v] >= 2 * numBinaryVars
      ensures cs.lastPart[v] - cs.firstPart[v] + 1 == sizes[v] && cs.firstPart[v] <= cs.lastPart[v] < cs.size
    {
      FilledBinary(numBinaryVars, sizes, cs, v);
      FilledPart(numBinaryVars, sizes, cs, v, cs.lastPart[v]);
    }
    forall v, i | 0 <= v < cs.numVars
      ensures i in cs.varMask[v] <==> 0 <= i < cs.size && cs.partVar[i] == v
    {
      if cs.firstPart[v] <= i <= cs.lastPart[v] {
        FilledPart(numBinaryVars, sizes, cs, v, i);
      }
    }
  }
}
