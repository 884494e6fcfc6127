/** cvrmisc.c: the cost of a cover, the measure that makes make_sparse stop. */
module CoverCost {
  import opened Cubes
  import opened Cofactor
  import opened Containment
  import opened Sets

  // ---------- the literals of a cube ----------

  /** What variable v costs in a cube: its 1's if it is sparse, otherwise its 0's. */
  ghost function VarLiterals(cs: Shape, p: set<nat>, v: nat): nat
    requires v < cs.numVars
  {
    if !cs.sparse[v] then |cs.varMask[v] - p| else |cs.varMask[v] * p|
  }

  ghost function CubeLiterals(cs: Shape, p: set<nat>, n: nat): nat
    requires n <= cs.numVars
  {
    if n == 0 then 0 else CubeLiterals(cs, p, n - 1) + VarLiterals(cs, p, n - 1)
  }

  ghost function TotalLiterals(cs: Shape, s: seq<Cube>): nat {
    if s == [] then 0 else
      TotalLiterals(cs, s[..|s| - 1]) + CubeLiterals(cs, s[|s| - 1].parts, cs.numVars)
  }

  /** q costs no more than p: it has no more 1's in the sparse variables, and no fewer in the others. */
  ghost predicate NoDearer(cs: Shape, q: set<nat>, p: set<nat>) {
    forall v :: 0 <= v < cs.numVars ==>
      if !cs.sparse[v] then p * cs.varMask[v] <= q else q * cs.varMask[v] <= p
  }

  lemma {:induction false} CubeNoDearer(cs: Shape, q: set<nat>, p: set<nat>, n: nat)
    requires n <= cs.numVars && NoDearer(cs, q, p)
    ensures CubeLiterals(cs, q, n) <= CubeLiterals(cs, p, n)
  {
    hide NoDearer, VarLiterals;
    if n > 0 {
      CubeNoDearer(cs, q, p, n - 1);
      VariableNoDearer(cs, q, p, n - 1);
    }
  }

  lemma VariableNoDearer(cs: Shape, q: set<nat>, p: set<nat>, v: nat)
    requires v < cs.numVars && NoDearer(cs, q, p)
    ensures VarLiterals(cs, q, v) <= VarLiterals(cs, p, v)
  {
    if !cs.sparse[v] {
      SubsetCard(cs.varMask[v] - q, cs.varMask[v] - p);
    } else {
      SubsetCard(cs.varMask[v] * q, cs.varMask[v] * p);
    }
  }

  lemma {:induction false} TotalNoDearer(cs: Shape, t: seq<Cube>, s: seq<Cube>)
    requires |t| == |s| && forall k :: 0 <= k < |s| ==> NoDearer(cs, t[k].parts, s[k].parts)
    ensures TotalLiterals(cs, t) <= TotalLiterals(cs, s)
  {
    if s != [] {
      var n := |s| - 1;
      TotalNoDearer(cs, t[..n], s[..n]);
      CubeNoDearer(cs, t[n].parts, s[n].parts, cs.numVars);
    }
  }

  lemma TotalAppend(cs: Shape, s: seq<Cube>, c: Cube)
    ensures TotalLiterals(cs, s + [c]) == TotalLiterals(cs, s) + CubeLiterals(cs, c.parts, cs.numVars)
  {
    assert (s + [c])[..|s|] == s;
  }

  lemma {:induction false} TotalConcat(cs: Shape, a: seq<Cube>, b: seq<Cube>)
    ensures TotalLiterals(cs, a + b) == TotalLiterals(cs, a) + TotalLiterals(cs, b)
  {
    if b == [] {
      assert a + b == a;
    } else {
      var n := |b| - 1;
      TotalConcat(cs, a, b[..n]);
      TotalAppend(cs, a + b[..n], b[n]);
      assert a + b == (a + b[..n]) + [b[n]];
    }
  }

  lemma {:induction false} ActiveNoDearer(cs: Shape, s: seq<Cube>)
    ensures TotalLiterals(cs, ActiveOnly(s)) <= TotalLiterals(cs, s)
  {
    if s != [] {
      var n := |s| - 1;
      ActiveNoDearer(cs, s[..n]);
      TotalAppend(cs, ActiveOnly(s[..n]), s[n]);
      assert ActiveOnly(s) == ActiveOnly(s[..n]) + (if s[n].active then [s[n]] else []);
      assert !s[n].active ==> ActiveOnly(s) == ActiveOnly(s[..n]);
    }
  }

  lemma TotalWithout(cs: Shape, s: seq<Cube>, j: nat)
    requires j < |s|
    ensures TotalLiterals(cs, s) == TotalLiterals(cs, s[..j] + s[j + 1..]) + CubeLiterals(cs, s[j].parts, cs.numVars)
  {
    assert s == (s[..j] + [s[j]]) + s[j + 1..];
    TotalConcat(cs, s[..j] + [s[j]], s[j + 1..]);
    TotalAppend(cs, s[..j], s[j]);
    TotalConcat(cs, s[..j], s[j + 1..]);
  }

  lemma PickedOut(b: seq<Cube>, j: nat)
    requires j < |b|
    ensures multiset(b) == multiset(b[..j] + b[j + 1..]) + multiset{b[j]}
  {
    assert b == b[..j] + [b[j]] + b[j + 1..];
  }

  lemma WithoutOne(a: seq<Cube>, b: seq<Cube>, c: Cube) returns (j: nat)
    requires multiset(a + [c]) == multiset(b)
    ensures j < |b| && b[j] == c && multiset(a) == multiset(b[..j] + b[j + 1..])
  {
    assert c in multiset(b);
    assert c in b;
    j :| 0 <= j < |b| && b[j] == c;
    PickedOut(b, j);
    var m, n := multiset(a), multiset(b[..j] + b[j + 1..]);
    assert m + multiset{c} == n + multiset{c};
    assert m == m + multiset{c} - multiset{c} && n == n + multiset{c} - multiset{c};
  }

  /** The order of the cubes does not matter. */
  lemma {:induction false} TotalPermuted(cs: Shape, a: seq<Cube>, b: seq<Cube>)
    requires multiset(a) == multiset(b)
    ensures TotalLiterals(cs, a) == TotalLiterals(cs, b)
    decreases |a|
  {
    assert |multiset(a)| == |a| && |multiset(b)| == |b|;
    if a != [] {
      var n := |a| - 1;
      assert a == a[..n] + [a[n]];
      var j := WithoutOne(a[..n], b, a[n]);
      TotalWithout(cs, b, j);
      TotalPermuted(cs, a[..n], b[..j] + b[j + 1..]);
    }
  }

  // ---------- cover_cost ----------

  /** What variable v costs in a whole cover. */
  ghost function VarTotal(cs: Shape, s: seq<Cube>, v: nat): nat
    requires v < cs.numVars
  {
    if s == [] then 0 else VarTotal(cs, s[..|s| - 1], v) + VarLiterals(cs, s[|s| - 1].parts, v)
  }

  ghost function VarsTotal(cs: Shape, s: seq<Cube>, n: nat): nat
    requires n <= cs.numVars
  {
    if n == 0 then 0 else VarsTotal(cs, s, n - 1) + VarTotal(cs, s, n - 1)
  }

  lemma {:induction false} VarsTotalStep(cs: Shape, s: seq<Cube>, n: nat)
    requires n <= cs.numVars && s != []
    ensures VarsTotal(cs, s, n) == VarsTotal(cs, s[..|s| - 1], n) + CubeLiterals(cs, s[|s| - 1].parts, n)
  {
    hide VarLiterals;
    if n > 0 {
      VarsTotalStep(cs, s, n - 1);
    }
  }

  lemma {:induction false} NothingTotal(cs: Shape, n: nat)
    requires n <= cs.numVars
    ensures VarsTotal(cs, [], n) == 0
  {
    if n > 0 {
      NothingTotal(cs, n - 1);
    }
  }

  /** Counting by variables and counting by cubes agree. */
  lemma {:induction false} CountBothWays(cs: Shape, s: seq<Cube>)
    ensures VarsTotal(cs, s, cs.numVars) == TotalLiterals(cs, s)
  {
    if s == [] {
      NothingTotal(cs, cs.numVars);
    } else {
      CountBothWays(cs, s[..|s| - 1]);
      VarsTotalStep(cs, s, cs.numVars);
    }
  }

  /** The 0's of the cubes of s in variable v. */
  ghost function ZerosIn(cs: Shape, s: seq<Cube>, v: nat): nat
    requires v < cs.numVars
  {
    if s == [] then 0 else ZerosIn(cs, s[..|s| - 1], v) + |cs.varMask[v] - s[|s| - 1].parts|
  }

  /** The parts lo..i-1 that p lacks. */
  ghost function Missing(p: set<nat>, lo: nat, i: nat): nat
    requires lo <= i
  {
    if i == lo then 0 else Missing(p, lo, i - 1) + if i - 1 in p then 0 else 1
  }

  lemma {:induction false} MissingSize(p: set<nat>, lo: nat, i: nat, s: set<nat>)
    requires lo <= i && forall x :: x in s <==> lo <= x < i && x !in p
    ensures Missing(p, lo, i) == |s|
  {
    if i == lo {
      assert s == {};
    } else {
      MissingSize(p, lo, i - 1, s - {i - 1});
      assert i - 1 in s ==> s == s - {i - 1} + {i - 1};
      assert i - 1 !in s ==> s == s - {i - 1};
    }
  }

  /** z holds the column counts of s. */
  ghost predicate Columns(cs: Shape, s: seq<Cube>, z: seq<nat>) {
    |z| == cs.size && forall i :: 0 <= i < cs.size ==> z[i] == Zeros(i, s, {})
  }

  lemma {:induction false} SumStep(cs: Shape, s: seq<Cube>, z: seq<nat>, y: seq<nat>, lo: nat, hi: nat)
    requires lo <= hi <= cs.size && s != [] && Columns(cs, s, z) && Columns(cs, s[..|s| - 1], y)
    ensures Sum(z, lo, hi) == Sum(y, lo, hi) + Missing(s[|s| - 1].parts, lo, hi)
  {
    if lo < hi {
      SumStep(cs, s, z, y, lo, hi - 1);
      var p := s[|s| - 1].parts;
      assert p + {} == p;
    }
  }

  lemma {:induction false} SumOfZeros(z: seq<nat>, lo: nat, hi: nat)
    requires lo <= hi <= |z| && forall i :: lo <= i < hi ==> z[i] == 0
    ensures Sum(z, lo, hi) == 0
  {
    if lo < hi {
      SumOfZeros(z, lo, hi - 1);
    }
  }

  /** var_zeros counts the 0's of all cubes in the variable. */
  lemma {:induction false} VarZerosCount(cs: Shape, s: seq<Cube>, z: seq<nat>, v: nat)
    requires v < cs.numVars && Columns(cs, s, z)
    ensures Sum(z, cs.firstPart[v], cs.lastPart[v] + 1) == ZerosIn(cs, s, v)
  {
    var lo, hi := cs.firstPart[v], cs.lastPart[v] + 1;
    if s == [] {
      SumOfZeros(z, lo, hi);
    } else {
      var n := |s| - 1;
      var y := seq(cs.size, i requires 0 <= i < cs.size => Zeros(i, s[..n], {}));
      VarZerosCount(cs, s[..n], y, v);
      SumStep(cs, s, z, y, lo, hi);
      MissingSize(s[n].parts, lo, hi, cs.varMask[v] - s[n].parts);
    }
  }

  lemma OneMore(n: nat, k: nat)
    ensures (n + 1) * k == n * k + k
  {
  }

  lemma {:induction false} OnesAndZeros(cs: Shape, s: seq<Cube>, v: nat)
    requires v < cs.numVars
    ensures !cs.sparse[v] ==> VarTotal(cs, s, v) == ZerosIn(cs, s, v)
    ensures cs.sparse[v] ==> VarTotal(cs, s, v) == |s| * |cs.varMask[v]| - ZerosIn(cs, s, v)
  {
    if s != [] {
      var n := |s| - 1;
      OnesAndZeros(cs, s[..n], v);
      var m, p := cs.varMask[v], s[n].parts;
      assert |m| == |m - p| + |m * p| by { assert m == (m - p) + m * p; }
      OneMore(n, |m|);
    }
  }

  lemma MaskSize(cs: Shape, v: nat)
    requires v < cs.numVars
    ensures |cs.varMask[v]| == cs.lastPart[v] - cs.firstPart[v] + 1
  {
    MissingSize({}, cs.firstPart[v], cs.lastPart[v] + 1, cs.varMask[v]);
    MissingNothing(cs.firstPart[v], cs.lastPart[v] + 1);
  }

  lemma {:induction false} MissingNothing(lo: nat, i: nat)
    requires lo <= i
    ensures Missing({}, lo, i) == i - lo
  {
    if i > lo {
      MissingNothing(lo, i - 1);
    }
  }

  lemma OnesFromZeros(count: nat, m: nat, size: int, zeros: nat, total: nat)
    requires m == size && total == count * m - zeros
    ensures count * size - zeros == total
  {
  }

  /** varZeros counts the 0's of s in every variable. */
  ghost predicate ZeroCounts(cs: Shape, s: seq<Cube>, varZeros: seq<nat>) {
    |varZeros| == cs.numVars && forall v :: 0 <= v < cs.numVars ==> varZeros[v] == ZerosIn(cs, s, v)
  }

  lemma CountedZeros(cs: Shape, s: seq<Cube>, cd: CData)
    requires CountsOf(cs, s, {}, cd)
    ensures ZeroCounts(cs, s, cd.varZeros)
  {
    forall v | 0 <= v < cs.numVars ensures cd.varZeros[v] == ZerosIn(cs, s, v) {
      VarZerosCount(cs, s, cd.partZeros, v);
    }
  }

  /** The 1's of a sparse variable: F->count * part_size - var_zeros. */
  method SparseCost(cs: Shape, F: seq<Cube>, varZeros: seq<nat>, v: nat) returns (ones: nat)
    requires ZeroCounts(cs, F, varZeros) && v < cs.numVars && cs.sparse[v]
    ensures ones == VarTotal(cs, F, v)
  {
    OnesAndZeros(cs, F, v);
    MaskSize(cs, v);
    var size := cs.lastPart[v] - cs.firstPart[v] + 1;
    OnesFromZeros(|F|, |cs.varMask[v]|, size, varZeros[v], VarTotal(cs, F, v));
    ones := |F| * size - varZeros[v];
  }

  /** The loop over the binary variables. */
  method BinaryCosts(cs: Shape, F: seq<Cube>, varZeros: seq<nat>) returns (inLits: nat)
    requires ZeroCounts(cs, F, varZeros)
    ensures inLits == VarsTotal(cs, F, cs.numBinaryVars)
  {
    inLits := 0;
    for v := 0 to cs.numBinaryVars
      invariant inLits == VarsTotal(cs, F, v)
    {
      OnesAndZeros(cs, F, v);
      inLits := inLits + varZeros[v];
    }
  }

  /** The loop over the variables between the binary ones and the last. */
  method MvCosts(cs: Shape, F: seq<Cube>, varZeros: seq<nat>) returns (mvLits: nat)
    requires ZeroCounts(cs, F, varZeros)
    ensures cs.numBinaryVars < cs.numVars ==>
      VarsTotal(cs, F, cs.numVars - 1) == VarsTotal(cs, F, cs.numBinaryVars) + mvLits
    ensures cs.numBinaryVars == cs.numVars ==> mvLits == 0
  {
    hide VarTotal;
    mvLits := 0;
    if cs.numBinaryVars == cs.numVars {
      return;
    }
    for v := cs.numBinaryVars to cs.numVars - 1
      invariant VarsTotal(cs, F, v) == VarsTotal(cs, F, cs.numBinaryVars) + mvLits
    {
      if cs.sparse[v] {
        var ones := SparseCost(cs, F, varZeros, v);
        mvLits := mvLits + ones;
      } else {
        OnesAndZeros(cs, F, v);
        mvLits := mvLits + varZeros[v];
      }
    }
  }

  /** The `cost` record; `primes` is not part of this model. */
  datatype Cost = Cost(cubes: nat, inLits: nat, outLits: nat, mvLits: nat, total: nat)

  /** cover_cost -- the total is the number of literals of all cubes. */
  method CoverCostOf(cs: Shape, F: seq<Cube>) returns (cost: Cost)
    ensures cost.cubes == |F| && cost.total == TotalLiterals(cs, F)
  {
    var T := new CubeList({}, F);
    var cd := MassiveCount(cs, T);
    CountedZeros(cs, F, cd);
    cost := CostFrom(cs, F, cd.varZeros);
  }

  lemma LastVariable(cs: Shape, F: seq<Cube>)
    requires cs.numVars > 0
    ensures VarsTotal(cs, F, cs.numVars) == VarsTotal(cs, F, cs.numVars - 1) + VarTotal(cs, F, cs.numVars - 1)
  {
  }

  method CostFrom(cs: Shape, F: seq<Cube>, varZeros: seq<nat>) returns (cost: Cost)
    requires ZeroCounts(cs, F, varZeros)
    ensures cost.cubes == |F| && cost.total == TotalLiterals(cs, F)
  {
    var inLits := BinaryCosts(cs, F, varZeros);
    var mvLits := MvCosts(cs, F, varZeros);
    var outLits := 0;
    CountBothWays(cs, F);
    if cs.numBinaryVars != cs.numVars {
      outLits := SparseCost(cs, F, varZeros, cs.numVars - 1);
      LastVariable(cs, F);
    }
    assert inLits + mvLits + outLits == VarsTotal(cs, F, cs.numVars);
    cost := Cost(|F|, inLits, outLits, mvLits, inLits + outLits + mvLits);
  }
}
