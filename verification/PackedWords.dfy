/**
 setc.c: the distance, forced lowering and consensus of cubes packed into machine words, two bits for
 a binary variable.  A word is its 32 bits, low bit first.
 */
module PackedWords {
  import opened Cubes
  import opened CubeSetup
  import opened SetOps

  const BPI: nat := 32

  type Word = w: seq<bool> | |w| == BPI witness seq(BPI, _ => false)

  function And(a: Word, b: Word): Word {
    seq(BPI, k requires 0 <= k < BPI => a[k] && b[k])
  }

  function Or(a: Word, b: Word): Word {
    seq(BPI, k requires 0 <= k < BPI => a[k] || b[k])
  }

  function Not(a: Word): Word {
    seq(BPI, k requires 0 <= k < BPI => !a[k])
  }

  /** a >> 1 and a << 1 */
  function ShiftDown(a: Word): Word {
    seq(BPI, k requires 0 <= k < BPI => k + 1 < BPI && a[k + 1])
  }

  function ShiftUp(a: Word): Word {
    seq(BPI, k requires 0 <= k < BPI => k > 0 && a[k - 1])
  }

  predicate NonZero(a: Word) {
    exists k :: 0 <= k < BPI && a[k]
  }

  /** The ones among the first n bits; count_ones looks them up bytewise. */
  function Ones(a: Word, n: nat): nat
    requires n <= BPI
  {
    if n == 0 then 0 else Ones(a, n - 1) + if a[n - 1] then 1 else 0
  }

  /** The low bit of every pair. */
  function LowBits(): Word {
    seq(BPI, k => k % 2 == 0)
  }

  // ---------- packed cubes ----------

  /** A cube: a header word, and words 1.. with the parts. */
  ghost predicate Packed(cs: Shape, a: seq<Word>) {
    |a| >= 1 && 32 * (|a| - 1) >= cs.size
  }

  predicate Bit(a: seq<Word>, i: nat)
    requires |a| >= 1 && i < 32 * (|a| - 1)
  {
    a[1 + i / 32][i % 32]
  }

  ghost function PartsIn(cs: Shape, a: seq<Word>): (p: set<nat>)
    requires Packed(cs, a)
  {
    set i | i in cs.fullset && Bit(a, i)
  }

  /** The word in which the last binary variable lies, or -1. */
  function InWord(cs: CubeStruct): int {
    if cs.numBinaryVars == 0 then -1 else 1 + (2 * cs.numBinaryVars - 1) / 32
  }

  /** cube.inmask: the low bits of the binary variables in that word. */
  function InMask(cs: CubeStruct): Word
    requires cs.numBinaryVars > 0
  {
    seq(BPI, k requires 0 <= k < BPI => k % 2 == 0 && 32 * (InWord(cs) - 1) + k < 2 * cs.numBinaryVars)
  }

  /** The mask used for word w: inmask for the last one, all pairs for the full ones. */
  function MaskFor(cs: CubeStruct, w: nat): Word
    requires cs.numBinaryVars > 0
  {
    if w == InWord(cs) then InMask(cs) else LowBits()
  }

  /** ~(x | x >> 1) & mask for x = a & b: a one for every binary variable in which a and b conflict. */
  function ConflictBits(a: Word, b: Word, mask: Word): Word {
    var x := And(a, b);
    And(Not(Or(x, ShiftDown(x))), mask)
  }

  /** Bit k of the conflict word belongs to variable 16 (w - 1) + k / 2. */
  lemma ConflictBit(cs: Shape, a: seq<Word>, b: seq<Word>, w: nat, k: nat)
    requires BinaryFirst(cs) && Packed(cs, a) && Packed(cs, b) && |a| == |b| && cs.numBinaryVars > 0
    requires 1 <= w <= InWord(cs) && k < BPI
    ensures w < |a|
    ensures var v := 16 * (w - 1) + k / 2;
            ConflictBits(a[w], b[w], MaskFor(cs, w))[k] <==>
            k % 2 == 0 && v < cs.numBinaryVars && ConflictIn(cs, PartsIn(cs, a), PartsIn(cs, b), v)
  {
    var nb := cs.numBinaryVars;
    assert cs.lastPart[nb - 1] == 2 * (nb - 1) + 1 < cs.size;
    assert w < |a|;
    var v := 16 * (w - 1) + k / 2;
    if k % 2 == 0 {
      assert MaskFor(cs, w)[k] <==> v < nb;
      if v < nb {
        VariableConflict(cs, a, b, v);
        assert (2 * v) / 32 == w - 1 && (2 * v) % 32 == k;
        assert (2 * v + 1) / 32 == w - 1 && (2 * v + 1) % 32 == k + 1;
      }
    }
  }

  /** A binary variable conflicts when neither of its two bits is set in both. */
  lemma VariableConflict(cs: Shape, a: seq<Word>, b: seq<Word>, v: nat)
    requires BinaryFirst(cs) && Packed(cs, a) && Packed(cs, b) && v < cs.numBinaryVars
    ensures 2 * v + 1 < cs.size
    ensures ConflictIn(cs, PartsIn(cs, a), PartsIn(cs, b), v) <==>
            !(Bit(a, 2 * v) && Bit(b, 2 * v)) && !(Bit(a, 2 * v + 1) && Bit(b, 2 * v + 1))
  {
    var f := 2 * v;
    assert cs.firstPart[v] == f && cs.lastPart[v] == f + 1 < cs.size;
    assert cs.varMask[v] == {f, f + 1};
    var both := PartsIn(cs, a) * PartsIn(cs, b) * cs.varMask[v];
    assert f in both <==> Bit(a, f) && Bit(b, f);
    assert f + 1 in both <==> Bit(a, f + 1) && Bit(b, f + 1);
    assert both == (if f in both then {f} else {}) + (if f + 1 in both then {f + 1} else {});
  }

  function Least(a: nat, b: nat): nat {
    if a < b then a else b
  }

  /** The two bits of one variable. */
  lemma OnesStep(cs: Shape, a: seq<Word>, b: seq<Word>, w: nat, n: nat)
    requires BinaryFirst(cs) && Packed(cs, a) && Packed(cs, b) && |a| == |b| && cs.numBinaryVars > 0
    requires 1 <= w <= InWord(cs) && n < 16
    ensures w < |a|
    ensures var c, v := ConflictBits(a[w], b[w], MaskFor(cs, w)), 16 * (w - 1) + n;
            Ones(c, 2 * n + 2) == Ones(c, 2 * n) +
            if v < cs.numBinaryVars && ConflictIn(cs, PartsIn(cs, a), PartsIn(cs, b), v) then 1 else 0
  {
    ConflictBit(cs, a, b, w, 2 * n);
    ConflictBit(cs, a, b, w, 2 * n + 1);
    var c := ConflictBits(a[w], b[w], MaskFor(cs, w));
    assert Ones(c, 2 * n + 2) == Ones(c, 2 * n + 1) + if c[2 * n + 1] then 1 else 0;
    assert Ones(c, 2 * n + 1) == Ones(c, 2 * n) + if c[2 * n] then 1 else 0;
  }

  /** Word c has a one in pair j exactly if the binary variable base + j conflicts. */
  ghost predicate CountsConflicts(cs: Shape, A: set<nat>, B: set<nat>, c: Word, base: nat) {
    forall j: nat {:trigger Ones(c, 2 * j + 2)} :: j < 16 ==>
      Ones(c, 2 * j + 2) == Ones(c, 2 * j) + if base + j < cs.numBinaryVars && ConflictIn(cs, A, B, base + j) then 1
      else 0
  }

  lemma {:induction false} CountWord(cs: Shape, A: set<nat>, B: set<nat>, c: Word, base: nat, n: nat)
    requires CountsConflicts(cs, A, B, c, base) && n <= 16 && base <= cs.numBinaryVars
    ensures Distance(cs, A, B, Least(base + n, cs.numBinaryVars)) == Distance(cs, A, B, base) + Ones(c, 2 * n)
  {
    if n > 0 {
      CountWord(cs, A, B, c, base, n - 1);
      assert Ones(c, 2 * (n - 1) + 2) == Ones(c, 2 * n);
      DistanceNext(cs, A, B, base + n - 1);
    }
  }

  /** The ones of word w count the conflicts of its variables. */
  lemma OnesCount(cs: Shape, a: seq<Word>, b: seq<Word>, w: nat, n: nat)
    requires BinaryFirst(cs) && Packed(cs, a) && Packed(cs, b) && |a| == |b| && cs.numBinaryVars > 0
    requires 1 <= w <= InWord(cs) && n <= 16 && w < |a| && 16 * (w - 1) <= cs.numBinaryVars
    ensures var A, B := PartsIn(cs, a), PartsIn(cs, b);
            Distance(cs, A, B, Least(16 * (w - 1) + n, cs.numBinaryVars)) ==
            Distance(cs, A, B, 16 * (w - 1)) + Ones(ConflictBits(a[w], b[w], MaskFor(cs, w)), 2 * n)
  {
    hide BinaryFirst, Packed, InWord, PartsIn, Distance, Ones, ConflictBits, MaskFor, ConflictIn;
    forall j: nat | j < 16 {
      OnesStep(cs, a, b, w, j);
    }
    CountWord(cs, PartsIn(cs, a), PartsIn(cs, b), ConflictBits(a[w], b[w], MaskFor(cs, w)), 16 * (w - 1), n);
  }

  /** One more binary variable, if there is one. */
  lemma DistanceNext(cs: Shape, A: set<nat>, B: set<nat>, v: nat)
    ensures Distance(cs, A, B, Least(v + 1, cs.numBinaryVars)) ==
            Distance(cs, A, B, Least(v, cs.numBinaryVars)) + if v < cs.numBinaryVars && ConflictIn(cs, A, B, v) then 1
            else 0
  {
    if v < cs.numBinaryVars {
      assert Distance(cs, A, B, v + 1) == Distance(cs, A, B, v) + if ConflictIn(cs, A, B, v) then 1 else 0;
    }
  }

  /** The distance contributed by word w. */
  lemma WordDistance(cs: Shape, a: seq<Word>, b: seq<Word>, w: nat)
    requires BinaryFirst(cs) && Packed(cs, a) && Packed(cs, b) && |a| == |b| && cs.numBinaryVars > 0
    requires 1 <= w <= InWord(cs)
    ensures w < |a| && 16 * (w - 1) < cs.numBinaryVars
    ensures var A, B := PartsIn(cs, a), PartsIn(cs, b);
            Ones(ConflictBits(a[w], b[w], MaskFor(cs, w)), BPI) ==
            Distance(cs, A, B, if w == InWord(cs) then cs.numBinaryVars else 16 * w) - Distance(cs, A, B, 16 * (w - 1))
    ensures w < InWord(cs) ==> 16 * w < cs.numBinaryVars
  {
    hide BinaryFirst, Packed, PartsIn, Ones, ConflictBits, MaskFor, Distance, ConflictIn;
    ConflictBit(cs, a, b, w, 0);
    OnesCount(cs, a, b, w, 16);
  }

  lemma {:induction false} SomeOnes(c: Word, n: nat)
    requires n <= BPI
    ensures Ones(c, n) > 0 <==> exists k :: 0 <= k < n && c[k]
    ensures Ones(c, n) <= n
  {
    if n > 0 {
      SomeOnes(c, n - 1);
    }
  }

  // ---------- multiple-valued variables ----------

  /** The bits of variable v in word w. */
  function MaskWord(cs: CubeStruct, v: nat, w: nat): Word
    requires v < |cs.firstPart| && v < |cs.lastPart| && w >= 1
  {
    seq(BPI, k requires 0 <= k < BPI => cs.firstPart[v] <= 32 * (w - 1) + k <= cs.lastPart[v])
  }

  /** The loop over the words of v: do a and b share a part in it? */
  method ShareVariable(cs: Shape, a: seq<Word>, b: seq<Word>, v: nat) returns (share: bool)
    requires Packed(cs, a) && Packed(cs, b) && |a| == |b| && v < cs.numVars
    ensures share <==> !ConflictIn(cs, PartsIn(cs, a), PartsIn(cs, b), v)
  {
    var firstWord, lastWord := 1 + cs.firstPart[v] / 32, 1 + cs.lastPart[v] / 32;
    for w := firstWord to lastWord + 1
      invariant forall i :: cs.firstPart[v] <= i <= cs.lastPart[v] && 1 + i / 32 < w ==> !(Bit(a, i) && Bit(b, i))
    {
      var x := And(And(a[w], b[w]), MaskWord(cs, v, w));
      if NonZero(x) {
        ghost var k :| 0 <= k < BPI && x[k];
        ghost var i := 32 * (w - 1) + k;
        assert i / 32 == w - 1 && i % 32 == k;
        assert i in PartsIn(cs, a) * PartsIn(cs, b) * cs.varMask[v];
        return true;
      }
      forall i | cs.firstPart[v] <= i <= cs.lastPart[v] && 1 + i / 32 == w ensures !(Bit(a, i) && Bit(b, i)) {
        assert !x[i % 32];
      }
    }
    forall i | i in cs.varMask[v] ensures i !in PartsIn(cs, a) * PartsIn(cs, b) {
      assert cs.firstPart[v] <= i <= cs.lastPart[v];
      assert i / 32 <= cs.lastPart[v] / 32;
    }
    assert PartsIn(cs, a) * PartsIn(cs, b) * cs.varMask[v] == {};
    share := false;
  }

  // ---------- cdist, cdist01, cdist0 ----------

  /** The distance of the variables of word w. */
  ghost function InWordDistance(cs: Shape, A: set<nat>, B: set<nat>, w: nat): int
    requires cs.numBinaryVars > 0 && 1 <= w <= InWord(cs)
  {
    Distance(cs, A, B, if w == InWord(cs) then cs.numBinaryVars else 16 * w) - Distance(cs, A, B, 16 * (w - 1))
  }

  /** x = ~(x | x >> 1) & mask, and its ones. */
  method WordConflicts(cs: Shape, a: seq<Word>, b: seq<Word>, w: nat) returns (some: bool, ones: nat)
    requires BinaryFirst(cs) && Packed(cs, a) && Packed(cs, b) && |a| == |b| && cs.numBinaryVars > 0
    requires 1 <= w <= InWord(cs)
    ensures ones == InWordDistance(cs, PartsIn(cs, a), PartsIn(cs, b), w) && (some <==> ones > 0)
  {
    WordDistance(cs, a, b, w);
    var x := ConflictBits(a[w], b[w], MaskFor(cs, w));
    SomeOnes(x, BPI);
    some, ones := NonZero(x), Ones(x, BPI);
  }

  /** The words before the last one leave part of the binary distance. */
  lemma WordOrder(cs: Shape, A: set<nat>, B: set<nat>, w: nat)
    requires cs.numBinaryVars > 0 && 1 <= w <= InWord(cs)
    ensures 16 * (w - 1) < cs.numBinaryVars
    ensures InWordDistance(cs, A, B, InWord(cs)) + Distance(cs, A, B, 16 * (w - 1)) <= Distance(cs, A, B, cs.numVars)
    ensures w == InWord(cs) ==>
      InWordDistance(cs, A, B, w) + Distance(cs, A, B, 16 * (w - 1)) == Distance(cs, A, B, cs.numBinaryVars)
  {
    var last := InWord(cs);
    DistanceGrows(cs, A, B, 16 * (w - 1), 16 * (last - 1));
    DistanceGrows(cs, A, B, cs.numBinaryVars, cs.numVars);
  }

  /** The binary part of cdist. */
  method BinaryDistance(cs: Shape, a: seq<Word>, b: seq<Word>) returns (dist: nat)
    requires BinaryFirst(cs) && Packed(cs, a) && Packed(cs, b) && |a| == |b|
    ensures dist == Distance(cs, PartsIn(cs, a), PartsIn(cs, b), cs.numBinaryVars)
  {
    ghost var A, B := PartsIn(cs, a), PartsIn(cs, b);
    dist := 0;
    var last := InWord(cs);
    if last != -1 {
      var some, ones := WordConflicts(cs, a, b, last);
      if some {
        dist := ones;
      }
      ghost var inLast := dist;
      WordOrder(cs, A, B, last);
      for w := 1 to last
        invariant 16 * (w - 1) < cs.numBinaryVars && dist == inLast + Distance(cs, A, B, 16 * (w - 1))
      {
        some, ones := WordConflicts(cs, a, b, w);
        WordOrder(cs, A, B, w + 1);
        if some {
          dist := dist + ones;
        }
      }
    }
  }

  /** cdist */
  method Cdist(cs: Shape, a: seq<Word>, b: seq<Word>) returns (dist: nat)
    requires BinaryFirst(cs) && Packed(cs, a) && Packed(cs, b) && |a| == |b|
    ensures dist == Distance(cs, PartsIn(cs, a), PartsIn(cs, b), cs.numVars)
  {
    dist := BinaryDistance(cs, a, b);
    for v := cs.numBinaryVars to cs.numVars
      invariant dist == Distance(cs, PartsIn(cs, a), PartsIn(cs, b), v)
    {
      var share := ShareVariable(cs, a, b, v);
      if !share {
        dist := dist + 1;
      }
    }
  }

  /** cdist0 */
  method Cdist0(cs: Shape, a: seq<Word>, b: seq<Word>) returns (yes: bool)
    requires BinaryFirst(cs) && Packed(cs, a) && Packed(cs, b) && |a| == |b|
    ensures yes <==> Distance0(cs, PartsIn(cs, a), PartsIn(cs, b))
  {
    DistanceZero(cs, PartsIn(cs, a), PartsIn(cs, b));
    yes := BinaryAgree(cs, a, b);
    if yes {
      for v := cs.numBinaryVars to cs.numVars
        invariant Distance(cs, PartsIn(cs, a), PartsIn(cs, b), v) == 0
      {
        var share := ShareVariable(cs, a, b, v);
        if !share {
          DistanceGrows(cs, PartsIn(cs, a), PartsIn(cs, b), v + 1, cs.numVars);
          return false;
        }
      }
    } else {
      DistanceGrows(cs, PartsIn(cs, a), PartsIn(cs, b), cs.numBinaryVars, cs.numVars);
    }
  }

  /** The binary part of cdist0. */
  method BinaryAgree(cs: Shape, a: seq<Word>, b: seq<Word>) returns (yes: bool)
    requires BinaryFirst(cs) && Packed(cs, a) && Packed(cs, b) && |a| == |b|
    ensures yes <==> Distance(cs, PartsIn(cs, a), PartsIn(cs, b), cs.numBinaryVars) == 0
  {
    hide Packed, PartsIn, BinaryFirst;
    ghost var A, B := PartsIn(cs, a), PartsIn(cs, b);
    var last := InWord(cs);
    if last != -1 {
      WordOrder(cs, A, B, last);
      var some, ones := WordConflicts(cs, a, b, last);
      if some {
        return false;
      }
      for w := 1 to last
        invariant 16 * (w - 1) < cs.numBinaryVars && Distance(cs, A, B, 16 * (w - 1)) == 0
      {
        some, ones := WordConflicts(cs, a, b, w);
        WordOrder(cs, A, B, w + 1);
        if some {
          DistanceGrows(cs, A, B, 16 * w, cs.numBinaryVars);
          return false;
        }
      }
    }
    yes := true;
  }

  /** The binary part of cdist01. */
  method BinaryDistance01(cs: Shape, a: seq<Word>, b: seq<Word>) returns (dist: nat)
    requires BinaryFirst(cs) && Packed(cs, a) && Packed(cs, b) && |a| == |b|
    ensures var d := Distance(cs, PartsIn(cs, a), PartsIn(cs, b), cs.numBinaryVars); dist == if d <= 1 then d else 2
  {
    ghost var A, B := PartsIn(cs, a), PartsIn(cs, b);
    dist := 0;
    var last := InWord(cs);
    if last != -1 {
      WordOrder(cs, A, B, last);
      var some, ones := WordConflicts(cs, a, b, last);
      if some {
        dist := ones;
        if dist > 1 {
          return 2;
        }
      }
      ghost var inLast := dist;
      for w := 1 to last
        invariant 16 * (w - 1) < cs.numBinaryVars && dist == inLast + Distance(cs, A, B, 16 * (w - 1)) <= 1
      {
        some, ones := WordConflicts(cs, a, b, w);
        WordOrder(cs, A, B, w + 1);
        if some {
          DistanceGrows(cs, A, B, 16 * w, 16 * (last - 1));
          if dist == 1 {
            return 2;
          }
          dist := dist + ones;
          if dist > 1 {
            return 2;
          }
        }
      }
    }
  }

  /** cdist01 -- the distance, or 2 if it exceeds 1. */
  method Cdist01Packed(cs: Shape, a: seq<Word>, b: seq<Word>) returns (dist: nat)
    requires BinaryFirst(cs) && Packed(cs, a) && Packed(cs, b) && |a| == |b|
    ensures var d := Distance(cs, PartsIn(cs, a), PartsIn(cs, b), cs.numVars); dist == if d <= 1 then d else 2
  {
    hide ConflictIn, Packed, PartsIn;
    ghost var A, B := PartsIn(cs, a), PartsIn(cs, b);
    dist := BinaryDistance01(cs, a, b);
    DistanceGrows(cs, A, B, cs.numBinaryVars, cs.numVars);
    if dist > 1 {
      return 2;
    }
    for v := cs.numBinaryVars to cs.numVars
      invariant dist == Distance(cs, A, B, v) <= 1
    {
      var share := ShareVariable(cs, a, b, v);
      if !share {
        dist := dist + 1;
        if dist > 1 {
          DistanceGrows(cs, A, B, v + 1, cs.numVars);
          return 2;
        }
      }
    }
  }

  // ---------- force_lower and consensus ----------

  lemma UpdateBit(a: seq<Word>, w: nat, x: Word, i: nat)
    requires 1 <= w < |a| && i < 32 * (|a| - 1)
    ensures Bit(a[w := x], i) == if 1 + i / 32 == w then x[i % 32] else Bit(a, i)
  {
  }

  /** The conflict word spread over both bits of each conflicting variable. */
  function Spread(x: Word): Word {
    Or(x, ShiftUp(x))
  }

  /** Bit i of the spread word: i belongs to a binary variable in which a and b conflict. */
  lemma SpreadBit(cs: Shape, a: seq<Word>, b: seq<Word>, w: nat, i: nat)
    requires BinaryFirst(cs) && Packed(cs, a) && Packed(cs, b) && |a| == |b| && cs.numBinaryVars > 0
    requires 1 <= w <= InWord(cs) && i in cs.fullset && 1 + i / 32 == w
    ensures w < |a|
    ensures Spread(ConflictBits(a[w], b[w], MaskFor(cs, w)))[i % 32] <==>
            i < 2 * cs.numBinaryVars && ConflictIn(cs, PartsIn(cs, a), PartsIn(cs, b), cs.partVar[i])
  {
    hide BinaryFirst, Packed, InWord, ConflictBits, MaskFor, ConflictIn, PartsIn;
    var k := i % 32;
    ConflictBit(cs, a, b, w, k);
    if k > 0 {
      ConflictBit(cs, a, b, w, k - 1);
    }
    PartVariable(cs, i);
  }

  /** Part i < 2 * numBinaryVars belongs to variable i / 2. */
  lemma PartVariable(cs: Shape, i: nat)
    requires BinaryFirst(cs) && i in cs.fullset
    ensures i < 2 * cs.numBinaryVars <==> cs.partVar[i] < cs.numBinaryVars
    ensures i < 2 * cs.numBinaryVars ==> cs.partVar[i] == i / 2
  {
    var v := cs.partVar[i];
    assert i in cs.varMask[v] && cs.firstPart[v] <= i <= cs.lastPart[v];
    assert v < cs.numBinaryVars ==> cs.lastPart[v] == 2 * v + 1;
    if i < 2 * cs.numBinaryVars {
      var u := i / 2;
      assert cs.firstPart[u] == 2 * u && cs.lastPart[u] == 2 * u + 1;
      assert i in cs.varMask[u];
    }
  }

  /** Part i lies in a word that has been handled: the last one, or one before w. */
  ghost predicate Handled(cs: Shape, w: nat, i: nat) {
    i < 2 * cs.numBinaryVars && (1 + i / 32 == InWord(cs) || 1 + i / 32 < w)
  }

  /** xlower after the words handled so far. */
  ghost predicate LoweredWords(cs: Shape, x: seq<Word>, r: seq<Word>, A: set<nat>, B: set<nat>, w: nat)
    requires Packed(cs, x) && Packed(cs, r)
  {
    |r| == |x| && forall i :: i in cs.fullset ==>
      (Bit(r, i) <==> Bit(x, i) || (Handled(cs, w, i) && ForcedLow(cs, A, B, i)))
  }

  /** xlower[w] |= (x | x << 1) & a[w] */
  method LowerWord(cs: Shape, r: seq<Word>, a: seq<Word>, b: seq<Word>, w: nat) returns (r': seq<Word>)
    requires BinaryFirst(cs) && Packed(cs, a) && Packed(cs, b) && |a| == |b| == |r| && cs.numBinaryVars > 0
    requires 1 <= w <= InWord(cs)
    ensures |r'| == |r|
    ensures forall i :: i in cs.fullset ==>
      (Bit(r', i) <==>
        Bit(r, i) ||
        (1 + i / 32 == w && i < 2 * cs.numBinaryVars && ForcedLow(cs, PartsIn(cs, a), PartsIn(cs, b), i)))
  {
    hide BinaryFirst, InWord, ConflictBits, MaskFor, ConflictIn;
    ConflictBit(cs, a, b, w, 0);
    var x := ConflictBits(a[w], b[w], MaskFor(cs, w));
    r' := r;
    if NonZero(x) {
      r' := r[w := Or(r[w], And(Spread(x), a[w]))];
    } else {
      assert forall k :: 0 <= k < BPI ==> !Spread(x)[k];
    }
    forall i | i in cs.fullset
      ensures Bit(r', i) <==>
        Bit(r, i) || (1 + i / 32 == w && i < 2 * cs.numBinaryVars && ForcedLow(cs, PartsIn(cs, a), PartsIn(cs, b), i))
    {
      if 1 + i / 32 == w {
        SpreadBit(cs, a, b, w, i);
        assert i in PartsIn(cs, a) <==> a[w][i % 32];
      }
      if NonZero(x) {
        UpdateBit(r, w, Or(r[w], And(Spread(x), a[w])), i);
      }
    }
  }

  /** Every word of variable v: xlower[w] |= a[w] & mask[w]. */
  method LowerVariable(cs: Shape, r: seq<Word>, a: seq<Word>, v: nat) returns (r': seq<Word>)
    requires Packed(cs, a) && |a| == |r| && v < cs.numVars
    ensures |r'| == |r|
    ensures forall i :: i in cs.fullset ==> (Bit(r', i) <==> Bit(r, i) || (cs.partVar[i] == v && Bit(a, i)))
  {
    r' := r;
    forall i | i in cs.fullset ensures cs.partVar[i] == v <==> cs.firstPart[v] <= i <= cs.lastPart[v] {
      assert i in cs.varMask[v] <==> cs.partVar[i] == v;
    }
    for w := 1 + cs.firstPart[v] / 32 to 2 + cs.lastPart[v] / 32
      invariant |r'| == |r|
      invariant forall i :: i in cs.fullset ==>
        (Bit(r', i) <==> Bit(r, i) || (cs.partVar[i] == v && 1 + i / 32 < w && Bit(a, i)))
    {
      var word := Or(r'[w], And(a[w], MaskWord(cs, v, w)));
      forall i | i in cs.fullset
        ensures Bit(r'[w := word], i) <==> Bit(r, i) || (cs.partVar[i] == v && 1 + i / 32 < w + 1 && Bit(a, i))
      {
        UpdateBit(r', w, word, i);
      }
      r' := r'[w := word];
    }
  }

  /** The binary part of force_lower. */
  method LowerBinary(cs: Shape, xlower: seq<Word>, a: seq<Word>, b: seq<Word>) returns (r: seq<Word>)
    requires BinaryFirst(cs) && Packed(cs, a) && Packed(cs, b) && |a| == |b| == |xlower|
    ensures |r| == |xlower|
    ensures forall i :: i in cs.fullset ==>
      (Bit(r, i) <==> Bit(xlower, i) || (i < 2 * cs.numBinaryVars && ForcedLow(cs, PartsIn(cs, a), PartsIn(cs, b), i)))
  {
    r := xlower;
    var last := InWord(cs);
    if last != -1 {
      r := LowerWord(cs, r, a, b, last);
      for w := 1 to last
        invariant |r| == |xlower| && LoweredWords(cs, xlower, r, PartsIn(cs, a), PartsIn(cs, b), w)
      {
        r := LowerWord(cs, r, a, b, w);
      }
    }
  }

  /** force_lower -- add to xlower the parts of a in the variables in which a and b conflict. */
  method ForceLowerPacked(cs: Shape, xlower: seq<Word>, a: seq<Word>, b: seq<Word>) returns (r: seq<Word>)
    requires BinaryFirst(cs) && Packed(cs, a) && Packed(cs, b) && |a| == |b| == |xlower|
    ensures |r| == |xlower|
    ensures forall i :: i in cs.fullset ==>
      (Bit(r, i) <==> Bit(xlower, i) || ForcedLow(cs, PartsIn(cs, a), PartsIn(cs, b), i))
  {
    r := LowerBinary(cs, xlower, a, b);
    forall i | i in cs.fullset ensures i < 2 * cs.numBinaryVars <==> cs.partVar[i] < cs.numBinaryVars {
      PartVariable(cs, i);
    }
    for v := cs.numBinaryVars to cs.numVars
      invariant |r| == |xlower|
      invariant forall i :: i in cs.fullset ==>
        (Bit(r, i) <==> Bit(xlower, i) || (cs.partVar[i] < v && ForcedLow(cs, PartsIn(cs, a), PartsIn(cs, b), i)))
    {
      var share := ShareVariable(cs, a, b, v);
      if !share {
        r := LowerVariable(cs, r, a, v);
      }
    }
  }

  /** r[w] = a & b, and a | b on both bits of a conflicting variable. */
  method ConsensusWord(cs: Shape, r: seq<Word>, a: seq<Word>, b: seq<Word>, w: nat) returns (r': seq<Word>)
    requires BinaryFirst(cs) && Packed(cs, a) && Packed(cs, b) && |a| == |b| == |r| && cs.numBinaryVars > 0
    requires 1 <= w <= InWord(cs)
    ensures |r'| == |r|
    ensures forall i :: i in cs.fullset && 1 + i / 32 != w ==> Bit(r', i) == Bit(r, i)
    ensures forall i :: i in cs.fullset && 1 + i / 32 == w ==>
      (Bit(r', i) <==> if i < 2 * cs.numBinaryVars then InConsensus(cs, PartsIn(cs, a), PartsIn(cs, b), i)
      else Bit(a, i) && Bit(b, i))
  {
    ConflictBit(cs, a, b, w, 0);
    var both := And(a[w], b[w]);
    var x := ConflictBits(a[w], b[w], MaskFor(cs, w));
    var word := both;
    if NonZero(x) {
      word := Or(both, And(Spread(x), Or(a[w], b[w])));
    } else {
      assert forall k :: 0 <= k < BPI ==> !Spread(x)[k];
    }
    r' := r[w := word];
    forall i | i in cs.fullset && 1 + i / 32 == w
      ensures word[i % 32] <==>
        if i < 2 * cs.numBinaryVars then InConsensus(cs, PartsIn(cs, a), PartsIn(cs, b), i) else Bit(a, i) && Bit(b, i)
    {
      ConsensusBit(cs, a, b, w, i);
    }
    forall i | i in cs.fullset ensures Bit(r', i) == if 1 + i / 32 == w then word[i % 32] else Bit(r, i) {
      UpdateBit(r, w, word, i);
    }
  }

  lemma ConsensusBit(cs: Shape, a: seq<Word>, b: seq<Word>, w: nat, i: nat)
    requires BinaryFirst(cs) && Packed(cs, a) && Packed(cs, b) && |a| == |b| && cs.numBinaryVars > 0
    requires 1 <= w <= InWord(cs) && i in cs.fullset && 1 + i / 32 == w && w < |a|
    ensures var s, k := Spread(ConflictBits(a[w], b[w], MaskFor(cs, w)))[i % 32], i % 32;
            (a[w][k] && b[w][k]) || (s && (a[w][k] || b[w][k])) <==>
            if i < 2 * cs.numBinaryVars then InConsensus(cs, PartsIn(cs, a), PartsIn(cs, b), i)
            else Bit(a, i) && Bit(b, i)
  {
    SpreadBit(cs, a, b, w, i);
    assert i in cs.varMask[cs.partVar[i]];
    assert i in PartsIn(cs, a) <==> a[w][i % 32];
    assert i in PartsIn(cs, b) <==> b[w][i % 32];
    if Bit(a, i) && Bit(b, i) {
      assert i in PartsIn(cs, a) * PartsIn(cs, b) * cs.varMask[cs.partVar[i]];
    }
  }

  /** The words of a multiple-valued variable: a & b, or a | b when that is empty. */
  method ConsensusVariable(cs: Shape, r: seq<Word>, a: seq<Word>, b: seq<Word>, v: nat) returns (r': seq<Word>)
    requires BinaryFirst(cs) && Packed(cs, a) && Packed(cs, b) && |a| == |b| == |r| && v < cs.numVars
    requires forall i :: i in cs.fullset && cs.partVar[i] == v && Bit(r, i) ==> Bit(a, i) && Bit(b, i)
    ensures |r'| == |r|
    ensures forall i :: i in cs.fullset && cs.partVar[i] != v ==> Bit(r', i) == Bit(r, i)
    ensures forall i :: i in cs.fullset && cs.partVar[i] == v ==>
      (Bit(r', i) <==> InConsensus(cs, PartsIn(cs, a), PartsIn(cs, b), i))
  {
    hide BinaryFirst, ConflictIn;
    var share := ShareVariable(cs, a, b, v);
    r' := r;
    forall i | i in cs.fullset ensures cs.partVar[i] == v <==> cs.firstPart[v] <= i <= cs.lastPart[v] {
      assert i in cs.varMask[v] <==> cs.partVar[i] == v;
    }
    for w := 1 + cs.firstPart[v] / 32 to 2 + cs.lastPart[v] / 32
      invariant |r'| == |r|
      invariant forall i :: i in cs.fullset && !(cs.partVar[i] == v && 1 + i / 32 < w) ==> Bit(r', i) == Bit(r, i)
      invariant forall i :: i in cs.fullset && cs.partVar[i] == v && 1 + i / 32 < w ==>
        (Bit(r', i) <==> if share then Bit(a, i) && Bit(b, i) else Bit(a, i) || Bit(b, i))
    {
      var x := And(if share then And(a[w], b[w]) else Or(a[w], b[w]), MaskWord(cs, v, w));
      ghost var before := r';
      r' := r'[w := Or(r'[w], x)];
      forall i | i in cs.fullset
        ensures Bit(r', i) == if 1 + i / 32 == w then before[w][i % 32] || x[i % 32] else Bit(before, i)
      {
        UpdateBit(before, w, Or(before[w], x), i);
      }
    }
  }

  /** The binary part of consensus; parts of other variables in its last word get a & b. */
  ghost predicate ConsensusWords(cs: Shape, a: seq<Word>, b: seq<Word>, r: seq<Word>, w: nat)
    requires Packed(cs, a) && Packed(cs, b) && Packed(cs, r)
  {
    forall i :: i in cs.fullset ==>
      if 1 + i / 32 == InWord(cs) || 1 + i / 32 < w then
        (Bit(r, i) <==> if i < 2 * cs.numBinaryVars then InConsensus(cs, PartsIn(cs, a), PartsIn(cs, b), i)
        else Bit(a, i) && Bit(b, i))
      else
        !Bit(r, i)
  }

  method ConsensusBinary(cs: Shape, a: seq<Word>, b: seq<Word>) returns (r: seq<Word>)
    requires BinaryFirst(cs) && Packed(cs, a) && Packed(cs, b) && |a| == |b|
    ensures |r| == |a|
    ensures forall i :: i in cs.fullset && i < 2 * cs.numBinaryVars ==>
      (Bit(r, i) <==> InConsensus(cs, PartsIn(cs, a), PartsIn(cs, b), i))
    ensures forall i :: i in cs.fullset && i >= 2 * cs.numBinaryVars && Bit(r, i) ==> Bit(a, i) && Bit(b, i)
  {
    var zero: Word := seq(BPI, _ => false);
    r := seq(|a|, _ => zero);
    var last := InWord(cs);
    if last != -1 {
      r := ConsensusWord(cs, r, a, b, last);
      for w := 1 to last
        invariant |r| == |a| && ConsensusWords(cs, a, b, r, w)
      {
        r := ConsensusWord(cs, r, a, b, w);
      }
    }
  }

  /** consensus */
  method ConsensusPacked(cs: Shape, a: seq<Word>, b: seq<Word>) returns (r: seq<Word>)
    requires BinaryFirst(cs) && Packed(cs, a) && Packed(cs, b) && |a| == |b|
    ensures |r| == |a| && PartsIn(cs, r) == ConsensusSet(cs, PartsIn(cs, a), PartsIn(cs, b))
  {
    r := ConsensusBinary(cs, a, b);
    forall i | i in cs.fullset ensures i < 2 * cs.numBinaryVars <==> cs.partVar[i] < cs.numBinaryVars {
      PartVariable(cs, i);
    }
    for v := cs.numBinaryVars to cs.numVars
      invariant |r| == |a|
      invariant forall i :: i in cs.fullset && cs.partVar[i] < v ==>
        (Bit(r, i) <==> InConsensus(cs, PartsIn(cs, a), PartsIn(cs, b), i))
      invariant forall i :: i in cs.fullset && cs.partVar[i] >= v && Bit(r, i) ==> Bit(a, i) && Bit(b, i)
    {
      r := ConsensusVariable(cs, r, a, b, v);
    }
  }
}
