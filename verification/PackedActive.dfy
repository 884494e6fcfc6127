/** setc.c: full_row, cactive and ccommon on packed words, two bits for a binary variable. */
module PackedActive {
  import opened Cubes
  import opened CubeSetup
  import opened PackedWords
  import opened Recursion
  import opened Partition
  import opened Irred
  import opened ReducePass

  // ---------- the words of the binary variables ----------

  /** The parts of P in word w are the bits of x. */
  ghost predicate WordOf(cs: Shape, x: Word, P: set<nat>, w: nat) {
    forall i :: i in cs.fullset && 1 + i / 32 == w ==> (x[i % 32] <==> i in P)
  }

  /** ~(x & x >> 1) & mask: a one for every binary variable in which x is not full. */
  function ActiveBits(x: Word, mask: Word): Word {
    And(Not(And(x, ShiftDown(x))), mask)
  }

  /** Binary variable v has its two bits in word w. */
  ghost predicate VarOfWord(cs: Shape, w: nat, v: nat) {
    16 * w <= v + 16 && v < 16 * w && v < cs.numBinaryVars
  }

  /** Variable v is active in the cube with parts P: some part is missing. */
  ghost predicate Active(cs: Shape, P: set<nat>, v: nat) {
    v < cs.numVars && !FullIn(cs, P, v)
  }

  lemma BinaryActive(cs: Shape, P: set<nat>, v: nat)
    requires BinaryFirst(cs) && v < cs.numBinaryVars
    ensures {2 * v, 2 * v + 1} <= cs.fullset && 2 * v + 1 < cs.size
    ensures Active(cs, P, v) <==> !(2 * v in P && 2 * v + 1 in P)
  {
    var f := 2 * v;
    assert cs.firstPart[v] == f && cs.lastPart[v] == f + 1 < cs.size;
    assert cs.varMask[v] == {f, f + 1};
  }

  /** Bit k of the word of active bits belongs to variable 16 (w - 1) + k / 2. */
  lemma ActiveBit(cs: Shape, x: Word, P: set<nat>, w: nat, k: nat)
    requires BinaryFirst(cs) && cs.numBinaryVars > 0 && 1 <= w <= InWord(cs) && k < BPI && WordOf(cs, x, P, w)
    ensures var v := 16 * (w - 1) + k / 2;
            ActiveBits(x, MaskFor(cs, w))[k] <==> k % 2 == 0 && v < cs.numBinaryVars && Active(cs, P, v)
  {
    var v := 16 * (w - 1) + k / 2;
    if k % 2 == 0 {
      assert MaskFor(cs, w)[k] <==> v < cs.numBinaryVars;
      if v < cs.numBinaryVars {
        BinaryActive(cs, P, v);
        assert (2 * v) / 32 == w - 1 && (2 * v) % 32 == k;
        assert (2 * v + 1) / 32 == w - 1 && (2 * v + 1) % 32 == k + 1;
      }
    }
  }

  /** The bit of variable v. */
  lemma VariableBit(cs: Shape, x: Word, P: set<nat>, w: nat, v: nat)
    requires BinaryFirst(cs) && cs.numBinaryVars > 0 && 1 <= w <= InWord(cs) && VarOfWord(cs, w, v) &&
      WordOf(cs, x, P, w)
    ensures var k := 2 * (v - 16 * (w - 1)); ActiveBits(x, MaskFor(cs, w))[k] <==> Active(cs, P, v)
  {
    ActiveBit(cs, x, P, w, 2 * (v - 16 * (w - 1)));
  }

  /** Every binary variable has a word. */
  lemma WordOfVariable(cs: Shape, v: nat)
    requires v < cs.numBinaryVars
    ensures VarOfWord(cs, 1 + v / 16, v) && 1 <= 1 + v / 16 <= InWord(cs)
  {
  }

  /** Words up to that of the last binary variable exist. */
  lemma WordExists(cs: Shape, a: seq<Word>, w: nat)
    requires BinaryFirst(cs) && Packed(cs, a) && cs.numBinaryVars > 0 && 1 <= w <= InWord(cs)
    ensures w < |a| && WordOf(cs, a[w], PartsIn(cs, a), w)
  {
    BinaryActive(cs, {}, cs.numBinaryVars - 1);
  }

  lemma OrWord(cs: Shape, a: seq<Word>, cof: seq<Word>, w: nat)
    requires Packed(cs, a) && Packed(cs, cof) && |a| == |cof| && 1 <= w < |a|
    ensures WordOf(cs, Or(a[w], cof[w]), PartsIn(cs, a) + PartsIn(cs, cof), w)
  {
  }

  // ---------- full_row ----------

  /** The words of cube.fullset. */
  function FullWord(cs: CubeStruct, w: nat): Word
    requires w >= 1
  {
    seq(BPI, k requires 0 <= k < BPI => 32 * (w - 1) + k < cs.size)
  }

  /** No bit is set beyond the last part. */
  ghost predicate Clean(cs: Shape, a: seq<Word>) {
    Packed(cs, a) && forall w, k :: 1 <= w < |a| && 0 <= k < BPI && a[w][k] ==> 32 * (w - 1) + k < cs.size
  }

  lemma FullWordEqual(cs: Shape, p: seq<Word>, cof: seq<Word>, w: nat)
    requires Clean(cs, p) && Clean(cs, cof) && |p| == |cof| && 1 <= w < |p|
    ensures Or(p[w], cof[w]) == FullWord(cs, w) <==>
            forall i :: i in cs.fullset && 1 + i / 32 == w ==> i in PartsIn(cs, p) + PartsIn(cs, cof)
  {
    var x, full := Or(p[w], cof[w]), FullWord(cs, w);
    OrWord(cs, p, cof, w);
    if x == full {
      forall i | i in cs.fullset && 1 + i / 32 == w ensures i in PartsIn(cs, p) + PartsIn(cs, cof) {
        assert full[i % 32];
      }
    }
    if forall i :: i in cs.fullset && 1 + i / 32 == w ==> i in PartsIn(cs, p) + PartsIn(cs, cof) {
      forall k | 0 <= k < BPI ensures x[k] == full[k] {
        var i := 32 * (w - 1) + k;
        assert i / 32 == w - 1 && i % 32 == k;
        assert i < cs.size <==> i in cs.fullset;
      }
    }
  }

  /** full_row */
  method FullRowPacked(cs: Shape, p: seq<Word>, cof: seq<Word>) returns (yes: bool)
    requires Clean(cs, p) && Clean(cs, cof) && |p| == |cof| >= 2
    ensures yes <==> FullRow(cs, PartsIn(cs, p), PartsIn(cs, cof))
  {
    for w := |p| downto 1
      invariant forall i :: i in cs.fullset && w <= 1 + i / 32 ==> i in PartsIn(cs, p) + PartsIn(cs, cof)
    {
      FullWordEqual(cs, p, cof, w);
      if Or(p[w], cof[w]) != FullWord(cs, w) {
        return false;
      }
    }
    yes := true;
  }

  // ---------- multiple-valued variables ----------

  /** mask[w] & ~a[w] & ~cof[w] */
  function MissingBits(a: Word, cof: Word, mask: Word): Word {
    And(And(mask, Not(a)), Not(cof))
  }

  /** The loop over the words of variable v: is some part in neither a nor cof? */
  method MissingPart(cs: Shape, a: seq<Word>, cof: seq<Word>, v: nat) returns (missing: bool)
    requires Packed(cs, a) && Packed(cs, cof) && |a| == |cof| && v < cs.numVars
    ensures missing <==> Active(cs, PartsIn(cs, a) + PartsIn(cs, cof), v)
  {
    ghost var P := PartsIn(cs, a) + PartsIn(cs, cof);
    var firstWord, lastWord := 1 + cs.firstPart[v] / 32, 1 + cs.lastPart[v] / 32;
    for w := firstWord to lastWord + 1
      invariant forall i :: i in cs.varMask[v] && 1 + i / 32 < w ==> i in P
    {
      var x := MissingBits(a[w], cof[w], MaskWord(cs, v, w));
      OrWord(cs, a, cof, w);
      if NonZero(x) {
        ghost var k :| 0 <= k < BPI && x[k];
        ghost var i := 32 * (w - 1) + k;
        assert i / 32 == w - 1 && i % 32 == k;
        assert i in cs.varMask[v] && i !in P;
        return true;
      }
      forall i | i in cs.varMask[v] && 1 + i / 32 == w ensures i in P {
        assert !x[i % 32];
      }
    }
    forall i | i in cs.varMask[v] ensures i in P {
      assert i / 32 <= cs.lastPart[v] / 32;
    }
    missing := false;
  }

  // ---------- ccommon ----------

  ghost predicate BothActive(cs: Shape, P: set<nat>, Q: set<nat>, v: nat) {
    Active(cs, P, v) && Active(cs, Q, v)
  }

  /** ~(x & x >> 1) & ~(y & y >> 1) & mask for word w. */
  method CommonInWord(cs: Shape, a: seq<Word>, b: seq<Word>, cof: seq<Word>, w: nat) returns (yes: bool)
    requires BinaryFirst(cs) && Packed(cs, a) && Packed(cs, b) && Packed(cs, cof) && |a| == |b| == |cof|
    requires cs.numBinaryVars > 0 && 1 <= w <= InWord(cs)
    ensures var P, Q := PartsIn(cs, a) + PartsIn(cs, cof), PartsIn(cs, b) + PartsIn(cs, cof);
            yes <==> exists v: nat :: VarOfWord(cs, w, v) && BothActive(cs, P, Q, v)
  {
    ghost var P, Q := PartsIn(cs, a) + PartsIn(cs, cof), PartsIn(cs, b) + PartsIn(cs, cof);
    WordExists(cs, a, w);
    OrWord(cs, a, cof, w);
    OrWord(cs, b, cof, w);
    var x, y := Or(a[w], cof[w]), Or(b[w], cof[w]);
    var both := And(And(Not(And(x, ShiftDown(x))), Not(And(y, ShiftDown(y)))), MaskFor(cs, w));
    yes := NonZero(both);
    CommonBits(cs, x, y, P, Q, w, both);
  }

  lemma CommonBits(cs: Shape, x: Word, y: Word, P: set<nat>, Q: set<nat>, w: nat, both: Word)
    requires BinaryFirst(cs) && cs.numBinaryVars > 0 && 1 <= w <= InWord(cs)
    requires WordOf(cs, x, P, w) && WordOf(cs, y, Q, w)
    requires forall k :: 0 <= k < BPI ==>
      (both[k] <==> ActiveBits(x, MaskFor(cs, w))[k] && ActiveBits(y, MaskFor(cs, w))[k])
    ensures NonZero(both) <==> exists v: nat :: VarOfWord(cs, w, v) && BothActive(cs, P, Q, v)
  {
    if NonZero(both) {
      var k :| 0 <= k < BPI && both[k];
      ActiveBit(cs, x, P, w, k);
      ActiveBit(cs, y, Q, w, k);
      assert VarOfWord(cs, w, 16 * (w - 1) + k / 2) && BothActive(cs, P, Q, 16 * (w - 1) + k / 2);
    }
    if v: nat :| VarOfWord(cs, w, v) && BothActive(cs, P, Q, v) {
      VariableBit(cs, x, P, w, v);
      VariableBit(cs, y, Q, w, v);
      assert both[2 * (v - 16 * (w - 1))];
    }
  }

  /** The binary part of ccommon. */
  method CommonBinary(cs: Shape, a: seq<Word>, b: seq<Word>, cof: seq<Word>) returns (yes: bool)
    requires BinaryFirst(cs) && Packed(cs, a) && Packed(cs, b) && Packed(cs, cof) && |a| == |b| == |cof|
    ensures var P, Q := PartsIn(cs, a) + PartsIn(cs, cof), PartsIn(cs, b) + PartsIn(cs, cof);
            yes <==> exists v: nat :: v < cs.numBinaryVars && BothActive(cs, P, Q, v)
  {
    ghost var P, Q := PartsIn(cs, a) + PartsIn(cs, cof), PartsIn(cs, b) + PartsIn(cs, cof);
    var last := InWord(cs);
    if last != -1 {
      yes := CommonInWord(cs, a, b, cof, last);
      if yes {
        return;
      }
      for w := 1 to last
        invariant forall u: nat, v: nat :: (1 <= u < w || u == last) && VarOfWord(cs, u, v) ==> !BothActive(cs, P, Q, v)
      {
        yes := CommonInWord(cs, a, b, cof, w);
        if yes {
          return;
        }
      }
      forall v: nat | v < cs.numBinaryVars ensures !BothActive(cs, P, Q, v) {
        WordOfVariable(cs, v);
      }
    }
    yes := false;
  }

  /** ccommon */
  method CCommonPacked(cs: Shape, a: seq<Word>, b: seq<Word>, cof: seq<Word>) returns (yes: bool)
    requires BinaryFirst(cs) && Packed(cs, a) && Packed(cs, b) && Packed(cs, cof) && |a| == |b| == |cof|
    ensures yes <==> CCommon(cs, PartsIn(cs, a), PartsIn(cs, b), PartsIn(cs, cof))
  {
    ghost var P, Q := PartsIn(cs, a) + PartsIn(cs, cof), PartsIn(cs, b) + PartsIn(cs, cof);
    CommonActive(cs, PartsIn(cs, a), PartsIn(cs, b), PartsIn(cs, cof));
    yes := CommonBinary(cs, a, b, cof);
    if yes {
      assert exists v: nat :: BothActive(cs, P, Q, v);
      return;
    }
    for v := cs.numBinaryVars to cs.numVars
      invariant forall u: nat :: u < v ==> !BothActive(cs, P, Q, u)
    {
      var missing := MissingPart(cs, a, cof, v);
      if missing {
        missing := MissingPart(cs, b, cof, v);
        if missing {
          return true;
        }
      }
    }
    yes := false;
  }

  lemma CommonActive(cs: Shape, a: set<nat>, b: set<nat>, cof: set<nat>)
    ensures CCommon(cs, a, b, cof) <==> exists v: nat :: BothActive(cs, a + cof, b + cof, v)
  {
    if CCommon(cs, a, b, cof) {
      var v :| 0 <= v < cs.numVars && !(cs.varMask[v] <= a + cof) && !(cs.varMask[v] <= b + cof);
      assert BothActive(cs, a + cof, b + cof, v);
    }
  }

  // ---------- cactive ----------

  ghost predicate TwoActive(cs: Shape, P: set<nat>) {
    exists u: nat, v: nat :: u < v && Active(cs, P, u) && Active(cs, P, v)
  }

  /** Two different ones. */
  lemma {:induction false} TwoOnes(x: Word, n: nat)
    requires n <= BPI && Ones(x, n) >= 2
    ensures exists i, j :: 0 <= i < j < n && x[i] && x[j]
  {
    if Ones(x, n - 1) >= 2 {
      TwoOnes(x, n - 1);
    } else {
      SomeOnes(x, n - 1);
    }
  }

  lemma {:induction false} OneOne(x: Word, n: nat, i: nat, j: nat)
    requires n <= BPI && Ones(x, n) <= 1 && i < n && j < n && x[i] && x[j]
    ensures i == j
  {
    if i < n - 1 && j < n - 1 {
      OneOne(x, n - 1, i, j);
    } else {
      SomeOnes(x, n - 1);
    }
  }

  /** bit_index: the lowest one. */
  method BitIndex(x: Word) returns (i: nat)
    requires NonZero(x)
    ensures i < BPI && x[i] && forall k :: 0 <= k < i ==> !x[k]
  {
    i := 0;
    while !x[i]
      invariant i < BPI && forall k :: 0 <= k < i ==> !x[k]
      decreases BPI - i
    {
      assert i + 1 < BPI by {
        var k :| 0 <= k < BPI && x[k];
      }
      i := i + 1;
    }
  }

  /** The active variables of one word: their number, and the last computed index. */
  method ActiveInWord(cs: Shape, a: seq<Word>, w: nat) returns (n: nat, active: int)
    requires BinaryFirst(cs) && Packed(cs, a) && cs.numBinaryVars > 0 && 1 <= w <= InWord(cs)
    ensures n == 0 ==> forall v: nat :: VarOfWord(cs, w, v) ==> !Active(cs, PartsIn(cs, a), v)
    ensures n == 1 ==> active >= 0 && VarOfWord(cs, w, active) && Active(cs, PartsIn(cs, a), active)
    ensures n == 1 ==> forall v: nat :: VarOfWord(cs, w, v) && Active(cs, PartsIn(cs, a), v) ==> v == active
    ensures n > 1 ==> TwoActive(cs, PartsIn(cs, a))
  {
    WordExists(cs, a, w);
    var x := ActiveBits(a[w], MaskFor(cs, w));
    n, active := 0, -1;
    SomeOnes(x, BPI);
    if NonZero(x) {
      n := Ones(x, BPI);
      var k := BitIndex(x);
      active := (w - 1) * (BPI / 2) + k / 2;
      ActiveBit(cs, a[w], PartsIn(cs, a), w, k);
      if n > 1 {
        TwoBits(cs, a[w], PartsIn(cs, a), w);
      } else {
        OneBit(cs, a[w], PartsIn(cs, a), w, k);
      }
    } else {
      NoBit(cs, a[w], PartsIn(cs, a), w);
    }
  }

  lemma NoBit(cs: Shape, x: Word, P: set<nat>, w: nat)
    requires BinaryFirst(cs) && cs.numBinaryVars > 0 && 1 <= w <= InWord(cs) && WordOf(cs, x, P, w)
    requires !NonZero(ActiveBits(x, MaskFor(cs, w)))
    ensures forall v: nat :: VarOfWord(cs, w, v) ==> !Active(cs, P, v)
  {
    forall v: nat | VarOfWord(cs, w, v) ensures !Active(cs, P, v) {
      VariableBit(cs, x, P, w, v);
    }
  }

  lemma OneBit(cs: Shape, x: Word, P: set<nat>, w: nat, k: nat)
    requires BinaryFirst(cs) && cs.numBinaryVars > 0 && 1 <= w <= InWord(cs) && WordOf(cs, x, P, w)
    requires var bits := ActiveBits(x, MaskFor(cs, w)); k < BPI && bits[k] && Ones(bits, BPI) <= 1
    ensures forall v: nat :: VarOfWord(cs, w, v) && Active(cs, P, v) ==> v == 16 * (w - 1) + k / 2
  {
    forall v: nat | VarOfWord(cs, w, v) && Active(cs, P, v) ensures v == 16 * (w - 1) + k / 2 {
      VariableBit(cs, x, P, w, v);
      OneOne(ActiveBits(x, MaskFor(cs, w)), BPI, k, 2 * (v - 16 * (w - 1)));
    }
  }

  lemma TwoBits(cs: Shape, x: Word, P: set<nat>, w: nat)
    requires BinaryFirst(cs) && cs.numBinaryVars > 0 && 1 <= w <= InWord(cs) && WordOf(cs, x, P, w)
    requires Ones(ActiveBits(x, MaskFor(cs, w)), BPI) >= 2
    ensures TwoActive(cs, P)
  {
    var bits := ActiveBits(x, MaskFor(cs, w));
    TwoOnes(bits, BPI);
    var i, j :| 0 <= i < j < BPI && bits[i] && bits[j];
    ActiveBit(cs, x, P, w, i);
    ActiveBit(cs, x, P, w, j);
    assert 16 * (w - 1) + i / 2 < 16 * (w - 1) + j / 2;
  }

  /** active is the only active variable among those in `seen`, or -1 if there is none. */
  ghost predicate OnlyOf(cs: Shape, P: set<nat>, seen: set<nat>, active: int) {
    && (active == -1 || (active >= 0 && active in seen && Active(cs, P, active)))
    && forall v: nat :: v in seen && Active(cs, P, v) ==> v == active
  }

  /** The variables of the words handled so far: the last one, and those before w. */
  ghost function HandledVars(cs: Shape, w: nat): set<nat> {
    set v | v in Range(0, cs.numBinaryVars) && (16 * (InWord(cs) - 1) <= v || v + 16 < 16 * w)
  }

  /** One more word: what was found in it is combined with what had been found. */
  lemma Combined(cs: Shape, P: set<nat>, seen: set<nat>, seen': set<nat>, w: nat, was: int, n: nat, active: int)
    requires OnlyOf(cs, P, seen, was) && forall v: nat :: v in seen' <==> v in seen || VarOfWord(cs, w, v)
    requires n == 0 ==> forall v: nat :: VarOfWord(cs, w, v) ==> !Active(cs, P, v)
    requires n == 1 ==> active >= 0 && VarOfWord(cs, w, active) && Active(cs, P, active)
    requires n == 1 ==> forall v: nat :: VarOfWord(cs, w, v) && Active(cs, P, v) ==> v == active
    ensures n == 0 ==> OnlyOf(cs, P, seen', was)
    ensures n == 1 && was == -1 ==> OnlyOf(cs, P, seen', active)
    ensures n == 1 && was != -1 && !VarOfWord(cs, w, was) ==> TwoActive(cs, P)
  {
    if n == 1 && was != -1 && !VarOfWord(cs, w, was) {
      assert was < active || active < was;
    }
  }

  /** The binary part of cactive; many says that two variables are active. */
  method ActiveBinary(cs: Shape, a: seq<Word>) returns (many: bool, active: int)
    requires BinaryFirst(cs) && Packed(cs, a)
    ensures many ==> TwoActive(cs, PartsIn(cs, a))
    ensures !many ==> OnlyOf(cs, PartsIn(cs, a), Range(0, cs.numBinaryVars), active)
  {
    ghost var P := PartsIn(cs, a);
    many, active := false, -1;
    var last := InWord(cs);
    if last != -1 {
      var dist, found := ActiveInWord(cs, a, last);
      Combined(cs, P, {}, HandledVars(cs, 1), last, -1, dist, found);
      if dist > 1 {
        return true, -1;
      } else if dist == 1 {
        active := found;
      }
      for w := 1 to last
        invariant dist <= 1 && (dist == 0 <==> active == -1)
        invariant OnlyOf(cs, P, HandledVars(cs, w), active)
      {
        var n;
        n, found := ActiveInWord(cs, a, w);
        Combined(cs, P, HandledVars(cs, w), HandledVars(cs, w + 1), w, active, n, found);
        if n > 0 {
          dist := dist + n;
          if dist > 1 {
            return true, -1;
          }
          active := found;
        }
      }
      assert HandledVars(cs, last) == Range(0, cs.numBinaryVars);
    }
  }

  lemma ManyActiveVariables(cs: Shape, P: set<nat>)
    requires TwoActive(cs, P)
    ensures forall v :: !ActiveOnlyIn(cs, P, v)
  {
    var x: nat, y: nat :| x < y && Active(cs, P, x) && Active(cs, P, y);
    forall v ensures !ActiveOnlyIn(cs, P, v) {
      assert !FullIn(cs, P, x) && !FullIn(cs, P, y);
    }
  }

  /** cactive -- the only active variable, or -1 if there are none or several. */
  method CactivePacked(cs: Shape, a: seq<Word>) returns (active: int)
    requires BinaryFirst(cs) && Packed(cs, a)
    ensures -1 <= active < cs.numVars
    ensures active >= 0 ==> ActiveOnlyIn(cs, PartsIn(cs, a), active)
    ensures active < 0 ==> forall v :: !ActiveOnlyIn(cs, PartsIn(cs, a), v)
  {
    ghost var P := PartsIn(cs, a);
    var many;
    many, active := ActiveBinary(cs, a);
    if many {
      ManyActiveVariables(cs, P);
      return -1;
    }
    // there is no cofactor here
    var zero := seq(|a|, i => seq(BPI, _ => false));
    assert PartsIn(cs, zero) == {} && P + {} == P;
    for v := cs.numBinaryVars to cs.numVars
      invariant OnlyOf(cs, P, Range(0, v), active)
    {
      var missing := MissingPart(cs, a, zero, v);
      if missing {
        if active != -1 {
          assert active < v && Active(cs, P, active) && Active(cs, P, v);
          ManyActiveVariables(cs, P);
          return -1;
        }
        active := v;
      }
    }
    AllSeen(cs, P, active);
  }

  lemma AllSeen(cs: Shape, P: set<nat>, active: int)
    requires OnlyOf(cs, P, Range(0, cs.numVars), active)
    ensures active >= 0 ==> ActiveOnlyIn(cs, P, active)
    ensures active < 0 ==> forall v :: !ActiveOnlyIn(cs, P, v)
  {
    forall v | 0 <= v < cs.numVars && v != active ensures FullIn(cs, P, v) {
      assert v in Range(0, cs.numVars);
    }
  }
}
