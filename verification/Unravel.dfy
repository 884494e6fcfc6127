/** cvrm.c: unravelling multiple-valued variables; sminterf.c: the column cover of a set family. */
module Unravel {
  import opened Cubes
  import opened Cofactor
  import opened Recursion
  import opened SortedLists
  import opened SparseMatrix
  import opened Covering
  import opened Mincov

  // ---------- products, quotients and remainders, by repeated addition and subtraction ----------

  ghost function Times(a: nat, b: nat): nat {
    if a == 0 then 0 else b + Times(a - 1, b)
  }

  ghost function Quo(r: nat, p: nat): nat
    requires p > 0
  {
    if r < p then 0 else 1 + Quo(r - p, p)
  }

  ghost function Rem(r: nat, p: nat): (m: nat)
    requires p > 0
    ensures m < p
  {
    if r < p then r else Rem(r - p, p)
  }

  lemma {:induction false} TimesIsProduct(a: nat, b: nat)
    ensures Times(a, b) == a * b
  {
    if a > 0 {
      TimesIsProduct(a - 1, b);
    }
  }

  lemma {:induction false} TimesAdd(m: nat, x: nat, a: nat)
    ensures Times(m + x, a) == Times(m, a) + Times(x, a)
  {
    if m > 0 {
      TimesAdd(m - 1, x, a);
    }
  }

  lemma {:induction false} TimesAssoc(q: nat, k: nat, a: nat)
    ensures Times(Times(q, k), a) == Times(q, Times(k, a))
  {
    if q > 0 {
      TimesAssoc(q - 1, k, a);
      TimesAdd(k, Times(q - 1, k), a);
    }
  }

  lemma TimesMonotone(a: nat, b: nat, c: nat)
    requires a <= b
    ensures Times(a, c) <= Times(b, c)
  {
    TimesAdd(a, b - a, c);
  }

  lemma {:induction false} QuoRemUnique(q: nat, p: nat, s: nat)
    requires s < p
    ensures Quo(Times(q, p) + s, p) == q && Rem(Times(q, p) + s, p) == s
  {
    if q > 0 {
      QuoRemUnique(q - 1, p, s);
    }
  }

  lemma {:induction false} QuoRem(r: nat, p: nat)
    requires p > 0
    ensures r == Times(Quo(r, p), p) + Rem(r, p)
  {
    if r >= p {
      QuoRem(r - p, p);
    }
  }

  /** Taking the remainder by a multiple of a first changes nothing. */
  lemma RemRem(r: nat, k: nat, a: nat)
    requires a > 0 && Times(k, a) > 0
    ensures Rem(Rem(r, Times(k, a)), a) == Rem(r, a)
  {
    var b := Times(k, a);
    var q, s := Quo(r, b), Rem(r, b);
    QuoRem(r, b);
    QuoRem(s, a);
    TimesAssoc(q, k, a);
    TimesAdd(Times(q, k), Quo(s, a), a);
    QuoRemUnique(Times(q, k) + Quo(s, a), a, Rem(s, a));
  }

  lemma QuoBound(s: nat, q: nat, f: nat)
    requires q > 0 && s < Times(f, q)
    ensures Quo(s, q) < f
  {
    QuoRem(s, q);
    if Quo(s, q) >= f {
      TimesMonotone(f, Quo(s, q), q);
    }
  }

  /** The leading digit of d * q + s. */
  lemma LeadingDigit(r: nat, f: nat, q: nat, d: nat, s: nat)
    requires d < f && s < q && r == Times(d, q) + s
    ensures r < Times(f, q) && Quo(r, q) == d && Rem(r, q) == s && Rem(r, Times(f, q)) == r
  {
    TimesMonotone(d + 1, f, q);
    QuoRemUnique(d, q, s);
  }

  // ---------- the parts of a variable ----------

  /** The parts lo..i-1 of c, in order. */
  ghost function PartsBelow(c: set<nat>, lo: nat, i: nat): seq<nat>
    requires lo <= i
  {
    if i == lo then [] else PartsBelow(c, lo, i - 1) + if i - 1 in c then [i - 1] else []
  }

  ghost function PartsOf(cs: Shape, c: set<nat>, v: nat): seq<nat>
    requires v < cs.numVars
  {
    PartsBelow(c, cs.firstPart[v], cs.lastPart[v] + 1)
  }

  lemma {:induction false} PartsBelowSet(c: set<nat>, lo: nat, i: nat, s: set<nat>)
    requires lo <= i && forall x :: x in s <==> lo <= x < i && x in c
    ensures |PartsBelow(c, lo, i)| == |s| && forall x :: x in PartsBelow(c, lo, i) <==> x in s
  {
    if i == lo {
      assert s == {};
    } else {
      PartsBelowSet(c, lo, i - 1, s - {i - 1});
      assert i - 1 in s ==> s == s - {i - 1} + {i - 1};
      assert i - 1 !in s ==> s == s - {i - 1};
    }
  }

  lemma PartsOfSet(cs: Shape, c: set<nat>, v: nat)
    requires v < cs.numVars
    ensures |PartsOf(cs, c, v)| == |c * cs.varMask[v]|
    ensures forall x :: x in PartsOf(cs, c, v) <==> x in c && x in cs.varMask[v]
  {
    PartsBelowSet(c, cs.firstPart[v], cs.lastPart[v] + 1, c * cs.varMask[v]);
  }

  /** A variable that is unravelled: c has at least two parts of it. */
  predicate Expanded(cs: Shape, c: set<nat>, v: nat)
    requires v < cs.numVars
  {
    |c * cs.varMask[v]| >= 2
  }

  function Factor(cs: Shape, c: set<nat>, v: nat): (f: nat)
    requires v < cs.numVars
    ensures f >= 1
  {
    if Expanded(cs, c, v) then |c * cs.varMask[v]| else 1
  }

  /** How many choices of one part per unravelled variable from v on there are. */
  ghost function Product(cs: Shape, c: set<nat>, v: nat): (p: nat)
    requires v <= cs.numVars
    ensures p >= 1
    decreases cs.numVars - v
  {
    if v == cs.numVars then 1 else
      TimesMonotone(1, Factor(cs, c, v), Product(cs, c, v + 1));
      Times(Factor(cs, c, v), Product(cs, c, v + 1))
  }

  lemma ProductUnfold(cs: Shape, c: set<nat>, v: nat)
    requires v < cs.numVars
    ensures Product(cs, c, v) == Times(Factor(cs, c, v), Product(cs, c, v + 1))
    ensures !Expanded(cs, c, v) ==> Factor(cs, c, v) == 1 && Product(cs, c, v) == Product(cs, c, v + 1)
  {
    TimesIsProduct(1, Product(cs, c, v + 1));
  }

  /** The part of variable v in choice number r. */
  ghost function Picked(cs: Shape, c: set<nat>, v: nat, r: nat): (i: nat)
    requires v < cs.numVars && Expanded(cs, c, v)
  {
    DigitInRange(cs, c, v, r);
    PartsOf(cs, c, v)[Quo(Rem(r, Product(cs, c, v)), Product(cs, c, v + 1))]
  }

  lemma DigitInRange(cs: Shape, c: set<nat>, v: nat, r: nat)
    requires v < cs.numVars && Expanded(cs, c, v)
    ensures Quo(Rem(r, Product(cs, c, v)), Product(cs, c, v + 1)) < |PartsOf(cs, c, v)|
  {
    PartsOfSet(cs, c, v);
    QuoBound(Rem(r, Product(cs, c, v)), Product(cs, c, v + 1), Factor(cs, c, v));
  }

  /** One part of every unravelled variable. */
  ghost predicate Choice(cs: Shape, c: set<nat>, ch: seq<nat>) {
    |ch| == cs.numVars && forall v :: 0 <= v < cs.numVars && Expanded(cs, c, v) ==> ch[v] in c && ch[v] in cs.varMask[v]
  }

  /** Number r makes choice ch from variable v on. */
  ghost predicate Makes(cs: Shape, c: set<nat>, ch: seq<nat>, v: nat, r: nat)
    requires |ch| == cs.numVars
  {
    forall u :: v <= u < cs.numVars && Expanded(cs, c, u) ==> Picked(cs, c, u, r) == ch[u]
  }

  ghost predicate MultipleOf(p: nat, q: nat) {
    exists k: nat :: p == Times(k, q)
  }

  lemma MultipleSelf(p: nat)
    ensures MultipleOf(p, p)
  {
    assert p == Times(1, p);
  }

  lemma MultipleTimes(f: nat, p: nat, q: nat)
    requires MultipleOf(p, q)
    ensures MultipleOf(Times(f, p), q)
  {
    var k: nat :| p == Times(k, q);
    TimesAssoc(f, k, q);
  }

  /** The product from v on is a multiple of the product from u on. */
  lemma {:induction false} ProductMultiple(cs: Shape, c: set<nat>, v: nat, u: nat)
    requires v <= u <= cs.numVars
    ensures MultipleOf(Product(cs, c, v), Product(cs, c, u))
    decreases u - v
  {
    hide MultipleOf, Product;
    if v == u {
      MultipleSelf(Product(cs, c, u));
    } else {
      ProductMultiple(cs, c, v + 1, u);
      ProductStepMultiple(cs, c, v, Product(cs, c, u));
    }
  }

  lemma ProductStepMultiple(cs: Shape, c: set<nat>, v: nat, q: nat)
    requires v < cs.numVars && MultipleOf(Product(cs, c, v + 1), q)
    ensures MultipleOf(Product(cs, c, v), q)
  {
    MultipleTimes(Factor(cs, c, v), Product(cs, c, v + 1), q);
  }

  /** Later parts of a choice only depend on the remainder. */
  lemma PickedRemainder(cs: Shape, c: set<nat>, v: nat, u: nat, r: nat)
    requires v <= u < cs.numVars && Expanded(cs, c, u)
    ensures Picked(cs, c, u, r) == Picked(cs, c, u, Rem(r, Product(cs, c, v)))
  {
    ProductMultiple(cs, c, v, u);
    var k: nat :| Product(cs, c, v) == Times(k, Product(cs, c, u));
    RemRem(r, k, Product(cs, c, u));
  }

  /** Every choice has a number. */
  lemma {:induction false} ChoiceNumber(cs: Shape, c: set<nat>, ch: seq<nat>, v: nat) returns (r: nat)
    requires v <= cs.numVars && Choice(cs, c, ch)
    ensures r < Product(cs, c, v) && Makes(cs, c, ch, v, r)
    decreases cs.numVars - v
  {
    hide Expanded, Picked, Product;
    if v == cs.numVars {
      r := 0;
    } else {
      var s := ChoiceNumber(cs, c, ch, v + 1);
      r := PrependDigit(cs, c, ch, v, s);
      PrependMakes(cs, c, ch, v, r, s);
    }
  }

  lemma PrependMakes(cs: Shape, c: set<nat>, ch: seq<nat>, v: nat, r: nat, s: nat)
    requires v < cs.numVars && |ch| == cs.numVars && Makes(cs, c, ch, v + 1, s) && Rem(r, Product(cs, c, v + 1)) == s
    requires Expanded(cs, c, v) ==> Picked(cs, c, v, r) == ch[v]
    ensures Makes(cs, c, ch, v, r)
  {
    hide Expanded, Product, Rem;
    forall u | v + 1 <= u < cs.numVars && Expanded(cs, c, u) ensures Picked(cs, c, u, r) == ch[u] {
      PickedRemainder(cs, c, v + 1, u, r);
      assert Picked(cs, c, u, s) == ch[u];
    }
  }

  lemma PrependDigit(cs: Shape, c: set<nat>, ch: seq<nat>, v: nat, s: nat) returns (r: nat)
    requires v < cs.numVars && Choice(cs, c, ch) && s < Product(cs, c, v + 1)
    ensures r < Product(cs, c, v) && Rem(r, Product(cs, c, v + 1)) == s
    ensures Expanded(cs, c, v) ==> Picked(cs, c, v, r) == ch[v]
  {
    var q, f := Product(cs, c, v + 1), Factor(cs, c, v);
    if Expanded(cs, c, v) {
      PartsOfSet(cs, c, v);
      var parts := PartsOf(cs, c, v);
      assert ch[v] in parts;
      var d: nat :| d < |parts| && parts[d] == ch[v];
      r := Times(d, q) + s;
      LeadingDigit(r, f, q, d, s);
    } else {
      r := s;
      LeadingDigit(r, f, q, 0, s);
    }
  }

  /** Parts are listed once. */
  lemma {:induction false} PartsIncrease(c: set<nat>, lo: nat, i: nat)
    requires lo <= i
    ensures Sorted(PartsBelow(c, lo, i)) && forall x :: x in PartsBelow(c, lo, i) ==> x < i
  {
    if i != lo {
      PartsIncrease(c, lo, i - 1);
      var p := PartsBelow(c, lo, i - 1);
      assert forall k :: 0 <= k < |p| ==> p[k] in p;
    }
  }

  /** Different numbers below the product make different choices. */
  lemma {:induction false} ChoiceUnique(cs: Shape, c: set<nat>, ch: seq<nat>, v: nat, r: nat, s: nat)
    requires v <= cs.numVars && |ch| == cs.numVars && Makes(cs, c, ch, v, r) && Makes(cs, c, ch, v, s)
    requires r < Product(cs, c, v) && s < Product(cs, c, v)
    ensures r == s
    decreases cs.numVars - v
  {
    hide Expanded, Makes, Picked;
    if v < cs.numVars {
      var q := Product(cs, c, v + 1);
      TailMakes(cs, c, ch, v, r);
      TailMakes(cs, c, ch, v, s);
      ChoiceUnique(cs, c, ch, v + 1, Rem(r, q), Rem(s, q));
      SameDigit(cs, c, ch, v, r, s);
    }
  }

  lemma TailMakes(cs: Shape, c: set<nat>, ch: seq<nat>, v: nat, r: nat)
    requires v < cs.numVars && |ch| == cs.numVars && Makes(cs, c, ch, v, r)
    ensures Makes(cs, c, ch, v + 1, Rem(r, Product(cs, c, v + 1)))
  {
    var s := Rem(r, Product(cs, c, v + 1));
    forall u | v + 1 <= u < cs.numVars && Expanded(cs, c, u) ensures Picked(cs, c, u, s) == ch[u] {
      TailPick(cs, c, ch, v, r, s, u);
    }
  }

  lemma TailPick(cs: Shape, c: set<nat>, ch: seq<nat>, v: nat, r: nat, s: nat, u: nat)
    requires v < u < cs.numVars && Expanded(cs, c, u) && |ch| == cs.numVars && Makes(cs, c, ch, v, r)
    requires s == Rem(r, Product(cs, c, v + 1))
    ensures Picked(cs, c, u, s) == ch[u]
  {
    PickedRemainder(cs, c, v + 1, u, r);
  }

  lemma SameDigit(cs: Shape, c: set<nat>, ch: seq<nat>, v: nat, r: nat, s: nat)
    requires v < cs.numVars && |ch| == cs.numVars && Makes(cs, c, ch, v, r) && Makes(cs, c, ch, v, s)
    requires r < Product(cs, c, v) && s < Product(cs, c, v)
    requires Rem(r, Product(cs, c, v + 1)) == Rem(s, Product(cs, c, v + 1))
    ensures r == s
  {
    var q := Product(cs, c, v + 1);
    QuoRem(r, q);
    QuoRem(s, q);
    if Expanded(cs, c, v) {
      DigitInRange(cs, c, v, r);
      DigitInRange(cs, c, v, s);
      assert Picked(cs, c, v, r) == ch[v] == Picked(cs, c, v, s);
      PartsDistinct(cs, c, v, Quo(r, q), Quo(s, q));
    } else {
      assert Times(1, q) == q;
    }
  }

  lemma PartsDistinct(cs: Shape, c: set<nat>, v: nat, i: nat, j: nat)
    requires v < cs.numVars && i < |PartsOf(cs, c, v)| && j < |PartsOf(cs, c, v)|
    requires PartsOf(cs, c, v)[i] == PartsOf(cs, c, v)[j]
    ensures i == j
  {
    PartsIncrease(c, cs.firstPart[v], cs.lastPart[v] + 1);
  }

  // ---------- cb_unravel ----------

  /** Part x of row r once the variables start..bound-1 are done: parts of other variables, and the choice made. */
  ghost predicate InRow(cs: Shape, c: set<nat>, start: nat, bound: nat, r: nat, x: nat)
    requires x in cs.fullset
  {
    var u := cs.partVar[x];
    u < start || !Expanded(cs, c, u) || (u < bound && Picked(cs, c, u, r) == x)
  }

  ghost function Row(cs: Shape, c: set<nat>, start: nat, bound: nat, r: nat): set<nat> {
    set x | x in cs.fullset && x in c && InRow(cs, c, start, bound, r, x)
  }

  lemma PickedMember(cs: Shape, c: set<nat>, v: nat, r: nat)
    requires v < cs.numVars && Expanded(cs, c, v)
    ensures Picked(cs, c, v, r) in c && Picked(cs, c, v, r) in cs.varMask[v]
  {
    PartsOfSet(cs, c, v);
    DigitInRange(cs, c, v, r);
    assert Picked(cs, c, v, r) in PartsOf(cs, c, v);
  }

  lemma RowNext(cs: Shape, c: set<nat>, start: nat, v: nat, r: nat)
    requires start <= v < cs.numVars
    ensures Row(cs, c, start, v + 1, r) ==
            Row(cs, c, start, v, r) + if Expanded(cs, c, v) then {Picked(cs, c, v, r)} else {}
  {
    if Expanded(cs, c, v) {
      PickedMember(cs, c, v, r);
    }
    forall x | x in cs.fullset && x in c
      ensures InRow(cs, c, start, v + 1, r, x) <==>
              InRow(cs, c, start, v, r, x) || (Expanded(cs, c, v) && Picked(cs, c, v, r) == x)
    {
      assert x in cs.varMask[cs.partVar[x]];
    }
  }

  /** The parts of c below a part i of variable v come before i in PartsOf. */
  lemma {:induction false} PartAt(c: set<nat>, lo: nat, i: nat, hi: nat)
    requires lo <= i < hi && i in c
    ensures |PartsBelow(c, lo, i)| < |PartsBelow(c, lo, hi)|
    ensures PartsBelow(c, lo, hi)[|PartsBelow(c, lo, i)|] == i
  {
    if hi > i + 1 {
      PartAt(c, lo, i, hi - 1);
    }
  }

  /** Within block t of skip rows, quotient idx covers place rows from idx * place on. */
  lemma BlockDigit(r: nat, t: nat, skip: nat, place: nat, f: nat, idx: nat)
    requires place > 0 && skip == Times(f, place) && idx < f && Times(t, skip) <= r < Times(t + 1, skip)
    ensures var j := Times(t, skip) + Times(idx, place);
            Quo(Rem(r, skip), place) == idx <==> j <= r < j + place
    ensures Times(idx, place) + place <= skip
  {
    TimesAdd(t, 1, skip);
    assert Times(1, skip) == skip;
    var s: nat := r - Times(t, skip);
    QuoRemUnique(t, skip, s);
    QuoRem(s, place);
    TimesMonotone(idx + 1, f, place);
    TimesAdd(idx, 1, place);
    assert Times(1, place) == place;
    if Times(idx, place) <= s < Times(idx, place) + place {
      QuoRemUnique(idx, place, s - Times(idx, place));
    }
  }

  /** Which rows of block t pick part i. */
  lemma BlockPicks(cs: Shape, c: set<nat>, v: nat, i: nat, t: nat, r: nat)
    requires v < cs.numVars && Expanded(cs, c, v) && i in c && i in cs.varMask[v]
    requires Times(t, Product(cs, c, v)) <= r < Times(t + 1, Product(cs, c, v))
    ensures var idx, place := |PartsBelow(c, cs.firstPart[v], i)|, Product(cs, c, v + 1);
            var j := Times(t, Product(cs, c, v)) + Times(idx, place);
            Picked(cs, c, v, r) == i <==> j <= r < j + place
  {
    var first, hi := cs.firstPart[v], cs.lastPart[v] + 1;
    var idx := |PartsBelow(c, first, i)|;
    PartAt(c, first, i, hi);
    PartsOfSet(cs, c, v);
    BlockDigit(r, t, Product(cs, c, v), Product(cs, c, v + 1), Factor(cs, c, v), idx);
    DigitInRange(cs, c, v, r);
    if Picked(cs, c, v, r) == i {
      PartsDistinct(cs, c, v, idx, Quo(Rem(r, Product(cs, c, v)), Product(cs, c, v + 1)));
    }
  }

  /** The k loop: insert i into place rows from j on. */
  method InsertBlock(rows: seq<set<nat>>, j: nat, place: nat, i: nat) returns (r: seq<set<nat>>)
    requires j + place <= |rows|
    ensures |r| == |rows|
    ensures forall x :: 0 <= x < |rows| ==> r[x] == rows[x] + if j <= x < j + place then {i} else {}
  {
    r := rows;
    for k := 0 to place
      invariant |r| == |rows|
      invariant forall x :: 0 <= x < |rows| ==> r[x] == rows[x] + if j <= x < j + k then {i} else {}
    {
      r := r[j + k := r[j + k] + {i}];
    }
  }

  /** Row x with part i inserted if it is the one picked. */
  ghost function WithPart(cs: Shape, c: set<nat>, v: nat, i: nat, x: nat, row: set<nat>): set<nat>
    requires v < cs.numVars && Expanded(cs, c, v)
  {
    row + if Picked(cs, c, v, x) == i then {i} else {}
  }

  lemma BlockRange(total: nat, m: nat, skip: nat, t: nat, n: nat, place: nat)
    requires total == Times(m, skip) && n + place <= skip && place > 0
    ensures Times(t, skip) + n < total <==> t < m
    ensures t < m ==>
      Times(t + 1, skip) <= total && Times(t, skip) + n + place <= Times(t + 1, skip) == Times(t, skip) + skip
  {
    TimesAdd(t, 1, skip);
    assert Times(1, skip) == skip;
    if t < m {
      TimesMonotone(t + 1, m, skip);
    } else {
      TimesMonotone(m, t, skip);
    }
  }

  /** The j loop for part i of variable v; n is i's offset in a block. */
  method InsertPart(cs: Shape, ghost c: set<nat>, ghost v: nat, rows: seq<set<nat>>, i: nat, n: nat, skip: nat,
                    place: nat)
    returns (r: seq<set<nat>>)
    requires v < cs.numVars && Expanded(cs, c, v) && i in c && i in cs.varMask[v]
    requires skip == Product(cs, c, v) && place == Product(cs, c, v + 1) && MultipleOf(|rows|, skip)
    requires n == Times(|PartsBelow(c, cs.firstPart[v], i)|, place)
    ensures |r| == |rows| && forall x: nat :: x < |rows| ==> r[x] == WithPart(cs, c, v, i, x, rows[x])
  {
    hide Inserted, Product;
    r := rows;
    ghost var m: nat :| |rows| == Times(m, skip);
    OffsetInBlock(cs, c, v, i, n, skip, place);
    var j := n;
    ghost var t: nat := 0;
    NoneInserted(cs, c, v, i, rows);
    BlockRange(|rows|, m, skip, 0, n, place);
    while j < |rows|
      invariant |r| == |rows| && t <= m && j == Times(t, skip) + n
      invariant j < |rows| <==> t < m
      invariant Inserted(cs, c, v, i, rows, Times(t, skip), r)
      decreases m - t
    {
      BlockRange(|rows|, m, skip, t, n, place);
      BlockRange(|rows|, m, skip, t + 1, n, place);
      ghost var before := r;
      r := InsertBlock(r, j, place, i);
      InsertedBlock(cs, c, v, i, rows, t, skip, place, j, before, r);
      j := j + skip;
      t := t + 1;
    }
    AllInserted(cs, c, v, i, rows, m, t, skip, n, place, r);
  }

  /** Part i is in the first b rows that pick it. */
  ghost predicate Inserted(cs: Shape, c: set<nat>, v: nat, i: nat, rows: seq<set<nat>>, b: nat, r: seq<set<nat>>)
    requires v < cs.numVars && Expanded(cs, c, v)
  {
    && |r| == |rows|
    && forall x: nat :: x < |rows| ==> r[x] == if x < b then WithPart(cs, c, v, i, x, rows[x]) else rows[x]
  }

  lemma OffsetInBlock(cs: Shape, c: set<nat>, v: nat, i: nat, n: nat, skip: nat, place: nat)
    requires v < cs.numVars && Expanded(cs, c, v) && i in c && i in cs.varMask[v]
    requires skip == Product(cs, c, v) && place == Product(cs, c, v + 1)
    requires n == Times(|PartsBelow(c, cs.firstPart[v], i)|, place)
    ensures n + place <= skip && place > 0
  {
    PartAt(c, cs.firstPart[v], i, cs.lastPart[v] + 1);
    PartsOfSet(cs, c, v);
    assert Times(1, skip) == skip by {
      TimesIsProduct(1, skip);
    }
    BlockDigit(0, 0, skip, place, Factor(cs, c, v), |PartsBelow(c, cs.firstPart[v], i)|);
  }

  lemma NoneInserted(cs: Shape, c: set<nat>, v: nat, i: nat, rows: seq<set<nat>>)
    requires v < cs.numVars && Expanded(cs, c, v)
    ensures Inserted(cs, c, v, i, rows, 0, rows)
  {
    hide Expanded;
  }

  lemma InsertedBlock(cs: Shape, c: set<nat>, v: nat, i: nat, rows: seq<set<nat>>, t: nat, skip: nat, place: nat,
                      j: nat, before: seq<set<nat>>, r: seq<set<nat>>)
    requires v < cs.numVars && Expanded(cs, c, v) && i in c && i in cs.varMask[v]
    requires skip == Product(cs, c, v) && place == Product(cs, c, v + 1)
    requires j == Times(t, skip) + Times(|PartsBelow(c, cs.firstPart[v], i)|, place) && j + place <= Times(t + 1, skip)
    requires Times(t + 1, skip) <= |rows| && Inserted(cs, c, v, i, rows, Times(t, skip), before) && |r| == |rows|
    requires forall x :: 0 <= x < |rows| ==> r[x] == before[x] + if j <= x < j + place then {i} else {}
    ensures Inserted(cs, c, v, i, rows, Times(t + 1, skip), r)
  {
    hide Expanded, Picked, Product;
    forall x: nat | x < |rows|
      ensures r[x] == if x < Times(t + 1, skip) then WithPart(cs, c, v, i, x, rows[x]) else rows[x]
    {
      if Times(t, skip) <= x < Times(t + 1, skip) {
        BlockPicks(cs, c, v, i, t, x);
      }
    }
  }

  lemma AllInserted(cs: Shape, c: set<nat>, v: nat, i: nat, rows: seq<set<nat>>, m: nat, t: nat, skip: nat, n: nat,
                    place: nat, r: seq<set<nat>>)
    requires v < cs.numVars && Expanded(cs, c, v) && Inserted(cs, c, v, i, rows, Times(t, skip), r)
    requires |rows| == Times(m, skip) && t <= m && Times(t, skip) + n >= |rows| && n + place <= skip && place > 0
    ensures |r| == |rows| && forall x: nat :: x < |rows| ==> r[x] == WithPart(cs, c, v, i, x, rows[x])
  {
    hide Expanded, WithPart;
    BlockRange(|rows|, m, skip, t, n, place);
  }

  /** Rows with the parts of variable v below i inserted. */
  ghost function UpTo(cs: Shape, c: set<nat>, v: nat, i: nat, x: nat, row: set<nat>): set<nat>
    requires v < cs.numVars && Expanded(cs, c, v)
  {
    row + if Picked(cs, c, v, x) < i then {Picked(cs, c, v, x)} else {}
  }

  lemma UpToNext(cs: Shape, c: set<nat>, v: nat, i: nat, x: nat, row: set<nat>)
    requires v < cs.numVars && Expanded(cs, c, v)
    ensures i in c && i in cs.varMask[v] ==>
      WithPart(cs, c, v, i, x, UpTo(cs, c, v, i, x, row)) == UpTo(cs, c, v, i + 1, x, row)
    ensures i !in c && i in cs.varMask[v] ==> UpTo(cs, c, v, i, x, row) == UpTo(cs, c, v, i + 1, x, row)
  {
    PickedMember(cs, c, v, x);
  }

  /** The i loop for an unravelled variable v. */
  method InsertVariable(cs: Shape, c: set<nat>, v: nat, rows: seq<set<nat>>, skip: nat, place: nat)
    returns (r: seq<set<nat>>)
    requires v < cs.numVars && Expanded(cs, c, v)
    requires skip == Product(cs, c, v) && place == Product(cs, c, v + 1) && MultipleOf(|rows|, skip)
    ensures |r| == |rows|
    ensures forall x: nat :: x < |rows| ==> r[x] == rows[x] + {Picked(cs, c, v, x)}
  {
    r := rows;
    var n: nat := 0;
    forall x: nat | x < |rows| ensures UpTo(cs, c, v, cs.firstPart[v], x, rows[x]) == rows[x] {
      PickedMember(cs, c, v, x);
    }
    for i := cs.firstPart[v] to cs.lastPart[v] + 1
      invariant |r| == |rows| && n == Times(|PartsBelow(c, cs.firstPart[v], i)|, place)
      invariant forall x: nat :: x < |rows| ==> r[x] == UpTo(cs, c, v, i, x, rows[x])
    {
      forall x: nat | x < |rows|
        ensures i in c ==> WithPart(cs, c, v, i, x, UpTo(cs, c, v, i, x, rows[x])) == UpTo(cs, c, v, i + 1, x, rows[x])
        ensures i !in c ==> UpTo(cs, c, v, i, x, rows[x]) == UpTo(cs, c, v, i + 1, x, rows[x])
      {
        UpToNext(cs, c, v, i, x, rows[x]);
      }
      if i in c {
        r := InsertPart(cs, c, v, r, i, n, skip, place);
        n := n + place;
      }
    }
    forall x: nat | x < |rows|
      ensures UpTo(cs, c, v, cs.lastPart[v] + 1, x, rows[x]) == rows[x] + {Picked(cs, c, v, x)}
    {
      PickedMember(cs, c, v, x);
    }
  }

  lemma NextMultiple(a: nat, d: nat, q: nat)
    ensures d < q ==> a * d + a <= a * q
  {
    if d < q {
      assert a * q == a * d + a + a * (q - d - 1);
    }
  }

  lemma QuotientOfProduct(f: nat, q: nat)
    requires f > 0
    ensures (f * q) / f == q
  {
    var d := (f * q) / f;
    assert f * q == f * d + (f * q) % f;
    NextMultiple(f, d, q);
    NextMultiple(f, q, d);
  }

  lemma DivideExactly(f: nat, q: nat)
    requires f > 0
    ensures Times(f, q) / f == q
  {
    TimesIsProduct(f, q);
    QuotientOfProduct(f, q);
  }

  /** The parts of the variables outside start..v-1, and of those not unravelled. */
  ghost function BaseParts(cs: Shape, c: set<nat>, start: nat, v: nat): set<nat>
    requires v <= cs.numVars
  {
    set x | x in cs.fullset &&
            (cs.partVar[x] < start || (cs.partVar[x] < v && !Expanded(cs, c, cs.partVar[x])))
  }

  lemma BaseStart(cs: Shape, c: set<nat>, start: nat, startbase: set<nat>)
    requires start <= cs.numVars && forall x :: x in startbase <==> x in cs.fullset && cs.partVar[x] < start
    ensures startbase == BaseParts(cs, c, start, start)
  {
  }

  lemma BaseStep(cs: Shape, c: set<nat>, start: nat, v: nat)
    requires start <= v < cs.numVars
    ensures BaseParts(cs, c, start, v + 1) == BaseParts(cs, c, start, v) + if Expanded(cs, c, v) then {}
    else cs.varMask[v]
  {
    hide Expanded;
    forall x | x in cs.fullset ensures x in cs.varMask[v] <==> cs.partVar[x] == v {
    }
  }

  lemma BaseRow(cs: Shape, c: set<nat>, start: nat)
    requires start <= cs.numVars && c <= cs.fullset
    ensures c * BaseParts(cs, c, start, cs.numVars) == Row(cs, c, start, start, 0)
  {
    hide Expanded;
  }

  /** set_dist(c, cube.var_mask[v]) */
  method PartCount(cs: Shape, c: set<nat>, v: nat) returns (size: nat)
    requires v < cs.numVars
    ensures (size >= 2 <==> Expanded(cs, c, v)) && Factor(cs, c, v) == if size < 2 then 1 else size
  {
    size := |c * cs.varMask[v]|;
  }

  /** The parts that are in every row: those of the variables outside start..., and of those not unravelled. */
  method UnravelBase(cs: Shape, c: set<nat>, start: nat, startbase: set<nat>) returns (base: set<nat>, expansion: nat)
    requires start <= cs.numVars && c <= cs.fullset
    requires forall x :: x in startbase <==> x in cs.fullset && cs.partVar[x] < start
    ensures base == Row(cs, c, start, start, 0) && expansion == Product(cs, c, start)
  {
    hide BaseParts, Expanded, Factor, Product, Row;
    base := startbase;
    BaseStart(cs, c, start, startbase);
    var sizes: seq<nat> := [];
    for v := start to cs.numVars
      invariant |sizes| == v - start && forall u :: start <= u < v ==> sizes[u - start] == Factor(cs, c, u)
      invariant base == BaseParts(cs, c, start, v)
    {
      BaseStep(cs, c, start, v);
      var size := PartCount(cs, c, v);
      if size < 2 {
        base := base + cs.varMask[v];
        sizes := sizes + [1];
      } else {
        sizes := sizes + [size];
      }
    }
    base := c * base;
    BaseRow(cs, c, start);
    expansion := MultiplySizes(cs, c, start, sizes);
  }

  method MultiplySizes(cs: Shape, ghost c: set<nat>, ghost start: nat, sizes: seq<nat>) returns (expansion: nat)
    requires start <= cs.numVars && |sizes| == cs.numVars - start
    requires forall u :: start <= u < cs.numVars ==> sizes[u - start] == Factor(cs, c, u)
    ensures expansion == Product(cs, c, start)
  {
    expansion := 1;
    for k := 0 to |sizes|
      invariant Times(expansion, Product(cs, c, start + k)) == Product(cs, c, start)
    {
      ghost var p := Product(cs, c, start + k + 1);
      assert Product(cs, c, start + k) == Times(sizes[k], p);
      TimesAssoc(expansion, sizes[k], p);
      TimesIsProduct(expansion, sizes[k]);
      expansion := expansion * sizes[k];
    }
    TimesIsProduct(expansion, 1);
  }

  /** The n rows of c, once the variables start..bound-1 are done. */
  ghost function RowsAt(cs: Shape, c: set<nat>, start: nat, bound: nat, n: nat): seq<set<nat>> {
    if n == 0 then [] else RowsAt(cs, c, start, bound, n - 1) + [Row(cs, c, start, bound, n - 1)]
  }

  lemma {:induction false} RowsAtIndex(cs: Shape, c: set<nat>, start: nat, bound: nat, n: nat)
    ensures |RowsAt(cs, c, start, bound, n)| == n
    ensures forall x: nat :: x < n ==> RowsAt(cs, c, start, bound, n)[x] == Row(cs, c, start, bound, x)
  {
    if n > 0 {
      RowsAtIndex(cs, c, start, bound, n - 1);
    }
  }

  /** All rows of c: the base, then the choices of one variable after the other. */
  method UnravelRows(cs: Shape, c: set<nat>, start: nat, bases: seq<set<nat>>) returns (rows: seq<set<nat>>)
    requires start <= cs.numVars && |bases| == Product(cs, c, start)
    requires bases == RowsAt(cs, c, start, start, |bases|)
    ensures rows == RowsAt(cs, c, start, cs.numVars, |bases|)
  {
    hide Product, RowsAt;
    rows := bases;
    var place := |bases|;
    for v := start to cs.numVars
      invariant |rows| == |bases| && rows == RowsAt(cs, c, start, v, |bases|) && place == Product(cs, c, v)
    {
      rows, place := UnravelVariable(cs, c, start, v, rows, place);
    }
  }

  /** Before the first variable all rows are the base. */
  method BaseRows(cs: Shape, ghost c: set<nat>, ghost start: nat, base: set<nat>, n: nat) returns (bases: seq<set<nat>>)
    requires base == Row(cs, c, start, start, 0)
    ensures |bases| == n && bases == RowsAt(cs, c, start, start, n)
  {
    forall x: nat ensures Row(cs, c, start, start, x) == base {
    }
    RowsAtIndex(cs, c, start, start, n);
    bases := seq(n, _ => base);
  }

  /** cb_unravel -- append one row per choice of a part of every variable from start on. */
  method CbUnravel(cs: Shape, c: set<nat>, start: nat, startbase: set<nat>, B1: seq<set<nat>>)
    returns (r: seq<set<nat>>)
    requires start <= cs.numVars && c <= cs.fullset
    requires forall x :: x in startbase <==> x in cs.fullset && cs.partVar[x] < start
    ensures |r| == |B1| + Product(cs, c, start) && r[..|B1|] == B1
    ensures forall x: nat :: x < Product(cs, c, start) ==> r[|B1| + x] == Row(cs, c, start, cs.numVars, x)
  {
    var base, expansion := UnravelBase(cs, c, start, startbase);
    var bases := BaseRows(cs, c, start, base, expansion);
    var rows := UnravelRows(cs, c, start, bases);
    RowsAtIndex(cs, c, start, cs.numVars, expansion);
    r := B1 + rows;
  }

  /** One variable of cb_unravel. */
  method UnravelVariable(cs: Shape, c: set<nat>, ghost start: nat, v: nat, rows: seq<set<nat>>, place: nat)
    returns (rows': seq<set<nat>>, place': nat)
    requires start <= v < cs.numVars && |rows| == Product(cs, c, start) && place == Product(cs, c, v)
    requires rows == RowsAt(cs, c, start, v, |rows|)
    ensures |rows'| == |rows| && rows' == RowsAt(cs, c, start, v + 1, |rows|) && place' == Product(cs, c, v + 1)
  {
    rows', place' := rows, place;
    var size := |c * cs.varMask[v]|;
    if size > 1 {
      var skip := place;
      DivideExactly(size, Product(cs, c, v + 1));
      place' := place / size;
      ProductMultiple(cs, c, start, v);
      rows' := InsertVariable(cs, c, v, rows, skip, place');
    } else {
      assert Times(1, Product(cs, c, v + 1)) == Product(cs, c, v + 1);
    }
    VariableRows(cs, c, start, v, rows, rows');
  }

  lemma VariableRows(cs: Shape, c: set<nat>, start: nat, v: nat, rows: seq<set<nat>>, rows': seq<set<nat>>)
    requires start <= v < cs.numVars && rows == RowsAt(cs, c, start, v, |rows|) && |rows'| == |rows|
    requires Expanded(cs, c, v) ==> forall x: nat :: x < |rows| ==> rows'[x] == rows[x] + {Picked(cs, c, v, x)}
    requires !Expanded(cs, c, v) ==> rows' == rows
    ensures rows' == RowsAt(cs, c, start, v + 1, |rows|)
  {
    var next := RowsAt(cs, c, start, v + 1, |rows|);
    RowsAtIndex(cs, c, start, v, |rows|);
    RowsAtIndex(cs, c, start, v + 1, |rows|);
    forall x: nat | x < |rows| ensures rows'[x] == next[x] {
      RowNext(cs, c, start, v, x);
    }
  }

  /** The first variables multiplied: e times the choices of the variables from v on are all choices. */
  ghost predicate Multiplying(cs: Shape, p: set<nat>, start: nat, v: nat, e: nat)
    requires start <= v <= cs.numVars
  {
    Product(cs, p, start) == Times(e, Product(cs, p, v))
  }

  /** How many sets p unravels into, unless these are more than limit. */
  method Expansions(cs: Shape, p: set<nat>, start: nat, limit: nat) returns (tooMany: bool, expansion: nat)
    requires start <= cs.numVars && limit >= 1
    ensures expansion <= Product(cs, p, start)
    ensures if tooMany then expansion > limit else expansion == Product(cs, p, start) <= limit
  {
    expansion := 1;
    ProductStart(cs, p, start);
    for v := start to cs.numVars
      invariant 1 <= expansion <= limit && Multiplying(cs, p, start, v, expansion)
    {
      var dist := |p * cs.varMask[v]|;
      ProductStep(cs, p, start, v, expansion);
      if dist > 1 {
        expansion := expansion * dist;
        if expansion > limit {
          return true, expansion;
        }
      }
    }
    TimesThrough(1, expansion, 1);
    tooMany := false;
  }

  lemma ProductStart(cs: Shape, p: set<nat>, start: nat)
    requires start <= cs.numVars
    ensures Multiplying(cs, p, start, start, 1)
  {
    assert Times(0, Product(cs, p, start)) == 0;
  }

  lemma ProductStep(cs: Shape, p: set<nat>, start: nat, v: nat, e: nat)
    requires start <= v < cs.numVars && Multiplying(cs, p, start, v, e)
    ensures var d := |p * cs.varMask[v]|;
            var e' := if d > 1 then e * d else e;
            Multiplying(cs, p, start, v + 1, e') && e <= e' <= Product(cs, p, start)
  {
    TimesAtLeast(e, Factor(cs, p, v));
    TimesIsProduct(e, Factor(cs, p, v));
    TimesThrough(e, Factor(cs, p, v), Product(cs, p, v + 1));
    TimesAtLeast(e * Factor(cs, p, v), Product(cs, p, v + 1));
  }

  lemma TimesThrough(e: nat, f: nat, q: nat)
    ensures Times(e, Times(f, q)) == Times(e * f, q) && Times(e, 1) == e && Times(f, 1) == f
    ensures Times(1, Times(f, q)) == Times(f, q)
  {
    TimesAssoc(e, f, q);
    TimesIsProduct(e, f);
    TimesIsProduct(e, 1);
    TimesIsProduct(f, 1);
    assert Times(0, Times(f, q)) == 0;
  }

  lemma {:induction false} TimesAtLeast(e: nat, q: nat)
    requires q >= 1
    ensures Times(e, q) >= e
  {
    if e > 0 {
      TimesAtLeast(e - 1, q);
    }
  }

  /** Without a variable to unravel there is one choice. */
  lemma {:induction false} NoneExpanded(cs: Shape, p: set<nat>, v: nat)
    requires v <= cs.numVars && forall u :: v <= u < cs.numVars ==> !Expanded(cs, p, u)
    ensures Product(cs, p, v) == 1
    decreases cs.numVars - v
  {
    hide Expanded;
    if v < cs.numVars {
      NoneExpanded(cs, p, v + 1);
      ProductUnfold(cs, p, v);
    }
  }

  // ---------- unravel ----------

  /** How many sets the first n sets of B unravel into. */
  ghost function SetCount(cs: Shape, B: seq<set<nat>>, start: nat, n: nat): nat
    requires n <= |B| && start <= cs.numVars
  {
    if n == 0 then 0 else SetCount(cs, B, start, n - 1) + Product(cs, B[n - 1], start)
  }

  lemma {:induction false} SetCountMore(cs: Shape, B: seq<set<nat>>, start: nat, m: nat, n: nat)
    requires m <= n <= |B| && start <= cs.numVars
    ensures SetCount(cs, B, start, m) <= SetCount(cs, B, start, n)
  {
    hide Product;
    if m < n {
      SetCountMore(cs, B, start, m, n - 1);
    }
  }


  /** Every row of B1 is a row of some cube of B, and all of them are there. */
  ghost predicate Unravelled(cs: Shape, B: seq<set<nat>>, start: nat, n: nat, B1: seq<set<nat>>)
    requires n <= |B| && start <= cs.numVars
  {
    && (forall k, x: nat {:trigger RowAmong(cs, B[k], start, x, B1)} ::
          0 <= k < n && x < Product(cs, B[k], start) ==> RowAmong(cs, B[k], start, x, B1))
    && (forall j :: 0 <= j < |B1| ==> FromSome(cs, B, start, n, B1[j]))
  }

  ghost predicate RowAmong(cs: Shape, c: set<nat>, start: nat, x: nat, B1: seq<set<nat>>) {
    Row(cs, c, start, cs.numVars, x) in B1
  }

  ghost predicate FromSome(cs: Shape, B: seq<set<nat>>, start: nat, n: nat, row: set<nat>)
    requires n <= |B| && start <= cs.numVars
  {
    exists k, x: nat :: 0 <= k < n && x < Product(cs, B[k], start) && row == Row(cs, B[k], start, cs.numVars, x)
  }

  /** The variables that are not unravelled. */
  method StartBase(cs: Shape, start: nat) returns (startbase: set<nat>)
    requires start <= cs.numVars
    ensures forall x :: x in startbase <==> x in cs.fullset && cs.partVar[x] < start
  {
    startbase := {};
    for v := 0 to start
      invariant forall x :: x in startbase <==> x in cs.fullset && cs.partVar[x] < v
    {
      forall x | x in cs.fullset ensures x in cs.varMask[v] <==> cs.partVar[x] == v {
      }
      startbase := startbase + cs.varMask[v];
    }
  }

  /** unravel -- unravel_range over the variables from start on. */
  method UnravelFrom(cs: Shape, B: seq<set<nat>>, start: nat) returns (B1: seq<set<nat>>)
    requires start <= cs.numVars && forall k :: 0 <= k < |B| ==> B[k] <= cs.fullset
    ensures Unravelled(cs, B, start, |B|, B1) && |B1| == SetCount(cs, B, start, |B|)
  {
    hide Product, Row;
    var startbase := StartBase(cs, start);
    B1 := [];
    for k := 0 to |B|
      invariant Unravelled(cs, B, start, k, B1) && |B1| == SetCount(cs, B, start, k)
    {
      ghost var before := B1;
      B1 := CbUnravel(cs, B[k], start, startbase, B1);
      UnravelledStep(cs, B, start, k, before, B1);
    }
  }

  lemma UnravelledStep(cs: Shape, B: seq<set<nat>>, start: nat, k: nat, before: seq<set<nat>>, after: seq<set<nat>>)
    requires k < |B| && start <= cs.numVars && Unravelled(cs, B, start, k, before)
    requires |after| == |before| + Product(cs, B[k], start) && after[..|before|] == before
    requires forall x: nat :: x < Product(cs, B[k], start) ==>
      after[|before| + x] == Row(cs, B[k], start, cs.numVars, x)
    ensures Unravelled(cs, B, start, k + 1, after)
  {
    hide Product, Row;
    forall i, x: nat | 0 <= i < k + 1 && x < Product(cs, B[i], start) ensures RowAmong(cs, B[i], start, x, after) {
      if i < k {
        assert RowAmong(cs, B[i], start, x, before);
        var j :| 0 <= j < |before| && before[j] == Row(cs, B[i], start, cs.numVars, x);
        assert after[j] == before[j];
      } else {
        assert after[|before| + x] in after;
      }
    }
    forall j | 0 <= j < |after| ensures FromSome(cs, B, start, k + 1, after[j]) {
      if j < |before| {
        assert after[j] == before[j];
        assert FromSome(cs, B, start, k, before[j]);
      } else {
        var x: nat := j - |before|;
        assert after[j] == Row(cs, B[k], start, cs.numVars, x);
      }
    }
  }

  /**
   A set that hits every row of cube c contains all of c's parts in an unravelled variable, or a part of c
   in another one.
   */
  lemma HittingTakesAll(cs: Shape, c: set<nat>, start: nat, S: set<nat>) returns (v: nat)
    requires start <= cs.numVars && c <= cs.fullset
    requires forall x: nat {:trigger Row(cs, c, start, cs.numVars, x)} ::
               x < Product(cs, c, start) ==> Row(cs, c, start, cs.numVars, x) * S != {}
    ensures v < cs.numVars && c * cs.varMask[v] * S != {}
    ensures start <= v && Expanded(cs, c, v) ==> c * cs.varMask[v] <= S
  {
    if u :| start <= u < cs.numVars && Expanded(cs, c, u) && c * cs.varMask[u] <= S {
      v := u;
      assert c * cs.varMask[v] * S == c * cs.varMask[v];
    } else {
      var ch := AvoidingChoice(cs, c, start, S);
      var x := ChoiceNumber(cs, c, ch, start);
      var i :| i in Row(cs, c, start, cs.numVars, x) * S;
      v := cs.partVar[i];
      assert i in cs.varMask[v] && i in c * cs.varMask[v] * S;
      assert InRow(cs, c, start, cs.numVars, x, i);
      assert forall u :: start <= u < cs.numVars && Expanded(cs, c, u) ==> Picked(cs, c, u, x) !in S;
    }
  }

  /** A choice that stays out of S wherever S leaves a part. */
  lemma AvoidingChoice(cs: Shape, c: set<nat>, start: nat, S: set<nat>) returns (ch: seq<nat>)
    requires start <= cs.numVars
    requires forall u :: start <= u < cs.numVars && Expanded(cs, c, u) ==> !(c * cs.varMask[u] <= S)
    ensures Choice(cs, c, ch)
    ensures forall u :: start <= u < cs.numVars && Expanded(cs, c, u) ==> ch[u] !in S
  {
    forall u | 0 <= u < cs.numVars && Expanded(cs, c, u) ensures c * cs.varMask[u] != {} {
    }
    forall u | start <= u < cs.numVars && Expanded(cs, c, u) ensures c * cs.varMask[u] - S != {} {
      var i :| i in c * cs.varMask[u] && i !in S;
      assert i in c * cs.varMask[u] - S;
    }
    ch := seq(cs.numVars, u requires 0 <= u < cs.numVars =>
      if !Expanded(cs, c, u) then 0
      else if start <= u then (var i :| i in c * cs.varMask[u] - S; i)
      else (var i :| i in c * cs.varMask[u]; i));
  }

  /** Unravelling keeps the minterms: each one of c lies in some row. */
  lemma RowOf(cs: Shape, c: set<nat>, start: nat, m: seq<nat>) returns (r: nat)
    requires start <= cs.numVars && cs.Minterm(m) && In(m, c)
    ensures r < Product(cs, c, start) && In(m, Row(cs, c, start, cs.numVars, r))
  {
    assert Choice(cs, c, m);
    r := ChoiceNumber(cs, c, m, start);
    forall v | 0 <= v < |m| ensures m[v] in Row(cs, c, start, cs.numVars, r) {
      assert m[v] in cs.varMask[v];
      assert InRow(cs, c, start, cs.numVars, r, m[v]);
    }
  }

  /** No row of a nonvoid cube is void. */
  lemma RowNonVoid(cs: Shape, c: set<nat>, start: nat, r: nat)
    requires start <= cs.numVars && NonVoid(cs, c)
    ensures NonVoid(cs, Row(cs, c, start, cs.numVars, r)) && Row(cs, c, start, cs.numVars, r) <= c
  {
    forall v | 0 <= v < cs.numVars ensures Row(cs, c, start, cs.numVars, r) * cs.varMask[v] != {} {
      if start <= v && Expanded(cs, c, v) {
        PickedMember(cs, c, v, r);
        var i := Picked(cs, c, v, r);
        assert InRow(cs, c, start, cs.numVars, r, i);
        assert i in Row(cs, c, start, cs.numVars, r) * cs.varMask[v];
      } else {
        var i :| i in c * cs.varMask[v];
        assert InRow(cs, c, start, cs.numVars, r, i);
        assert i in Row(cs, c, start, cs.numVars, r) * cs.varMask[v];
      }
    }
  }

  // ---------- do_sm_minimum_cover ----------

  ghost predicate Hits(S: set<nat>, A: seq<set<nat>>, n: nat)
    requires n <= |A|
  {
    forall k :: 0 <= k < n && A[k] != {} ==> A[k] * S != {}
  }

  /** The matrix has row k for every nonempty set k < n. */
  ghost predicate RowsFor(rows: Rows, A: seq<set<nat>>, n: nat)
    requires n <= |A|
  {
    && (forall k: nat :: k in rows ==> k < n)
    && forall k: nat :: k < n ==> (k in rows <==> A[k] != {}) && forall x :: x in At(rows, k) <==> x in A[k]
  }

  /** Row k of the matrix, element by element. */
  method InsertSet(M: SmMatrix, k: nat, p: set<nat>)
    requires M.Valid() && k !in M.rows
    modifies M
    ensures M.Valid() && M.rows.Keys == old(M.rows.Keys) + if p == {} then {} else {k}
    ensures forall r :: r in M.rows && r != k ==> M.rows[r] == old(M.rows)[r]
    ensures forall x :: x in At(M.rows, k) <==> x in p
  {
    var left := p;
    while left != {}
      invariant left <= p && M.Valid()
      invariant M.rows.Keys == old(M.rows.Keys) + if left == p then {} else {k}
      invariant forall r :: r in M.rows && r != k ==> M.rows[r] == old(M.rows)[r]
      invariant forall x :: x in At(M.rows, k) <==> x in p && x !in left
      decreases |left|
    {
      var i :| i in left;
      M.Insert(k, i);
      left := left - {i};
    }
  }

  /** A minimum cover of a single row is a single column. */
  lemma OneColumn(rows: Rows, rowNums: seq<nat>, p: set<nat>, cover: set<nat>)
    requires Headed(rowNums, rows) && RowsFor(rows, [p], 1) && p != {}
    requires |rowNums| <= 1 ==> MinimumCover(Unit, rows, cover)
    ensures |cover| == 1
  {
    assert 0 in rows;
    forall k | 0 <= k < |rowNums| ensures rowNums[k] == 0 {
      assert rowNums[k] in rowNums;
    }
    assert |rowNums| <= 1 by {
      assert rowNums != [] ==> rowNums[0] == rowNums[|rowNums| - 1];
    }
    var x :| x in p;
    assert x in At(rows, 0) && IsCover(rows, {x});
    UnitCost({x});
    UnitCost(cover);
    assert Hit(rows[0], cover);
    assert cover != {};
  }

  /** One row for each nonempty set. */
  lemma RowsForNext(rows: Rows, rows': Rows, A: seq<set<nat>>, k: nat)
    requires k < |A| && RowsFor(rows, A, k) && rows'.Keys == rows.Keys + if A[k] == {} then {} else {k}
    requires forall r :: r in rows' && r != k ==> rows'[r] == rows[r]
    requires forall x :: x in At(rows', k) <==> x in A[k]
    ensures RowsFor(rows', A, k + 1)
  {
    forall j: nat | j < k ensures At(rows', j) == At(rows, j) {
    }
  }

  method SetMatrix(A: seq<set<nat>>) returns (M: SmMatrix)
    ensures fresh(M) && M.Valid() && RowsFor(M.rows, A, |A|)
  {
    M := new SmMatrix();
    assert RowsFor(M.rows, A, 0);
    for k := 0 to |A|
      invariant fresh(M) && M.Valid() && RowsFor(M.rows, A, k)
    {
      ghost var rows := M.rows;
      InsertSet(M, k, A[k]);
      RowsForNext(rows, M.rows, A, k);
    }
  }

  /** do_sm_minimum_cover -- a set of columns that hits every nonempty set of A. */
  method DoSmMinimumCover(A: seq<set<nat>>) returns (cover: set<nat>)
    ensures Hits(cover, A, |A|)
    ensures forall x :: x in cover ==> exists k :: 0 <= k < |A| && x in A[k]
    ensures |A| == 1 && A[0] != {} ==> |cover| == 1
  {
    hide Hits, RowsFor, ColsOf, IsCover, MinimumCover, HeuristicRun;
    var M := SetMatrix(A);
    var sparseCover := SmMinimumCover(M, Unit, true);
    cover := set x | x in sparseCover;
    assert cover == Elems(sparseCover);
    CoverHits(A, M.rows, cover);
    if |A| == 1 && A[0] != {} {
      OneColumn(M.rows, M.rowNums, A[0], cover);
    }
  }

  /** A column cover of the rows hits the sets. */
  lemma CoverHits(A: seq<set<nat>>, rows: Rows, cover: set<nat>)
    requires RowsFor(rows, A, |A|) && IsCover(rows, cover) && cover <= ColsOf(rows)
    ensures Hits(cover, A, |A|)
    ensures forall x :: x in cover ==> exists k :: 0 <= k < |A| && x in A[k]
  {
    forall k | 0 <= k < |A| && A[k] != {} ensures A[k] * cover != {} {
      assert k in rows && Hit(rows[k], cover);
      var i :| i in rows[k] && i in cover;
      assert i in A[k] * cover;
    }
    forall x | x in cover ensures exists k :: 0 <= k < |A| && x in A[k] {
      var k :| k in rows && x in rows[k];
    }
  }
}
