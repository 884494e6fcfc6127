/** irred.c, gasp.c: a cover in which irredundant leaves a cube that is not needed. */
module RedundantCube {
  import C = Containment
  import opened Cofactor
  import opened Covering
  import opened CoveringTable
  import opened Cubes
  import opened Dominance
  import opened Gasp
  import opened Indep
  import opened Irred
  import opened Mincov
  import opened Redundancy
  import opened Reductions
  import opened Sets
  import opened Solution
  import opened SortedLists
  import opened SparseMatrix

  // ---------- the covering problem ----------

  /** Six rows over the columns 0 to 6. */
  ghost function Core(p: nat): (s: set<nat>)
    ensures forall c :: c in s ==> c <= 6
  {
    match p
    case 0 => {0, 1, 2, 4, 5}
    case 1 => {0, 1, 6}
    case 2 => {0, 2, 3, 4, 6}
    case 3 => {0, 2, 3, 5}
    case 4 => {1, 2, 6}
    case 5 => {3, 4, 5}
    case _ => {}
  }

  ghost predicate HitsCore(S: set<nat>) {
    forall p: nat :: p < 6 ==> Core(p) * S != {}
  }

  /** A matrix with the covers of these six rows. */
  ghost predicate Cored(rows: Rows) {
    && (forall c :: c in ColsOf(rows) ==> c <= 6)
    && (forall r :: r in rows ==> Sorted(rows[r]))
    && forall S :: IsCover(rows, S) <==> HitsCore(S)
  }

  ghost function Columns(): (s: set<nat>)
    ensures forall c: nat :: c in s <==> c <= 6
  {
    {0, 1, 2, 3, 4, 5, 6}
  }

  lemma CoreApart(p: nat, q: nat)
    requires p < 6 && q < 6 && Core(p) <= Core(q)
    ensures p == q
  {
    assert forall c: nat :: c in Core(p) ==> c in Core(q);
    assert 0 in Core(0) && 5 in Core(0) && 1 in Core(1) && 6 in Core(1) && 3 in Core(2) && 6 in Core(2) && 2 in Core(3);
    assert 5 in Core(3) && 3 in Core(3) && 1 in Core(4) && 2 in Core(4) && 3 in Core(5) && 4 in Core(5) && 5 in Core(5);
    assert 1 in Core(0) && 0 in Core(1) && 0 in Core(2) && 0 in Core(3) && 6 in Core(4);
  }

  /** Every row contains one of the six. */
  lemma AboveCore(rows: Rows, r: nat) returns (q: nat)
    requires Cored(rows) && r in rows
    ensures q < 6 && Core(q) <= Elems(rows[r])
  {
    var S := Columns() - Elems(rows[r]);
    assert !Hit(rows[r], S);
    assert !IsCover(rows, S);
    q :| q < 6 && Core(q) * S == {};
    forall c | c in Core(q) ensures c in Elems(rows[r]) {
      assert c in S ==> c in Core(q) * S;
    }
  }

  /** And all six are there. */
  lemma CoreRow(rows: Rows, p: nat) returns (r: nat)
    requires Cored(rows) && p < 6
    ensures r in rows && Elems(rows[r]) == Core(p)
  {
    var S := Columns() - Core(p);
    assert Core(p) * S == {};
    assert !IsCover(rows, S);
    r :| r in rows && !Hit(rows[r], S);
    forall c | c in Elems(rows[r]) ensures c in Core(p) {
      assert c in ColsOf(rows);
    }
    var q := AboveCore(rows, r);
    CoreApart(q, p);
  }

  /** A row with column c and without column d. */
  lemma Separated(c: nat, d: nat) returns (p: nat)
    requires c <= 6 && c != d
    ensures p < 6 && c in Core(p) && d !in Core(p)
  {
    p := match c
      case 0 => if d == 1 || d == 6 then 3 else 1
      case 1 => if d == 0 then 4 else if d == 6 then 0 else 1
      case 2 => if d == 1 || d == 6 then 3 else 4
      case 3 => if d == 4 then 3 else if d == 5 then 2 else 5
      case 4 => if d == 3 then 0 else if d == 5 then 2 else 5
      case 5 => if d == 3 then 0 else if d == 4 then 3 else 5
      case _ => if d == 0 then 4 else if d == 1 then 2 else 1;
  }

  lemma CoreSize(p: nat)
    requires p < 6
    ensures |Core(p)| == match p case 0 => 5 case 1 => 3 case 2 => 5 case 3 => 4 case 4 => 3 case _ => 3
  {
  }

  lemma CoredThick(rows: Rows)
    requires Cored(rows)
    ensures rows != map[] && forall r :: r in rows ==> |rows[r]| >= 3
  {
    var r0 := CoreRow(rows, 0);
    forall r | r in rows ensures |rows[r]| >= 3 {
      var q := AboveCore(rows, r);
      CoreSize(q);
      SubsetCard(Core(q), Elems(rows[r]));
      SortedLength(rows[r]);
    }
  }

  lemma CoredNoneDominated(rows: Rows)
    requires Cored(rows)
    ensures !HasDominated(Unit, rows)
  {
    forall c, d | c in ColsOf(rows) && c != d ensures !Dominated(Unit, rows, c, d) {
      var p := Separated(c, d);
      var r := CoreRow(rows, p);
      assert c in Elems(rows[r]) && d !in Elems(rows[r]);
    }
  }

  /** The first of the six rows meets all of them. */
  lemma CoredUndivided(rows: Rows)
    requires Cored(rows)
    ensures Undivided(rows)
  {
    var r0 := CoreRow(rows, 0);
    forall l, r | Parts(rows, l, r) ensures l == map[] || r == map[] {
      if r0 in l {
        FirstAlone(rows, l, r, r0);
      } else {
        PartsSwap(rows, l, r);
        FirstAlone(rows, r, l, r0);
      }
    }
  }

  lemma FirstAlone(rows: Rows, l: Rows, r: Rows, r0: nat)
    requires Cored(rows) && Parts(rows, l, r) && r0 in l && Elems(rows[r0]) == Core(0)
    ensures r == map[]
  {
    forall q | q in rows ensures q !in r {
      var p := AboveCore(rows, q);
      var c := MeetsFirst(p);
      assert c in Elems(rows[r0]) && c in Elems(rows[q]);
      assert c in l[r0] && c in ColsOf(l);
      assert q in r ==> c in r[q] && c in ColsOf(r);
    }
  }

  lemma MeetsFirst(p: nat) returns (c: nat)
    requires p < 6
    ensures c in Core(p) && c in Core(0)
  {
    c := match p case 4 => 1 case 5 => 4 case _ => 0;
  }

  /** Rows that go leave the six. */
  lemma CoredStays(rows: Rows)
    requires Cored(rows)
    ensures StaysKnotted(rows)
  {
    forall sub | FewerRows(rows, sub) ensures Thick(sub) && !HasDominated(Unit, sub) && Knotted(sub) {
      CoredFewer(rows, sub);
      CoredThick(sub);
      CoredNoneDominated(sub);
      CoredUndivided(sub);
    }
  }

  lemma CoredFewer(rows: Rows, sub: Rows)
    requires Cored(rows) && FewerRows(rows, sub)
    ensures Cored(sub)
  {
    forall c | c in ColsOf(sub) ensures c in ColsOf(rows) {
    }
  }

  // ---------- the column picked ----------

  /** What row p adds to the value of its columns. */
  ghost function Worth(p: nat): real {
    match p
    case 0 => 1.0 / 4.0
    case 1 => 1.0 / 2.0
    case 2 => 1.0 / 4.0
    case 3 => 1.0 / 3.0
    case 4 => 1.0 / 2.0
    case _ => 1.0 / 2.0
  }

  ghost function WorthIn(c: nat, p: nat): real {
    if c in Core(p) then Worth(p) else 0.0
  }

  /** The value of column c. */
  ghost function Total(c: nat): real {
    WorthIn(c, 0) + WorthIn(c, 1) + WorthIn(c, 2) + WorthIn(c, 3) + WorthIn(c, 4) + WorthIn(c, 5)
  }

  /** The columns 0 and 2 are worth most. */
  lemma BestTotals(c: nat)
    requires c <= 6 && c != 0 && c != 2
    ensures Total(c) < Total(0) == Total(2)
  {
    assert Total(0) == 4.0 / 3.0 && Total(2) == 4.0 / 3.0;
    assert Total(c) <= 5.0 / 4.0;
  }

  /** The rows with the numbers n are the first of the six. */
  ghost predicate RowNumbers(rows: Rows, n: seq<nat>) {
    |n| <= 6 && forall p :: 0 <= p < |n| ==> n[p] in rows && Elems(rows[n[p]]) == Core(p) && Sorted(rows[n[p]])
  }

  lemma {:induction false} NumberRows(rows: Rows, k: nat) returns (n: seq<nat>)
    requires Cored(rows) && k <= 6
    ensures RowNumbers(rows, n) && |n| == k
  {
    if k == 0 {
      n := [];
    } else {
      var n' := NumberRows(rows, k - 1);
      var r := CoreRow(rows, k - 1);
      n := n' + [r];
    }
  }

  /** Without a row that contains another one there are no others. */
  lemma RowNumbered(rows: Rows, n: seq<nat>, r: nat) returns (p: nat)
    requires Cored(rows) && Undominated(rows) && RowNumbers(rows, n) && |n| == 6 && r in rows
    ensures p < 6 && r == n[p]
  {
    p := AboveCore(rows, r);
    forall c | c in rows[n[p]] ensures c in rows[r] {
      assert c in Elems(rows[n[p]]);
    }
    assert Contained(rows[n[p]], rows[r]);
  }

  lemma DifferentRows(rows: Rows, n: seq<nat>, p: nat, q: nat)
    requires RowNumbers(rows, n) && p < |n| && q < |n| && n[p] == n[q]
    ensures p == q
  {
    CoreApart(p, q);
  }

  /** The rows below k that hold column c. */
  ghost function Holding(n: seq<nat>, c: nat, k: nat): set<nat>
    requires k <= |n|
  {
    set p | 0 <= p < k && c in Core(p) :: n[p]
  }

  ghost function TotalTo(c: nat, k: nat): real {
    if k == 0 then 0.0 else TotalTo(c, k - 1) + WorthIn(c, k - 1)
  }

  lemma TotalToAll(c: nat)
    ensures TotalTo(c, 6) == Total(c)
  {
    assert TotalTo(c, 1) == WorthIn(c, 0) && TotalTo(c, 2) == TotalTo(c, 1) + WorthIn(c, 1);
    assert TotalTo(c, 3) == TotalTo(c, 2) + WorthIn(c, 2) && TotalTo(c, 4) == TotalTo(c, 3) + WorthIn(c, 3);
    assert TotalTo(c, 5) == TotalTo(c, 4) + WorthIn(c, 4) && TotalTo(c, 6) == TotalTo(c, 5) + WorthIn(c, 5);
  }

  /** The value of a column over a set of rows, in whatever order. */
  ghost function SumOf(rows: Rows, S: set<nat>): real
    requires forall r :: r in S ==> r in rows && |rows[r]| >= 2
  {
    if S == {} then 0.0 else
      var r :| r in S;
      SumOf(rows, S - {r}) + 1.0 / (|rows[r]| as real - 1.0)
  }

  lemma {:induction false} SumWithout(rows: Rows, S: set<nat>, r: nat)
    requires (forall q :: q in S ==> q in rows && |rows[q]| >= 2) && r in S
    ensures SumOf(rows, S) == SumOf(rows, S - {r}) + 1.0 / (|rows[r]| as real - 1.0)
    decreases S
  {
    var q :| q in S && SumOf(rows, S) == SumOf(rows, S - {q}) + 1.0 / (|rows[q]| as real - 1.0);
    if q != r {
      SumWithout(rows, S - {q}, r);
      SumWithout(rows, S - {r}, q);
      assert S - {q} - {r} == S - {r} - {q};
    }
  }

  lemma {:induction false} ValueIsSum(rows: Rows, list: seq<nat>)
    requires (forall r :: r in list ==> r in rows && |rows[r]| >= 2) && Sorted(list)
    ensures Value(rows, list) == SumOf(rows, Elems(list))
  {
    if list == [] {
      assert Elems(list) == {};
    } else {
      var n := |list| - 1;
      ValueIsSum(rows, list[..n]);
      assert list[n] in list;
      assert Elems(list) - {list[n]} == Elems(list[..n]);
      SumWithout(rows, Elems(list), list[n]);
    }
  }

  lemma RowWorth(rows: Rows, n: seq<nat>, p: nat)
    requires RowNumbers(rows, n) && p < |n|
    ensures |rows[n[p]]| >= 2 && 1.0 / (|rows[n[p]]| as real - 1.0) == Worth(p)
  {
    SortedLength(rows[n[p]]);
    CoreSize(p);
  }

  lemma {:induction false} SumIsTotal(rows: Rows, n: seq<nat>, c: nat, k: nat)
    requires RowNumbers(rows, n) && k <= |n| && forall r :: r in rows ==> |rows[r]| >= 2
    ensures SumOf(rows, Holding(n, c, k)) == TotalTo(c, k)
  {
    if k == 0 {
      assert Holding(n, c, 0) == {};
    } else {
      SumIsTotal(rows, n, c, k - 1);
      SumStep(rows, n, c, k);
    }
  }

  lemma SumStep(rows: Rows, n: seq<nat>, c: nat, k: nat)
    requires RowNumbers(rows, n) && 0 < k <= |n| && forall r :: r in rows ==> |rows[r]| >= 2
    ensures SumOf(rows, Holding(n, c, k)) == SumOf(rows, Holding(n, c, k - 1)) + WorthIn(c, k - 1)
  {
    HoldingStep(rows, n, c, k);
    if c in Core(k - 1) {
      SumWithout(rows, Holding(n, c, k), n[k - 1]);
      RowWorth(rows, n, k - 1);
    }
  }

  lemma HoldingStep(rows: Rows, n: seq<nat>, c: nat, k: nat)
    requires RowNumbers(rows, n) && 0 < k <= |n|
    ensures if c in Core(k - 1)
      then n[k - 1] in Holding(n, c, k) && Holding(n, c, k) - {n[k - 1]} == Holding(n, c, k - 1)
      else Holding(n, c, k) == Holding(n, c, k - 1)
  {
    forall p | 0 <= p < k - 1 ensures n[p] != n[k - 1] {
      if n[p] == n[k - 1] {
        DifferentRows(rows, n, p, k - 1);
      }
    }
  }

  lemma ColumnTotal(rows: Rows, cols: Rows, n: seq<nat>, c: nat)
    requires Cored(rows) && Cyclic(rows) && Mirrored(rows, cols) && c in cols && Sorted(cols[c])
    requires RowNumbers(rows, n) && |n| == 6
    ensures Value(rows, cols[c]) == Total(c)
  {
    ValueIsSum(rows, cols[c]);
    SumIsTotal(rows, n, c, 6);
    TotalToAll(c);
    forall r ensures r in Elems(cols[c]) <==> r in Holding(n, c, 6) {
      if r in cols[c] {
        var p := RowNumbered(rows, n, r);
        assert c in Elems(rows[n[p]]);
      }
      if r in Holding(n, c, 6) {
        var p :| 0 <= p < 6 && c in Core(p) && r == n[p];
        assert c in Elems(rows[n[p]]);
      }
    }
    assert Elems(cols[c]) == Holding(n, c, 6);
  }

  /** Column 0 or column 2 is picked. */
  lemma PickIsBest(rows: Rows, cols: Rows, indep: seq<nat>, pick: nat)
    requires Cored(rows) && PickedBy(rows, cols, indep, pick)
    ensures pick == 0 || pick == 2
  {
    var n := NumberRows(rows, 6);
    var c := BestOffered(rows, indep, n);
    PickedColumn(rows, indep, pick);
    ColumnTotal(rows, cols, n, c);
    ColumnTotal(rows, cols, n, pick);
    AtLeastAsGood(rows, cols, pick, c);
    if pick != 0 && pick != 2 {
      BestTotals(pick);
    }
  }

  lemma AtLeastAsGood(rows: Rows, cols: Rows, pick: nat, c: nat)
    requires Mirrored(rows, cols) && (forall r :: r in rows ==> |rows[r]| >= 2) && pick in cols && c in cols
    requires NotBefore(rows, cols, Unit, pick, c)
    ensures Value(rows, cols[c]) <= Value(rows, cols[pick])
  {
  }

  lemma PickedColumn(rows: Rows, indep: seq<nat>, pick: nat)
    requires Cored(rows) && InSome(rows, indep, |indep|, pick)
    ensures pick <= 6
  {
    var k :| 0 <= k < |indep| && indep[k] in rows && pick in rows[indep[k]];
    assert pick in ColsOf(rows);
  }

  /** One of the disjoint rows meets the second row, and so holds column 0 or column 2. */
  lemma BestOffered(rows: Rows, indep: seq<nat>, n: seq<nat>) returns (c: nat)
    requires Cored(rows) && Undominated(rows) && RowNumbers(rows, n) && |n| == 6
    requires forall q :: q in rows ==> MeetsChosen(rows, indep, q)
    ensures (c == 0 || c == 2) && InSome(rows, indep, |indep|, c)
  {
    assert MeetsChosen(rows, indep, n[1]);
    var r, x :| r in indep && r in rows && x in rows[r] && x in rows[n[1]];
    var p := RowNumbered(rows, n, r);
    assert x in Elems(rows[n[p]]) && x in Elems(rows[n[1]]);
    c := OfferedBy(p, x);
    assert c in Elems(rows[n[p]]);
    var k :| 0 <= k < |indep| && indep[k] == r;
    assert indep[k] in rows && c in rows[indep[k]];
  }

  lemma OfferedBy(p: nat, x: nat) returns (c: nat)
    requires p < 6 && x in Core(p) && x in Core(1)
    ensures (c == 0 || c == 2) && c in Core(p)
  {
    c := if p == 4 then 2 else 0;
  }

  // ---------- what has to follow ----------

  /** Row p ends in column d and shares no column with another row without the one picked. */
  ghost predicate Apart(pick: nat, p: nat, d: nat) {
    && d in Core(p) && pick !in Core(p) && (forall c :: c in Core(p) ==> c <= d)
    && forall q: nat :: q < 6 && q != p && pick !in Core(q) ==> Core(q) * Core(p) == {}
  }

  /** The row p has no column in common with the other rows that pick leaves: its last column is selected. */
  lemma LastColumn(rows: Rows, n: seq<nat>, pick: nat, p: nat, d: nat)
    requires Cored(rows) && Undominated(rows) && RowNumbers(rows, n) && |n| == 6 && p < 6
    requires Apart(pick, p, d)
    ensures Forced(Uncovered(rows, pick), d)
  {
    var left, r := Uncovered(rows, pick), n[p];
    assert pick !in Elems(rows[r]) && d in Elems(rows[r]);
    assert r in left;
    forall c, q | c in left[r] && q in left && c in left[q] ensures c <= d && d in left[q] {
      assert c in Elems(rows[r]) && c in Elems(rows[q]);
      var k := RowNumbered(rows, n, q);
      assert pick !in Elems(rows[q]);
      assert c in Core(k) * Core(p);
    }
    forall c | c in left[r] ensures c <= d {
      assert c in Elems(rows[r]);
    }
    assert ForcedBy(left, r, d);
  }

  /** So columns 5 and 6 follow. */
  lemma Follow(rows: Rows, pick: nat)
    requires Cored(rows) && Undominated(rows) && (pick == 0 || pick == 2)
    ensures Forced(Uncovered(rows, pick), 5) && Forced(Uncovered(rows, pick), 6)
  {
    var n := NumberRows(rows, 6);
    var p := if pick == 0 then 4 else 1;
    LeftApart(pick);
    LastColumn(rows, n, pick, 5, 5);
    LastColumn(rows, n, pick, p, 6);
  }

  /** Either pick leaves two rows, and they are disjoint. */
  lemma LeftApart(pick: nat)
    requires pick == 0 || pick == 2
    ensures Apart(pick, 5, 5) && Apart(pick, if pick == 0 then 4 else 1, 6)
  {
    var p := if pick == 0 then 4 else 1;
    forall q: nat | q < 6 && pick !in Core(q) ensures q == 5 || q == p {
    }
    assert Core(5) * Core(p) == {};
  }

  /** They are a cover by themselves. */
  lemma TwoSuffice(S: set<nat>)
    requires 5 in S && 6 in S
    ensures HitsCore(S)
  {
    forall p: nat | p < 6 ensures Core(p) * S != {} {
      assert (if p == 0 || p == 3 || p == 5 then 5 else 6) in Core(p) * S;
    }
  }

  /** Whatever the heuristic run on such a matrix selects, a column of it can be spared. */
  lemma SpareColumn(rows: Rows, cover: seq<nat>)
    requires Cored(rows) && HeuristicRun(rows, Elems(cover))
    ensures !NoneSpare(rows, cover)
  {
    var sub := CoreLeft(rows, Elems(cover));
    var pick := StartsSo(sub, Elems(cover));
    CoverWithoutPick(rows, Elems(cover), pick);
  }

  lemma CoreLeft(rows: Rows, S: set<nat>) returns (sub: Rows)
    requires Cored(rows) && HeuristicRun(rows, S)
    ensures Cored(sub) && Starts(sub, S)
  {
    CoredStays(rows);
    sub :| FewerRows(rows, sub) && Starts(sub, S);
    CoredFewer(rows, sub);
  }

  lemma CoverWithoutPick(rows: Rows, S: set<nat>, pick: nat)
    requires Cored(rows) && 5 in S && 6 in S && pick != 5 && pick != 6
    ensures IsCover(rows, S - {pick})
  {
    TwoSuffice(S - {pick});
  }

  lemma StartsSo(rows: Rows, S: set<nat>) returns (pick: nat)
    requires Cored(rows) && Starts(rows, S)
    ensures pick in S && 5 in S && 6 in S && pick != 5 && pick != 6
  {
    var cols, indep;
    cols, indep, pick :| PickedBy(rows, cols, indep, pick) && pick in S && ForcedIn(Uncovered(rows, pick), S);
    PickIsBest(rows, cols, indep, pick);
    Follow(rows, pick);
  }

  // ---------- the cover ----------

  /** A single variable of six parts. */
  function ExampleSpace(): (cs: CubeStruct)
    ensures cs.Valid()
  {
    CubeStruct(0, 1, 6, [0], [5], [{0, 1, 2, 3, 4, 5}], [0, 0, 0, 0, 0, 0], {0, 1, 2, 3, 4, 5}, [true])
  }

  /** One cube for each of the columns: the parts whose row holds it. */
  function ExampleCover(): seq<Cube> {
    [C.MkCube({0, 1, 2, 3}), C.MkCube({0, 1, 4}), C.MkCube({0, 2, 3, 4}), C.MkCube({2, 3, 5}), C.MkCube({0, 2, 5}),
     C.MkCube({0, 3, 5}), C.MkCube({1, 2, 4})]
  }

  lemma CubesOfColumns(i: nat, p: nat)
    requires i < 7 && p < 6
    ensures p in ExampleCover()[i].parts <==> i in Core(p)
  {
  }

  lemma SingleParts(m: seq<nat>)
    requires ExampleSpace().Minterm(m)
    ensures |m| == 1 && m[0] < 6 && forall p :: In(m, p) <==> m[0] in p
  {
    assert m[0] in ExampleSpace().varMask[0];
  }

  /** The cubes with numbers. */
  ghost predicate GivenCubes(F: seq<Cube>) {
    |F| == 7 && forall i :: 0 <= i < 7 ==> F[i].size == i && F[i].parts == ExampleCover()[i].parts
  }

  lemma Another(p: nat, i: nat) returns (k: nat)
    requires p < 6
    ensures k in Core(p) && k != i
  {
    k := match p
      case 5 => if i == 3 then 4 else 3
      case 4 => if i == 1 then 2 else 1
      case _ => if i == 0 then (if p == 1 then 1 else 2) else 0;
  }

  /** Every part is held by two other cubes. */
  lemma AllRedundant(F: seq<Cube>, i: nat)
    requires GivenCubes(F) && i < 7
    ensures Redundant(ExampleSpace(), F, [], i)
  {
    var cs: Shape := ExampleSpace();
    var p := Separated(i, 7);
    CubesOfColumns(i, p);
    assert p in F[i].parts * cs.varMask[0];
    forall m | cs.Minterm(m) && In(m, F[i].parts)
      ensures exists k :: 0 <= k < |F + []| && k != i && Uses(All, (F + [])[k]) && In(m, (F + [])[k].parts)
    {
      SingleParts(m);
      var k := Another(m[0], i);
      CubesOfColumns(k, m[0]);
      assert (F + [])[k] == F[k] && Uses(All, (F + [])[k]);
    }
  }

  /** All cubes are partially redundant. */
  lemma AllPartial(F: seq<Cube>, E: seq<Cube>, Rt: seq<Cube>, Rp: seq<Cube>)
    requires GivenCubes(F) && SplitOf(ExampleSpace(), F, [], E, Rt, Rp)
    ensures (forall c :: c !in E) && forall i :: 0 <= i < 7 ==> F[i] in Rp
  {
    var cs: Shape := ExampleSpace();
    forall i | 0 <= i < 7 ensures Redundant(cs, F, [], i) {
      AllRedundant(F, i);
    }
    assert forall k :: 0 <= k < |E| ==> F[E[k].size] !in E;
    assert forall c :: c !in E;
    forall i | 0 <= i < 7 ensures F[i] in Rp {
      NotTotally(F, E, i);
    }
  }

  lemma NotTotally(F: seq<Cube>, E: seq<Cube>, i: nat)
    requires GivenCubes(F) && (forall c :: c !in E) && i < 7
    ensures !TotallyRedundant(ExampleSpace(), [], E, F[i])
  {
    var cs: Shape := ExampleSpace();
    var p := Separated(i, 7);
    CubesOfColumns(i, p);
    assert cs.Minterm([p]) && In([p], F[i].parts);
    assert forall k :: 0 <= k < |E + []| ==> (E + [])[k] in E;
  }

  lemma CompleteIsHits(F: seq<Cube>, E: seq<Cube>, Rp: seq<Cube>, S: set<nat>)
    requires GivenCubes(F) && (forall c :: c !in E) && forall i :: 0 <= i < 7 ==> F[i] in Rp
    requires forall c :: c in Rp ==> c.size < 7 && F[c.size] == c
    ensures Complete(ExampleSpace(), [], E, Rp, S, |Rp|) <==> HitsCore(S)
  {
    var cs: Shape := ExampleSpace();
    if HitsCore(S) {
      forall j, m | 0 <= j < |Rp| && cs.Minterm(m) && In(m, Rp[j].parts) ensures Chosen(m, [], E, Rp, S) {
        SingleParts(m);
        var k :| k in Core(m[0]) * S;
        CubesOfColumns(k, m[0]);
        assert F[k] in Rp && In(m, F[k].parts);
      }
    }
    if Complete(cs, [], E, Rp, S, |Rp|) {
      forall p: nat | p < 6 ensures Core(p) * S != {} {
        ChosenHits(F, E, Rp, S, p);
      }
    }
  }

  lemma ChosenHits(F: seq<Cube>, E: seq<Cube>, Rp: seq<Cube>, S: set<nat>, p: nat)
    requires GivenCubes(F) && (forall c :: c !in E) && (forall i :: 0 <= i < 7 ==> F[i] in Rp) && p < 6
    requires forall c :: c in Rp ==> c.size < 7 && F[c.size] == c
    requires Complete(ExampleSpace(), [], E, Rp, S, |Rp|)
    ensures Core(p) * S != {}
  {
    var cs: Shape := ExampleSpace();
    var i := Another(p, 7);
    CubesOfColumns(i, p);
    var j :| 0 <= j < |Rp| && Rp[j] == F[i];
    assert cs.Minterm([p]) && In([p], Rp[j].parts);
    assert AllChosen(cs, Rp[j].parts, [], E, Rp, S);
    var c :| c in Rp && c.size in S && In([p], c.parts);
    CubesOfColumns(c.size, p);
    assert [p][0] in c.parts;
    assert c.size in Core(p) * S;
  }

  /** The table of irredundant has the covers of the six rows. */
  lemma TableCored(w: Work, G: seq<Cube>)
    requires MarkedBy(ExampleSpace(), [], w, G) && GivenCubes(w.F)
    ensures Cored(w.rows)
  {
    AllPartial(w.F, w.E, w.Rt, w.Rp);
    forall c | c in w.Rp ensures c.size < 7 && w.F[c.size] == c {
      var k :| 0 <= k < |w.Rp| && w.Rp[k] == c;
    }
    forall x | x in ColsOf(w.rows) ensures x <= 6 {
      var c :| c in w.Rp && c.size == x;
    }
    forall S ensures IsCover(w.rows, S) <==> HitsCore(S) {
      CompleteIsHits(w.F, w.E, w.Rp, S);
    }
  }

  lemma SpareCube(w: Work, G: seq<Cube>)
    requires MarkedBy(ExampleSpace(), [], w, G) && GivenCubes(w.F)
    ensures !AllOwn(ExampleSpace(), ActiveOnly(G), [])
    ensures var r := ActiveOnly(G); exists k :: 0 <= k < |r| && !HasEssential(ExampleSpace(), r, [], k)
  {
    TableCored(w, G);
    SpareColumn(w.rows, w.cover);
    forall c | c in w.F ensures NonVoid(ExampleSpace(), c.parts) {
      var i :| 0 <= i < 7 && w.F[i] == c;
      AllRedundant(w.F, i);
    }
    OwnMintermsExactly(ExampleSpace(), [], w, G);
    GivesUpExactly(ExampleSpace(), [], w, G);
  }

  /**
   irredundant, run on these seven cubes, leaves a cube that the others hold: the result is not irredundant, and
   reduce_gasp would give up on it.
   */
  method RedundantCubeLeft() returns (F: Cover)
    ensures fresh(F) && SameUnion(ExampleSpace(), ExampleCover(), F.cubes, [])
    ensures !AllOwn(ExampleSpace(), F.cubes, [])
    ensures exists k :: 0 <= k < |F.cubes| && !HasEssential(ExampleSpace(), F.cubes, [], k)
  {
    F := new Cover(ExampleCover());
    ghost var work, marked := Irredundant(ExampleSpace(), F, []);
    SpareCube(work, marked);
  }
}
