/** mincov.c: the minimum column cover by branch and bound. */
module Mincov {
  import opened SortedLists
  import opened SparseMatrix
  import opened Covering
  import opened Dominance
  import opened Solution
  import opened Gimpel
  import opened Indep
  import opened Blocks
  import opened Reductions

  // ---------- solutions ----------

  /** sel and cost complete state a: what was added covers the matrix and has been paid for. */
  ghost predicate Solves(w: Weights, a: State, sel: set<nat>, cost: int) {
    && a.sel <= sel && sel - a.sel <= ColsOf(a.rows)
    && cost == a.cost + Cost(w, sel - a.sel)
    && IsCover(a.rows, sel - a.sel)
  }

  lemma SolvesVia(w: Weights, a: State, b: State, sel: set<nat>, cost: int)
    requires Disjoint(a) && Disjoint(b) && Selected(w, a, b) && Completes(a, b) && Solves(w, b, sel, cost)
    ensures Solves(w, a, sel, cost)
  {
    var c := State(map[], sel, cost);
    assert Added(b, c) == sel - b.sel;
    assert ColsOf(c.rows) == {};
    SelectedTrans(w, a, b, c);
    assert sel - a.sel == (sel - b.sel) + Added(a, b);
  }

  /** Either a cover uses column c or it does not. */
  lemma Branches(w: Weights, rows: Rows, c: nat, k: int)
    requires AtLeast(w, Uncovered(rows, c), k - WeightOf(w, c)) && AtLeast(w, DropCol(rows, c), k)
    ensures AtLeast(w, rows, k)
  {
    forall S | IsCover(rows, S) ensures k <= Cost(w, S) {
      if c in S {
        CoverWith(w, rows, c, S);
      } else {
        CoverWithout(rows, c, S);
      }
    }
  }

  /** What Divided says row by row. */
  ghost predicate Parts(rows: Rows, l: Rows, r: Rows) {
    && (forall q :: q in l ==> q in rows && rows[q] == l[q])
    && (forall q :: q in r ==> q in rows && rows[q] == r[q])
    && (forall q :: q in rows ==> q in l || q in r)
    && ColsOf(l) !! ColsOf(r)
  }

  lemma DividedParts(rows: Rows, l: Rows, r: Rows)
    requires Divided(rows, l, r)
    ensures Parts(rows, l, r)
  {
  }

  lemma CostOfBoth(w: Weights, S: set<nat>, A: set<nat>, B: set<nat>)
    requires A !! B
    ensures Cost(w, S * A) + Cost(w, S * B) <= Cost(w, S)
  {
    CostUnion(w, S * A, S * B);
    CostSubset(w, S * A + S * B, S);
  }

  /** Two blocks are covered independently. */
  lemma BlockCosts(w: Weights, rows: Rows, l: Rows, r: Rows, k1: int, k2: int)
    requires Parts(rows, l, r) && AtLeast(w, l, k1) && AtLeast(w, r, k2)
    ensures AtLeast(w, rows, k1 + k2)
  {
    forall S | IsCover(rows, S) ensures k1 + k2 <= Cost(w, S) {
      CoverPart(rows, l, S);
      CoverPart(rows, r, S);
      CostOfBoth(w, S, ColsOf(l), ColsOf(r));
    }
  }

  lemma CoverPart(rows: Rows, part: Rows, S: set<nat>)
    requires IsCover(rows, S) && forall r :: r in part ==> r in rows && rows[r] == part[r]
    ensures IsCover(part, S * ColsOf(part))
  {
    forall r | r in part ensures Hit(part[r], S * ColsOf(part)) {
      assert Hit(rows[r], S);
      var c :| c in rows[r] && c in S;
      assert c in ColsOf(part);
    }
  }

  lemma CoverBoth(rows: Rows, l: Rows, r: Rows, N: set<nat>, T: set<nat>)
    requires Parts(rows, l, r) && IsCover(l, N) && IsCover(r, T)
    ensures IsCover(rows, T + N)
  {
    forall q | q in rows ensures Hit(rows[q], T + N) {
      if q in l {
        assert Hit(l[q], N);
      } else {
        assert Hit(r[q], T);
      }
    }
  }

  /** What is left to pay for block r once block l has been covered by N. */
  lemma BlockLowerBound(w: Weights, rows: Rows, l: Rows, r: Rows, N: set<nat>, k: int)
    requires Parts(rows, l, r) && AtLeast(w, rows, k) && IsCover(l, N)
    ensures AtLeast(w, r, k - Cost(w, N))
  {
    forall T | IsCover(r, T) ensures k - Cost(w, N) <= Cost(w, T) {
      CostAdded(w, T, N);
      CoverBoth(rows, l, r, N, T);
    }
  }

  lemma BlockCols(rows: Rows, l: Rows, r: Rows)
    requires Parts(rows, l, r)
    ensures ColsOf(rows) == ColsOf(l) + ColsOf(r)
  {
    forall c | c in ColsOf(rows) ensures c in ColsOf(l) + ColsOf(r) {
      var q :| q in rows && c in rows[q];
      assert q in l || q in r;
    }
  }

  /** The state in which block l has been covered by N and block r is left. */
  lemma BlockState(w: Weights, a: State, l: Rows, r: Rows, N: set<nat>)
    requires Disjoint(a) && Parts(a.rows, l, r) && IsCover(l, N) && N <= ColsOf(l)
    ensures var b := State(r, a.sel + N, a.cost + Cost(w, N)); Disjoint(b) && Selected(w, a, b) && Completes(a, b)
  {
    var b := State(r, a.sel + N, a.cost + Cost(w, N));
    BlockCols(a.rows, l, r);
    assert Added(a, b) == N;
    forall S | IsCover(r, S) ensures IsCover(a.rows, S + Added(a, b)) {
      CoverBoth(a.rows, l, r, N, S);
    }
  }

  /** All columns together are a cover. */
  lemma AllColumnsCover(rows: Rows)
    requires forall r :: r in rows ==> rows[r] != []
    ensures IsCover(rows, ColsOf(rows))
  {
    forall r | r in rows ensures Hit(rows[r], ColsOf(rows)) {
      assert rows[r][0] in rows[r];
    }
  }

  // ---------- branch and bound ----------

  /** What a column is worth: the fewer other columns a row has, the more it counts. */
  ghost function Value(rows: Rows, list: seq<nat>): (v: real)
    requires forall r :: r in list ==> r in rows && |rows[r]| >= 2
    ensures v >= 0.0 && (list != [] ==> v > 0.0)
  {
    if list == [] then 0.0 else
      var n := |list| - 1;
      Value(rows, list[..n]) + 1.0 / (|rows[list[n]]| as real - 1.0)
  }

  /** Value v at weight m is a better ratio than value u at weight n; anything is best that costs nothing. */
  predicate Better(v: real, m: nat, u: real, n: nat) {
    v * n as real > u * m as real
  }

  lemma StaysBest(v: real, m: nat, u: real, n: nat, t: real, k: nat)
    requires v >= 0.0 && u >= 0.0 && t >= 0.0 && Better(v, m, u, n) && !Better(t, k, u, n)
    ensures !Better(t, k, v, m)
  {
    var a, b, c := m as real, n as real, k as real;
    assert u * a >= 0.0 by { Products(u, a); }
    assert b > 0.0 by { assert b == 0.0 ==> v * b == 0.0; }
    // From t * b <= u * c and u * a < v * b follows t * a <= v * c.
    Times3(t * b, u * c, a);
    Times3(u * a, v * b, c);
    assert (t * a) * b == (t * b) * a && (u * c) * a == (u * a) * c && (v * b) * c == (v * c) * b;
    Cancel(t * a, v * c, b);
  }

  lemma Products(x: real, y: real)
    requires x >= 0.0 && y >= 0.0
    ensures x * y >= 0.0
  {
  }

  lemma Times3(x: real, y: real, z: real)
    requires x <= y && z >= 0.0
    ensures x * z <= y * z
  {
  }

  lemma Cancel(x: real, y: real, z: real)
    requires x * z <= y * z && z > 0.0
    ensures x <= y
  {
  }

  /** The value of column c. */
  method ColumnValue(A: SmMatrix, c: nat) returns (v: real)
    requires A.Valid() && c in A.cols && forall r :: r in A.rows ==> |A.rows[r]| >= 2
    ensures v == Value(A.rows, A.cols[c])
  {
    var list := A.cols[c];
    v := 0.0;
    for k := 0 to |list|
      invariant v == Value(A.rows, list[..k])
    {
      assert list[..k + 1][..k] == list[..k];
      assert list[k] in list;
      v := v + 1.0 / (|A.rows[list[k]]| as real - 1.0);
    }
    assert list[..|list|] == list;
  }

  /** Column c is in one of the first n rows listed. */
  ghost predicate InSome(rows: Rows, list: seq<nat>, n: nat, c: nat) {
    exists k :: 0 <= k < |list| && k < n && list[k] in rows && c in rows[list[k]]
  }

  /** The columns of the independent rows. */
  method IndepColumns(A: SmMatrix, indep: Sol) returns (cols: seq<nat>)
    requires A.Valid() && Independent(A.rows, indep.row)
    ensures Sorted(cols) && forall c :: c in cols <==> InSome(A.rows, indep.row, |indep.row|, c)
  {
    cols := [];
    for k := 0 to |indep.row|
      invariant Sorted(cols) && forall c :: c in cols <==> InSome(A.rows, indep.row, k, c)
    {
      assert indep.row[k] in indep.row;
      var prow := A.rows[indep.row[k]];
      ghost var before := cols;
      for j := 0 to |prow|
        invariant Sorted(cols) && forall c :: c in cols <==> c in before || c in prow[..j]
      {
        assert prow[..j + 1] == prow[..j] + [prow[j]];
        var isNew;
        cols, isNew := SortedInsert(cols, prow[j]);
      }
      assert prow[..|prow|] == prow;
      forall c ensures c in cols <==> InSome(A.rows, indep.row, k + 1, c) {
        assert c in prow ==> indep.row[k] in A.rows && c in A.rows[indep.row[k]];
      }
    }
  }

  /** No column c is worth more for its weight than pick, and no earlier one as much. */
  ghost predicate NotBefore(rows: Rows, cols: Rows, w: Weights, pick: nat, c: nat)
    requires Mirrored(rows, cols) && (forall r :: r in rows ==> |rows[r]| >= 2) && pick in cols && c in cols
  {
    var v, u := Value(rows, cols[pick]), Value(rows, cols[c]);
    && !Better(u, WeightOf(w, c), v, WeightOf(w, pick))
    && (c < pick ==> Better(v, WeightOf(w, pick), u, WeightOf(w, c)))
  }

  lemma NextBest(rows: Rows, cols: Rows, w: Weights, pick: nat, c: nat, next: nat)
    requires Mirrored(rows, cols) && (forall r :: r in rows ==> |rows[r]| >= 2) && pick in cols && c in cols &&
      next in cols
    requires NotBefore(rows, cols, w, pick, c) && c < next && cols[c] != [] && cols[next] != []
    requires Better(Value(rows, cols[next]), WeightOf(w, next), Value(rows, cols[pick]), WeightOf(w, pick))
    ensures NotBefore(rows, cols, w, next, c)
  {
    var v, u, t := Value(rows, cols[next]), Value(rows, cols[pick]), Value(rows, cols[c]);
    StaysBest(v, WeightOf(w, next), u, WeightOf(w, pick), t, WeightOf(w, c));
    StrictlyBest(v, WeightOf(w, next), u, WeightOf(w, pick), t, WeightOf(w, c));
  }

  lemma StrictlyBest(v: real, m: nat, u: real, n: nat, t: real, k: nat)
    requires v > 0.0 && u >= 0.0 && t > 0.0 && Better(v, m, u, n) && !Better(t, k, u, n)
    ensures Better(v, m, t, k)
  {
    var a, b, c := m as real, n as real, k as real;
    assert u * a >= 0.0 by { Products(u, a); }
    assert b > 0.0 by { assert b == 0.0 ==> v * b == 0.0; }
    assert c > 0.0 by {
      StrictTimes(0.0, t, b);
      assert c == 0.0 ==> u * c == 0.0;
    }
    // From t * b <= u * c and u * a < v * b follows t * a < v * c.
    Times3(t * b, u * c, a);
    StrictTimes(u * a, v * b, c);
    assert (t * a) * b == (t * b) * a && (u * c) * a == (u * a) * c && (v * b) * c == (v * c) * b;
    StrictCancel(t * a, v * c, b);
  }

  lemma StrictCancel(x: real, y: real, z: real)
    requires x * z < y * z && z > 0.0
    ensures x < y
  {
    if x >= y {
      Times3(y, x, z);
    }
  }

  lemma StrictTimes(x: real, y: real, z: real)
    requires x < y && z > 0.0
    ensures x * z < y * z
  {
  }

  /**
   select_column -- the best ratio of value and weight among the columns of the independent rows, the first of
   several.
   */
  method SelectColumn(A: SmMatrix, w: Weights, indep: Sol) returns (pick: int)
    requires A.Valid() && Independent(A.rows, indep.row) && forall r :: r in A.rows ==> |A.rows[r]| >= 2
    ensures indep.row != [] ==> pick >= 0 && pick in A.cols && InSome(A.rows, indep.row, |indep.row|, pick)
    ensures pick >= 0 ==> pick in A.cols && forall c :: InSome(A.rows, indep.row, |indep.row|, c) ==>
              c in A.cols && NotBefore(A.rows, A.cols, w, pick, c)
  {
    hide Value, WeightOf, Sorted;
    var cols := IndepColumns(A, indep);
    forall c | c in cols ensures c in A.cols {
    }
    pick := -1;
    var best := 0.0;
    for k := 0 to |cols|
      invariant k > 0 <==> pick >= 0
      invariant pick >= 0 ==> pick in cols[..k] && pick in A.cols && best == Value(A.rows, A.cols[pick])
      invariant pick >= 0 ==> forall j :: 0 <= j < k ==> NotBefore(A.rows, A.cols, w, pick, cols[j])
    {
      var c := cols[k];
      assert c in cols && c in A.cols;
      var v := ColumnValue(A, c);
      if pick < 0 || Better(v, WeightOf(w, c), best, WeightOf(w, pick)) {
        forall j | 0 <= j < k ensures NotBefore(A.rows, A.cols, w, c, cols[j]) {
          NextBest(A.rows, A.cols, w, pick, cols[j], c);
        }
        pick, best := c, v;
      }
    }
    if indep.row != [] {
      assert indep.row[0] in indep.row;
      assert A.rows[indep.row[0]][0] in A.rows[indep.row[0]];
      assert InSome(A.rows, indep.row, |indep.row|, A.rows[indep.row[0]][0]);
    }
  }

  /** Add every column of a solution to the selected set. */
  method AddAll(select: Sol, w: Weights, cols: seq<nat>)
    requires Sorted(select.row) && Sorted(cols)
    modifies select
    ensures Sorted(select.row) && Elems(select.row) == Elems(old(select.row)) + Elems(cols)
    ensures select.cost == old(select.cost) + Cost(w, Elems(cols))
  {
    for k := 0 to |cols|
      invariant Sorted(select.row) && Elems(select.row) == Elems(old(select.row)) + Elems(cols[..k])
      invariant select.cost == old(select.cost) + Cost(w, Elems(cols[..k]))
    {
      assert cols[..k + 1] == cols[..k] + [cols[k]];
      assert Elems(cols[..k + 1]) == Elems(cols[..k]) + {cols[k]};
      assert cols[k] !in cols[..k];
      CostUnion(w, Elems(cols[..k]), {cols[k]});
      CostSingle(w, cols[k]);
      select.Add(w, cols[k]);
    }
    assert cols[..|cols|] == cols;
  }

  /** What a call of sm_mincov came back with. */
  datatype Outcome = Nil | Best(sel: set<nat>, cost: int)

  ghost function OutcomeOf(best: Sol?): Outcome
    reads best
  {
    if best == null then Nil else Best(Elems(best.row), best.cost)
  }

  /** A budget that leaves room for all the columns cannot run out. */
  ghost predicate Ample(w: Weights, a: State, lb: int, bound: int) {
    lb < bound && a.cost + Cost(w, ColsOf(a.rows)) < bound
  }

  /**
   The promise of sm_mincov.  A solution completes a for less than bound, and NIL is not returned when the
   budget is ample.  In exact (branching) mode a solution is optimal, and NIL means that none beats bound.
   */
  ghost predicate Correct(w: Weights, a: State, exact: bool, lb: int, bound: int, o: Outcome) {
    match o
    case Nil =>
      && !Ample(w, a, lb, bound)
      && (exact ==> AtLeast(w, a.rows, bound - a.cost))
    case Best(sel, cost) =>
      && Solves(w, a, sel, cost) && cost < bound
      && (exact ==> AtLeast(w, a.rows, cost - a.cost))
  }

  /** A matrix of at most one row leaves nothing to choose: the solution is optimal in either mode. */
  ghost predicate SolvedByReductions(w: Weights, rowCount: nat, a: State, lb: int, bound: int, o: Outcome) {
    w == Unit && rowCount <= 1 && lb <= a.cost ==> Correct(w, a, true, lb, bound, o)
  }

  /** Some column of a thick matrix is not selected. */
  ghost predicate Spares(a: State, o: Outcome) {
    Thick(a.rows) && o.Best? ==> !(ColsOf(a.rows) <= o.sel)
  }

  // ---------- the run in heuristic mode ----------

  ghost predicate ForcedIn(rows: Rows, S: set<nat>) {
    forall d :: Forced(rows, d) ==> d in S
  }

  /** The columns bound to be selected are. */
  ghost predicate SelectsForced(w: Weights, a: State, o: Outcome) {
    w == Unit && o.Best? ==> ForcedIn(a.rows, o.sel)
  }

  /** The matrix does not fall apart. */
  ghost predicate Undivided(rows: Rows) {
    forall l, r :: Parts(rows, l, r) ==> l == map[] || r == map[]
  }

  /** Three columns in every row, in one piece: neither Gimpel's reduction nor the partition applies. */
  ghost predicate Knotted(rows: Rows) {
    rows != map[] && (forall r :: r in rows ==> |rows[r]| >= 3) && Undivided(rows)
  }

  /** Column pick has the best ratio among the columns of a maximal set of disjoint rows. */
  ghost predicate PickedBy(rows: Rows, cols: Rows, indep: seq<nat>, pick: nat) {
    && Mirrored(rows, cols) && Cyclic(rows) && (forall c :: c in cols ==> Sorted(cols[c]))
    && Independent(rows, indep) && (forall q :: q in rows ==> MeetsChosen(rows, indep, q))
    && pick in cols && InSome(rows, indep, |indep|, pick)
    && forall c :: InSome(rows, indep, |indep|, c) ==> c in cols && NotBefore(rows, cols, Unit, pick, c)
  }

  /** The first column chosen is selected, and then those bound to be selected in what it leaves. */
  ghost predicate Starts(rows: Rows, S: set<nat>) {
    exists cols, indep, pick ::
      PickedBy(rows, cols, indep, pick) && pick in S && ForcedIn(Uncovered(rows, pick), S)
  }

  ghost predicate StartsKnotted(w: Weights, a: State, heuristic: bool, o: Outcome) {
    w == Unit && heuristic && o.Best? && Knotted(a.rows) ==> Starts(a.rows, o.sel)
  }

  /** As Knotted, for whatever is left when rows go that are not needed, while nothing else can go. */
  ghost predicate StaysKnotted(rows: Rows) {
    Firm(Unit, rows) && forall sub :: FewerRows(rows, sub) ==> Knotted(sub)
  }

  /** The heuristic run on a matrix with such a core. */
  ghost predicate HeuristicRun(rows: Rows, S: set<nat>) {
    StaysKnotted(rows) ==> exists sub :: FewerRows(rows, sub) && Starts(sub, S)
  }

  /** What the reductions found, and what was chosen after them. */
  lemma RunVia(w: Weights, a: State, b: State, heuristic: bool, o: Outcome)
    requires Stage(w, a, b) && StartsKnotted(w, b, heuristic, o) && (o.Best? ==> b.sel <= o.sel)
    requires w == Unit && o.Best? ==> forall d :: !Forced(b.rows, d)
    ensures SelectsForced(w, a, o) && (w == Unit && heuristic && o.Best? ==> HeuristicRun(a.rows, o.sel))
  {
  }

  lemma SparesVia(w: Weights, a: State, b: State, o: Outcome)
    requires Thins(a, b) && Spares(b, o) && (o.Best? ==> Solves(w, b, o.sel, o.cost))
    ensures Spares(a, o)
  {
    if Thick(a.rows) && o.Best? && Leaves(a, b) {
      var x :| x in ColsOf(a.rows) && x !in b.sel + ColsOf(b.rows);
      assert x !in o.sel;
    }
  }

  /** The column given up for c1 or c2. */
  lemma GimpelSpares(a: State, p: nat, s: nat, c1: nat, c2: nat, after: Rows, sel: set<nat>, cost: int, c: nat)
    requires Disjoint(a) && Applies(a.rows, p, s, c1, c2) && Reduced(a.rows, p, s, c1, c2, after) && c in {c1, c2}
    requires Solves(Unit, State(after, a.sel, a.cost), sel, cost)
    ensures Spares(a, Best(sel + {c}, cost + 1))
  {
    GimpelCols(a.rows, p, s, c1, c2, after);
    var d := if c == c1 then c2 else c1;
    assert d in ColsOf(a.rows) && d !in a.sel && d !in ColsOf(after);
    assert d !in sel + {c};
  }

  /** What is left out of one block is left out of both. */
  lemma BlockSpares(w: Weights, a: State, l: Rows, r: Rows, N: set<nat>, o: Outcome)
    requires Disjoint(a) && Parts(a.rows, l, r) && l != map[] && (Thick(l) ==> !(ColsOf(l) <= N))
    requires o.Best? ==> Solves(w, State(r, a.sel + N, a.cost + Cost(w, N)), o.sel, o.cost)
    ensures Spares(a, o)
  {
    if Thick(a.rows) && o.Best? {
      assert Thick(l);
      BlockCols(a.rows, l, r);
      var x :| x in ColsOf(l) && x !in N;
      assert x !in o.sel;
    }
  }

  /** Either the rest is thick, or a row of the accepted column is. */
  lemma AcceptSpares(w: Weights, a: State, c: nat, o: Outcome)
    requires Disjoint(a) && c in ColsOf(a.rows) && Spares(AcceptState(w, a, c), o)
    requires o.Best? ==> Solves(w, AcceptState(w, a, c), o.sel, o.cost)
    ensures Spares(a, o)
  {
    if Thick(a.rows) && o.Best? {
      var b := AcceptState(w, a, c);
      if b.rows == map[] {
        var r :| r in a.rows && c in a.rows[r];
        var x := if a.rows[r][0] == c then a.rows[r][1] else a.rows[r][0];
        assert x in a.rows[r] && x in ColsOf(a.rows) && ColsOf(b.rows) == {};
        assert x !in o.sel;
      } else {
        assert Thick(b.rows);
        var x :| x in ColsOf(b.rows) && x !in o.sel;
        assert x in ColsOf(a.rows);
      }
    }
  }

  lemma CorrectVia(w: Weights, a: State, b: State, exact: bool, lb: int, bound: int, o: Outcome)
    requires Disjoint(a) && Disjoint(b) && Reduces(w, a, b) && Correct(w, b, exact, lb, bound, o)
    ensures Correct(w, a, exact, lb, bound, o)
  {
    match o
    case Nil =>
      SelectedBudget(w, a, b);
    case Best(sel, cost) =>
      SolvesVia(w, a, b, sel, cost);
  }

  lemma Bounded(w: Weights, a: State, exact: bool, lb: int, bound: int, lbNew: int)
    requires lbNew >= bound && (exact ==> AtLeast(w, a.rows, lbNew - a.cost))
    requires lbNew == lb || AtLeast(w, a.rows, lbNew - a.cost)
    requires forall r :: r in a.rows ==> a.rows[r] != []
    ensures Correct(w, a, exact, lb, bound, Nil)
  {
    AllColumnsCover(a.rows);
  }

  lemma NothingLeft(w: Weights, a: State, exact: bool, lb: int, bound: int)
    requires a.rows == map[] && a.cost < bound
    ensures Correct(w, a, exact, lb, bound, Best(a.sel, a.cost))
  {
    assert a.sel - a.sel == {};
  }

  // ---------- partition ----------

  lemma LeftFails(w: Weights, a: State, l: Rows, r: Rows, exact: bool, lb: int, bound: int)
    requires Disjoint(a) && Parts(a.rows, l, r) && 0 <= bound - a.cost
    requires Correct(w, State(l, {}, 0), exact, 0, bound - a.cost, Nil)
    requires 0 < bound - a.cost
    ensures Correct(w, a, exact, lb, bound, Nil)
  {
    BlockCols(a.rows, l, r);
    CostSubset(w, ColsOf(l), ColsOf(a.rows));
    if exact {
      BlockCosts(w, a.rows, l, r, bound - a.cost, 0);
    }
  }

  lemma RightDecides(w: Weights, a: State, l: Rows, r: Rows, N: set<nat>, exact: bool, lb: int, lbNew: int, bound: int,
                     o: Outcome)
    requires Disjoint(a) && Parts(a.rows, l, r) && IsCover(l, N) && N <= ColsOf(l)
    requires exact ==> AtLeast(w, l, Cost(w, N))
    requires Correct(w, State(r, a.sel + N, a.cost + Cost(w, N)), exact, lbNew, bound, o)
    requires lbNew < bound
    ensures Correct(w, a, exact, lb, bound, o)
  {
    var b := State(r, a.sel + N, a.cost + Cost(w, N));
    BlockState(w, a, l, r, N);
    match o
    case Nil =>
      SelectedBudget(w, a, b);
      if exact {
        BlockCosts(w, a.rows, l, r, Cost(w, N), bound - b.cost);
      }
    case Best(sel, cost) =>
      SolvesVia(w, a, b, sel, cost);
      if exact {
        BlockCosts(w, a.rows, l, r, Cost(w, N), cost - b.cost);
      }
  }

  // ---------- branching ----------

  /** Results from the branch that selects column c carry over. */
  lemma AcceptBranch(w: Weights, a: State, c: nat, exact: bool, lb: int, lbNew: int, bound: int, o: Outcome)
    requires Disjoint(a) && c in ColsOf(a.rows) && lbNew < bound
    requires Correct(w, AcceptState(w, a, c), exact, lbNew, bound, o)
    ensures o.Nil? ==> !Ample(w, a, lb, bound)
    ensures o.Nil? && exact ==> AtLeast(w, Uncovered(a.rows, c), bound - a.cost - WeightOf(w, c))
    ensures o.Best? ==> Solves(w, a, o.sel, o.cost) && o.cost < bound
    ensures o.Best? && exact ==> AtLeast(w, Uncovered(a.rows, c), o.cost - a.cost - WeightOf(w, c))
  {
    var b := AcceptState(w, a, c);
    AcceptSelects(w, a, c);
    match o
    case Nil =>
      SelectedBudget(w, a, b);
    case Best(sel, cost) =>
      SolvesVia(w, a, b, sel, cost);
  }

  ghost function RejectState(a: State, c: nat): State {
    State(DropCol(a.rows, c), a.sel, a.cost)
  }

  lemma RejectSelects(w: Weights, a: State, c: nat)
    requires Disjoint(a) && forall r :: r in a.rows ==> |a.rows[r]| >= 2 && Sorted(a.rows[r])
    ensures Selected(w, a, RejectState(a, c)) && Completes(a, RejectState(a, c)) && Disjoint(RejectState(a, c))
    ensures c !in ColsOf(DropCol(a.rows, c))
  {
    var b := RejectState(a, c);
    assert Added(a, b) == {};
    forall r | r in a.rows ensures Without(a.rows[r], c) != [] {
      var x := if a.rows[r][0] == c then a.rows[r][1] else a.rows[r][0];
      assert x in a.rows[r] && x in Without(a.rows[r], c);
    }
    forall S | IsCover(b.rows, S) ensures IsCover(a.rows, S + Added(a, b)) {
      RejectCovers(a.rows, c, S);
      assert S + Added(a, b) == S;
    }
  }

  /** Results from the branch that rejects column c carry over. */
  lemma RejectBranch(w: Weights, a: State, c: nat, lbNew: int, bound: int, o: Outcome)
    requires Disjoint(a) && forall r :: r in a.rows ==> |a.rows[r]| >= 2 && Sorted(a.rows[r])
    requires c in ColsOf(a.rows) && Correct(w, RejectState(a, c), true, lbNew, bound, o)
    ensures Spares(a, o)
    ensures o.Nil? ==> AtLeast(w, DropCol(a.rows, c), bound - a.cost)
    ensures o.Best? ==> Solves(w, a, o.sel, o.cost) && o.cost < bound && AtLeast(w, DropCol(a.rows, c), o.cost - a.cost)
  {
    RejectSelects(w, a, c);
    if o.Best? {
      SolvesVia(w, a, RejectState(a, c), o.sel, o.cost);
      assert c !in o.sel;
    }
  }

  /** The state without column c is a smaller problem with the same lower bound. */
  lemma RejectReady(w: Weights, a: State, c: nat, lbNew: int)
    requires Disjoint(a) && c in ColsOf(a.rows) && AtLeast(w, a.rows, lbNew - a.cost)
    requires forall r :: r in a.rows ==> |a.rows[r]| >= 2 && Sorted(a.rows[r])
    ensures Disjoint(RejectState(a, c)) && |ColsOf(DropCol(a.rows, c))| < |ColsOf(a.rows)|
    ensures AtLeast(w, DropCol(a.rows, c), lbNew - a.cost)
  {
    RejectSelects(w, a, c);
    FewerColumns(DropCol(a.rows, c), a.rows, c);
    LowerBoundKept(w, a, RejectState(a, c), lbNew);
  }

  lemma AtLeastLess(w: Weights, rows: Rows, k: int, j: int)
    requires AtLeast(w, rows, k) && j <= k
    ensures AtLeast(w, rows, j)
  {
  }

  /** The cost that outcome o rules out beating. */
  ghost function Limit(o: Outcome, bound: int): int {
    if o.Nil? then bound else o.cost
  }

  /** What the two branches rule out, neither can beat. */
  lemma BothBranches(w: Weights, a: State, c: nat, k1: int, k: int)
    requires AtLeast(w, Uncovered(a.rows, c), k1 - a.cost - WeightOf(w, c)) && k <= k1
    requires AtLeast(w, DropCol(a.rows, c), k - a.cost)
    ensures AtLeast(w, a.rows, k - a.cost)
  {
    AtLeastLess(w, Uncovered(a.rows, c), k1 - a.cost - WeightOf(w, c), k - a.cost - WeightOf(w, c));
    Branches(w, a.rows, c, k - a.cost);
  }

  // ---------- Gimpel's step ----------

  lemma GimpelCols(rows: Rows, p: nat, s: nat, c1: nat, c2: nat, after: Rows)
    requires Applies(rows, p, s, c1, c2) && Reduced(rows, p, s, c1, c2, after)
    ensures ColsOf(after) <= ColsOf(rows) - {c1, c2}
    ensures c1 in ColsOf(rows) && c2 in ColsOf(rows)
  {
    forall c | c in ColsOf(after) ensures c in ColsOf(rows) - {c1, c2} {
      var r :| r in after && c in after[r];
      assert ReducedRow(rows[r], rows[s], c1, c2, after[r]);
    }
    assert c1 in rows[p] && c2 in rows[p];
  }

  /** A budget that is ample stays ample, with one unit less, when c1 and c2 disappear. */
  lemma GimpelBudget(a: State, after: Rows, c1: nat, c2: nat, lb: int, bound: int)
    requires ColsOf(after) <= ColsOf(a.rows) - {c1, c2} && c1 != c2 && c1 in ColsOf(a.rows) && c2 in ColsOf(a.rows)
    requires Ample(Unit, a, lb, bound)
    ensures Ample(Unit, State(after, a.sel, a.cost), lb - 1, bound - 1)
  {
    var rest := ColsOf(a.rows) - {c1, c2};
    CostSubset(Unit, ColsOf(after), rest);
    CostUnion(Unit, rest, {c1, c2});
    assert rest + {c1, c2} == ColsOf(a.rows);
    UnitCost({c1, c2});
  }

  lemma AddedOne(sel: set<nat>, base: set<nat>, c: nat)
    requires c !in base
    ensures sel + {c} - base == sel - base + {c}
  {
  }

  lemma SecondaryFresh(a: State, s: nat, c1: nat)
    requires Disjoint(a) && s in a.rows
    ensures forall x :: x in Without(a.rows[s], c1) ==> x !in a.sel
  {
    forall x | x in Without(a.rows[s], c1) ensures x !in a.sel {
      assert x in a.rows[s] && x in ColsOf(a.rows);
    }
  }

  lemma HitAdded(row: seq<nat>, base: set<nat>, sel: set<nat>)
    requires forall x :: x in row ==> x !in base
    ensures Hit(row, sel) <==> Hit(row, sel - base)
  {
  }

  /** One more column, at unit weight. */
  lemma SolvesPlus(a: State, sel: set<nat>, cost: int, c: nat)
    requires a.sel <= sel && sel - a.sel <= ColsOf(a.rows) && cost == a.cost + Cost(Unit, sel - a.sel)
    requires c !in a.sel && c !in sel && c in ColsOf(a.rows)
    requires IsCover(a.rows, sel - a.sel + {c})
    ensures Solves(Unit, a, sel + {c}, cost + 1)
  {
    AddedOne(sel, a.sel, c);
    CostUnion(Unit, sel - a.sel, {c});
    CostSingle(Unit, c);
  }

  /** The outcome for the reduced matrix, with the column chosen for the primary row, is right for the original one. */
  lemma GimpelSolves(a: State, p: nat, s: nat, c1: nat, c2: nat, after: Rows, sel: set<nat>, cost: int, c: nat)
    requires Disjoint(a) && Applies(a.rows, p, s, c1, c2) && Reduced(a.rows, p, s, c1, c2, after)
    requires Solves(Unit, State(after, a.sel, a.cost), sel, cost)
    requires c == if Hit(Without(a.rows[s], c1), sel) then c2 else c1
    ensures Solves(Unit, a, sel + {c}, cost + 1)
  {
    GimpelCols(a.rows, p, s, c1, c2, after);
    SecondaryFresh(a, s, c1);
    HitAdded(Without(a.rows[s], c1), a.sel, sel);
    CoverExtends(a.rows, p, s, c1, c2, after, sel - a.sel);
    assert c !in sel by {
      assert c !in a.sel && c !in ColsOf(after);
    }
    SolvesPlus(a, sel, cost, c);
  }

  lemma GimpelNil(a: State, p: nat, s: nat, c1: nat, c2: nat, after: Rows, exact: bool, lb: int, bound: int)
    requires Disjoint(a) && Applies(a.rows, p, s, c1, c2) && Reduced(a.rows, p, s, c1, c2, after)
    requires Correct(Unit, State(after, a.sel, a.cost), exact, lb - 1, bound - 1, Nil)
    ensures Correct(Unit, a, exact, lb, bound, Nil)
  {
    GimpelCols(a.rows, p, s, c1, c2, after);
    if Ample(Unit, a, lb, bound) {
      GimpelBudget(a, after, c1, c2, lb, bound);
    }
    MinimumDrops(a.rows, p, s, c1, c2, after, bound - 1 - a.cost);
  }

  lemma GimpelBest(a: State, p: nat, s: nat, c1: nat, c2: nat, after: Rows, exact: bool, lb: int, bound: int,
                   sel: set<nat>, cost: int, c: nat)
    requires Disjoint(a) && Applies(a.rows, p, s, c1, c2) && Reduced(a.rows, p, s, c1, c2, after)
    requires Correct(Unit, State(after, a.sel, a.cost), exact, lb - 1, bound - 1, Best(sel, cost))
    requires c == if Hit(Without(a.rows[s], c1), sel) then c2 else c1
    ensures Correct(Unit, a, exact, lb, bound, Best(sel + {c}, cost + 1))
  {
    GimpelSolves(a, p, s, c1, c2, after, sel, cost, c);
    MinimumDrops(a.rows, p, s, c1, c2, after, cost - a.cost);
  }

  // ---------- the solver ----------

  /** gimpel_reduce -- the result is false when the technique does not apply. */
  method GimpelReduce(A: SmMatrix, select: Sol, lb: int, bound: int, noBranching: bool)
    returns (applied: bool, best: Sol?)
    requires Ready(A, select) && Cyclic(A.rows)
    requires !noBranching ==> AtLeast(Unit, A.rows, lb - select.cost)
    modifies A, select
    ensures !applied ==> unchanged(A) && unchanged(select)
    ensures old(A.rows) == map[] || (forall r :: r in old(A.rows) ==> |old(A.rows)[r]| >= 3) ==> !applied
    ensures applied && best != null ==> fresh(best) && Sorted(best.row)
    ensures applied ==> Correct(Unit, old(StateOf(A, select)), !noBranching, lb, bound, OutcomeOf(best))
    ensures applied ==> Spares(old(StateOf(A, select)), OutcomeOf(best))
    decreases |ColsOf(A.rows)|, 0
  {
    hide Sorted, Correct, OutcomeOf, Spares, ColsOf, Undominated, Applies, NotPrimary, Reduced, Without;
    var p, s, c1, c2;
    applied, p, s, c1, c2 := FindPrimary(A);
    if !applied {
      return false, null;
    }
    ghost var a := StateOf(A, select);
    PairRow(A.rows, p, s, c1, c2);
    var saveSec := Rewrite(A, p, s, c1, c2);
    GimpelCols(a.rows, p, s, c1, c2, A.rows);
    FewerColumns(A.rows, a.rows, c1);
    best := SolveReduced(A, select, lb, bound, noBranching, a, p, s, c1, c2, saveSec);
  }

  lemma PairRow(rows: Rows, p: nat, s: nat, c1: nat, c2: nat)
    requires Applies(rows, p, s, c1, c2) && Sorted(rows[p])
    ensures |rows[p]| <= 2
  {
    SortedLength(rows[p]);
    assert Elems(rows[p]) == {c1, c2};
  }

  /** The reduced problem: whatever solves it is completed by c1 or c2. */
  method SolveReduced(A: SmMatrix, select: Sol, lb: int, bound: int, noBranching: bool, ghost a: State, ghost p: nat,
                      s: nat, c1: nat, c2: nat, saveSec: seq<nat>) returns (best: Sol?)
    requires Ready(A, select) && Disjoint(a) && StateOf(A, select) == State(A.rows, a.sel, a.cost)
    requires Applies(a.rows, p, s, c1, c2) && Reduced(a.rows, p, s, c1, c2, A.rows)
    requires saveSec == Without(a.rows[s], c1) && Sorted(saveSec) && |ColsOf(A.rows)| < |ColsOf(a.rows)|
    requires !noBranching ==> AtLeast(Unit, a.rows, lb - a.cost)
    modifies A, select
    ensures best != null ==> fresh(best) && Sorted(best.row)
    ensures Correct(Unit, a, !noBranching, lb, bound, OutcomeOf(best)) && Spares(a, OutcomeOf(best))
    decreases |ColsOf(A.rows)|, 6
  {
    ghost var after := A.rows;
    if !noBranching {
      MinimumDrops(a.rows, p, s, c1, c2, after, lb - 1 - a.cost);
    }
    best := SmMincov(A, select, Unit, lb - 1, bound - 1, noBranching);
    if best != null {
      var c := ChooseGimpelColumn(saveSec, best.row, c1, c2);
      GimpelBest(a, p, s, c1, c2, after, !noBranching, lb, bound, Elems(best.row), best.cost, c);
      GimpelSpares(a, p, s, c1, c2, after, Elems(best.row), best.cost, c);
      best.Add(Unit, c);
    } else {
      GimpelNil(a, p, s, c1, c2, after, !noBranching, lb, bound);
    }
  }

  /** Is the secondary row covered?  Then c2 is selected, otherwise c1. */
  method ChooseGimpelColumn(saveSec: seq<nat>, row: seq<nat>, c1: nat, c2: nat) returns (c: nat)
    requires Sorted(saveSec) && Sorted(row)
    ensures c == if Hit(saveSec, Elems(row)) then c2 else c1
  {
    var hit := ListIntersects(saveSec, row);
    c := if hit then c2 else c1;
  }

  lemma FewerColumns(after: Rows, before: Rows, c: nat)
    requires ColsOf(after) <= ColsOf(before) - {c} && c in ColsOf(before)
    ensures |ColsOf(after)| < |ColsOf(before)|
  {
    var x, y := ColsOf(after), ColsOf(before);
    assert y == x + (y - x);
    assert c in y - x;
  }

  lemma NoMoreColumns(after: Rows, before: Rows)
    requires ColsOf(after) <= ColsOf(before)
    ensures |ColsOf(after)| <= |ColsOf(before)|
  {
    var x, y := ColsOf(after), ColsOf(before);
    assert y == x + (y - x);
  }

  /**
   sm_mincov -- find the best cover of A, given that `select` is already selected.  A matrix of a single row
   is solved by the reductions alone, so that even the heuristic solution is optimal.
   */
  method SmMincov(A: SmMatrix, select: Sol, w: Weights, lb: int, bound: int, noBranching: bool) returns (best: Sol?)
    requires Ready(A, select)
    requires !noBranching ==> AtLeast(w, A.rows, lb - select.cost)
    modifies A, select
    ensures best != null ==> fresh(best) && Sorted(best.row)
    ensures Correct(w, old(StateOf(A, select)), !noBranching, lb, bound, OutcomeOf(best))
    ensures SolvedByReductions(w, old(|A.rowNums|), old(StateOf(A, select)), lb, bound, OutcomeOf(best))
    ensures Spares(old(StateOf(A, select)), OutcomeOf(best))
    ensures SelectsForced(w, old(StateOf(A, select)), OutcomeOf(best))
    ensures w == Unit && noBranching && best != null ==> HeuristicRun(old(A.rows), Elems(best.row))
    decreases |ColsOf(A.rows)|, 5
  {
    ghost var a := StateOf(A, select);
    SelectEssential(A, select, w, bound);
    ghost var b, left := StateOf(A, select), |A.rowNums|;
    ReducedBounds(w, a, b, !noBranching, lb);
    if select.cost >= bound {
      best := null;
    } else {
      best := AfterEssentials(A, select, w, lb, bound, noBranching);
    }
    BothVia(w, old(|A.rowNums|), a, left, b, !noBranching, lb, bound, OutcomeOf(best));
    RunVia(w, a, b, noBranching, OutcomeOf(best));
  }

  lemma ReducedBounds(w: Weights, a: State, b: State, exact: bool, lb: int)
    requires Disjoint(a) && Reduces(w, a, b) && (exact ==> AtLeast(w, a.rows, lb - a.cost))
    ensures |ColsOf(b.rows)| <= |ColsOf(a.rows)| && (exact ==> AtLeast(w, b.rows, lb - b.cost))
  {
    NoMoreColumns(b.rows, a.rows);
    if exact {
      LowerBoundKept(w, a, b, lb);
    }
  }

  /** Both promises carry over from what the reductions left. */
  lemma BothVia(w: Weights, n: nat, a: State, left: nat, b: State, exact: bool, lb: int, bound: int, o: Outcome)
    requires Disjoint(a) && Disjoint(b) && Reduces(w, a, b) && left <= n && Thins(a, b) && Spares(b, o)
    requires Correct(w, b, exact, lb, bound, o)
    requires b.cost < bound && w == Unit && left <= 1 ==> SolvedByReductions(Unit, 0, b, lb, bound, o)
    requires b.cost >= bound ==> o == Nil
    ensures Correct(w, a, exact, lb, bound, o) && SolvedByReductions(w, n, a, lb, bound, o) && Spares(a, o)
  {
    SparesVia(w, a, b, o);
    CorrectVia(w, a, b, exact, lb, bound, o);
    if w == Unit && n <= 1 && lb <= a.cost {
      CorrectVia(w, a, b, true, lb, bound, o);
    }
  }

  /** gimpel_reduce where it applies, otherwise the rest. */
  method AfterEssentials(A: SmMatrix, select: Sol, w: Weights, lb: int, bound: int, noBranching: bool)
    returns (best: Sol?)
    requires Ready(A, select) && Cyclic(A.rows) && select.cost < bound
    requires !noBranching ==> AtLeast(w, A.rows, lb - select.cost)
    modifies A, select
    ensures best != null ==> fresh(best) && Sorted(best.row)
    ensures Correct(w, old(StateOf(A, select)), !noBranching, lb, bound, OutcomeOf(best))
    ensures Spares(old(StateOf(A, select)), OutcomeOf(best))
    ensures StartsKnotted(w, old(StateOf(A, select)), noBranching, OutcomeOf(best))
    ensures old(A.rows) == map[] ==> SolvedByReductions(Unit, 0, old(StateOf(A, select)), lb, bound, OutcomeOf(best))
    decreases |ColsOf(A.rows)|, 4
  {
    if w == Unit {
      var applied;
      applied, best := GimpelReduce(A, select, lb, bound, noBranching);
      if applied {
        return best;
      }
    }
    best := BoundAndBranch(A, select, w, lb, bound, noBranching);
  }

  /** The rest of sm_mincov: bound by an independent set, then finish, partition or branch. */
  method BoundAndBranch(A: SmMatrix, select: Sol, w: Weights, lb: int, bound: int, noBranching: bool)
    returns (best: Sol?)
    requires Ready(A, select) && Cyclic(A.rows) && select.cost < bound
    requires !noBranching ==> AtLeast(w, A.rows, lb - select.cost)
    modifies A, select
    ensures best != null ==> fresh(best) && Sorted(best.row)
    ensures Correct(w, old(StateOf(A, select)), !noBranching, lb, bound, OutcomeOf(best))
    ensures Spares(old(StateOf(A, select)), OutcomeOf(best))
    ensures StartsKnotted(w, old(StateOf(A, select)), noBranching, OutcomeOf(best))
    ensures old(A.rows) == map[] ==> SolvedByReductions(Unit, 0, old(StateOf(A, select)), lb, bound, OutcomeOf(best))
    decreases |ColsOf(A.rows)|, 3
  {
    hide Sorted, MeetsChosen, InSome;
    ghost var a := StateOf(A, select);
    var indep := MaximalIndependentSet(A, w);
    var lbNew := if select.cost + indep.cost > lb then select.cost + indep.cost else lb;
    var pick := SelectColumn(A, w, indep);
    if lbNew >= bound {
      Bounded(w, a, !noBranching, lb, bound, lbNew);
      return null;
    } else if |A.rowNums| == 0 {
      assert A.rows == map[];
      NothingLeft(w, a, !noBranching, lb, bound);
      best := DupSol(select);
      return best;
    }
    assert A.rowNums[0] in A.rows;
    best := PartitionOrBranch(A, select, w, lb, lbNew, bound, noBranching, indep.row, pick);
  }

  /** Two blocks are solved one after the other; a single one is branched on the column picked. */
  method PartitionOrBranch(A: SmMatrix, select: Sol, w: Weights, lb: int, lbNew: int, bound: int, noBranching: bool,
                           ghost indep: seq<nat>, pick: nat) returns (best: Sol?)
    requires Ready(A, select) && Cyclic(A.rows) && A.rows != map[] && select.cost < bound && lbNew < bound
    requires !noBranching ==> AtLeast(w, A.rows, lbNew - select.cost)
    requires pick in A.cols && (w == Unit ==> PickedBy(A.rows, A.cols, indep, pick))
    modifies A, select
    ensures best != null ==> fresh(best) && Sorted(best.row)
    ensures Correct(w, old(StateOf(A, select)), !noBranching, lb, bound, OutcomeOf(best))
    ensures Spares(old(StateOf(A, select)), OutcomeOf(best))
    ensures StartsKnotted(w, old(StateOf(A, select)), noBranching, OutcomeOf(best))
    decreases |ColsOf(A.rows)|, 2
  {
    hide Cyclic, PickedBy, ColsOf, Divided, Divisible, Parts;
    var split, L, R := BlockPartition(A);
    if split {
      DividedParts(A.rows, L.rows, R.rows);
      best := SolveBlocks(A.rows, L, R, select, w, lb, lbNew, bound, noBranching);
    } else {
      best := Branch(A, select, w, lb, lbNew, bound, noBranching, pick);
    }
  }

  lemma PartsSwap(rows: Rows, l: Rows, r: Rows)
    requires Parts(rows, l, r)
    ensures Parts(rows, r, l)
  {
  }

  lemma FewerColumnsInBlock(rows: Rows, l: Rows, r: Rows)
    requires Parts(rows, l, r) && r != map[] && (forall q :: q in r ==> r[q] != [])
    ensures |ColsOf(l)| < |ColsOf(rows)|
  {
    BlockCols(rows, l, r);
    var q :| q in r;
    assert r[q][0] in r[q];
    FewerColumns(l, rows, r[q][0]);
  }

  /** The partition case of sm_mincov: the smaller block first, then the other one. */
  method SolveBlocks(ghost rows: Rows, L0: SmMatrix, R0: SmMatrix, select: Sol, w: Weights, lb: int, lbNew: int,
                     bound: int, noBranching: bool) returns (best: Sol?)
    requires L0.Valid() && R0.Valid() && L0 != R0 && L0.rows != map[] && R0.rows != map[]
    requires Parts(rows, L0.rows, R0.rows) && Sorted(select.row) && select.cost < bound && lbNew < bound
    requires Disjoint(State(rows, Elems(select.row), select.cost))
    requires !noBranching ==> AtLeast(w, rows, lbNew - select.cost)
    modifies L0, R0, select
    ensures best != null ==> fresh(best) && Sorted(best.row)
    ensures Correct(w, old(State(rows, Elems(select.row), select.cost)), !noBranching, lb, bound, OutcomeOf(best))
    ensures Spares(old(State(rows, Elems(select.row), select.cost)), OutcomeOf(best))
    decreases |ColsOf(rows)|, 1
  {
    hide Parts, ColsOf, SolvedByReductions, SelectsForced, HeuristicRun;
    var L, R := L0, R0;
    PartsSwap(rows, L0.rows, R0.rows);
    if |L.colNums| > |R.colNums| {
      L, R := R, L;
    }
    ghost var a, l, r := State(rows, Elems(select.row), select.cost), L.rows, R.rows;
    FewerColumnsInBlock(rows, l, r);
    var select1 := new Sol();
    assert Elems(select1.row) == {};
    var best1 := SmMincov(L, select1, w, 0, bound - select.cost, noBranching);
    if best1 == null {
      LeftFails(w, a, l, r, !noBranching, lb, bound);
      return null;
    }
    ghost var N := Elems(best1.row);
    assert N - {} == N;
    BlockState(w, a, l, r, N);
    best := SolveRight(a, l, R, select, w, lb, lbNew, bound, noBranching, best1.row);
  }

  /** The remaining block, once the first one has been solved by the columns `cols`. */
  method SolveRight(ghost a: State, ghost l: Rows, R: SmMatrix, select: Sol, w: Weights, lb: int, lbNew: int,
                    bound: int, noBranching: bool, cols: seq<nat>) returns (best: Sol?)
    requires R.Valid() && Parts(a.rows, l, R.rows) && l != map[] && (forall q :: q in l ==> l[q] != [])
    requires Sorted(select.row) && a.sel == Elems(select.row) && a.cost == select.cost && Disjoint(a)
    requires Sorted(cols) && IsCover(l, Elems(cols)) && Elems(cols) <= ColsOf(l) && lbNew < bound
    requires Thick(l) ==> !(ColsOf(l) <= Elems(cols))
    requires !noBranching ==> AtLeast(w, a.rows, lbNew - a.cost) && AtLeast(w, l, Cost(w, Elems(cols)))
    modifies R, select
    ensures best != null ==> fresh(best) && Sorted(best.row)
    ensures Correct(w, a, !noBranching, lb, bound, OutcomeOf(best)) && Spares(a, OutcomeOf(best))
    decreases |ColsOf(a.rows)|, 0
  {
    ghost var r, N := R.rows, Elems(cols);
    PartsSwap(a.rows, l, r);
    FewerColumnsInBlock(a.rows, r, l);
    BlockState(w, a, l, r, N);
    if !noBranching {
      BlockLowerBound(w, a.rows, l, r, N, lbNew - a.cost);
    }
    AddAll(select, w, cols);
    assert R.rows == r;
    assert Elems(select.row) == a.sel + N;
    assert StateOf(R, select) == State(r, a.sel + N, a.cost + Cost(w, N));
    best := SmMincov(R, select, w, lbNew, bound, noBranching);
    RightDecides(w, a, l, r, N, !noBranching, lb, lbNew, bound, OutcomeOf(best));
    BlockSpares(w, a, l, r, N, OutcomeOf(best));
  }

  /** The branch that puts column c into the cover. */
  method TryAccept(A: SmMatrix, select: Sol, w: Weights, lb: int, lbNew: int, bound: int, noBranching: bool, c: nat)
    returns (best: Sol?)
    requires Ready(A, select) && c in A.cols && lbNew < bound
    requires !noBranching ==> AtLeast(w, A.rows, lbNew - select.cost)
    ensures best != null ==> fresh(best) && Sorted(best.row)
    ensures best == null ==> !Ample(w, StateOf(A, select), lb, bound)
    ensures best != null ==> Solves(w, StateOf(A, select), Elems(best.row), best.cost) && best.cost < bound
    ensures Spares(StateOf(A, select), OutcomeOf(best))
    ensures best != null ==> c in Elems(best.row)
    ensures w == Unit && best != null ==> ForcedIn(Uncovered(A.rows, c), Elems(best.row))
    ensures !noBranching ==>
      AtLeast(w, Uncovered(A.rows, c), Limit(OutcomeOf(best), bound) - select.cost - WeightOf(w, c))
    decreases |ColsOf(A.rows)|, 0
  {
    ghost var a := StateOf(A, select);
    ColumnPresent(A.rows, A.cols, c);
    AcceptSelects(w, a, c);
    FewerColumns(Uncovered(a.rows, c), a.rows, c);
    var A1 := Dup(A);
    var select1 := DupSol(select);
    ColumnPresentBack(A1.rows, A1.cols, c);
    Accept(select1, A1, w, c);
    if !noBranching {
      LowerBoundKept(w, a, AcceptState(w, a, c), lbNew);
    }
    best := SolveAccepted(A1, select1, w, lb, lbNew, bound, noBranching, a, c);
    assert StateOf(A, select) == a;
  }

  /** What column c leaves. */
  method SolveAccepted(A1: SmMatrix, select1: Sol, w: Weights, ghost lb: int, lbNew: int, bound: int, noBranching: bool,
                       ghost a: State, ghost c: nat) returns (best: Sol?)
    requires Ready(A1, select1) && StateOf(A1, select1) == AcceptState(w, a, c)
    requires Disjoint(a) && c in ColsOf(a.rows) && lbNew < bound
    requires !noBranching ==> AtLeast(w, A1.rows, lbNew - select1.cost)
    modifies A1, select1
    ensures best != null ==> fresh(best) && Sorted(best.row)
    ensures best == null ==> !Ample(w, a, lb, bound)
    ensures best != null ==> Solves(w, a, Elems(best.row), best.cost) && best.cost < bound
    ensures Spares(a, OutcomeOf(best))
    ensures best != null ==> c in Elems(best.row)
    ensures w == Unit && best != null ==> ForcedIn(Uncovered(a.rows, c), Elems(best.row))
    ensures !noBranching ==> AtLeast(w, Uncovered(a.rows, c), Limit(OutcomeOf(best), bound) - a.cost - WeightOf(w, c))
    decreases |ColsOf(A1.rows)|, 6
  {
    best := SmMincov(A1, select1, w, lbNew, bound, noBranching);
    AcceptBranch(w, a, c, !noBranching, lb, lbNew, bound, OutcomeOf(best));
    AcceptSpares(w, a, c, OutcomeOf(best));
  }

  lemma ColumnPresentBack(rows: Rows, cols: Rows, c: nat)
    requires Mirrored(rows, cols) && c in ColsOf(rows)
    ensures c in cols
  {
  }

  /** The branch that leaves column c out. */
  method TryReject(A: SmMatrix, select: Sol, w: Weights, lbNew: int, bound: int, c: nat) returns (best: Sol?)
    requires Ready(A, select) && Cyclic(A.rows) && c in A.cols
    requires AtLeast(w, A.rows, lbNew - select.cost)
    ensures best != null ==> fresh(best) && Sorted(best.row)
    ensures best != null ==> Solves(w, StateOf(A, select), Elems(best.row), best.cost) && best.cost < bound
    ensures Spares(StateOf(A, select), OutcomeOf(best))
    ensures AtLeast(w, DropCol(A.rows, c), Limit(OutcomeOf(best), bound) - select.cost)
    decreases |ColsOf(A.rows)|, 0
  {
    hide Sorted, Solves, Elems, Spares, OutcomeOf, DropCol, Limit, ColsOf, Mirrored, Disjoint;
    ghost var a := StateOf(A, select);
    ColumnPresent(A.rows, A.cols, c);
    RejectReady(w, a, c, lbNew);
    var A2 := Dup(A);
    var select2 := DupSol(select);
    DropColumn(A2, c);
    best := SolveRejected(A2, select2, w, lbNew, bound, a, c);
    assert StateOf(A, select) == a;
  }

  /** The matrix without column c. */
  method SolveRejected(A2: SmMatrix, select2: Sol, w: Weights, lbNew: int, bound: int, ghost a: State, ghost c: nat)
    returns (best: Sol?)
    requires Ready(A2, select2) && StateOf(A2, select2) == RejectState(a, c) && AtLeast(w, A2.rows, lbNew - a.cost)
    requires Disjoint(a) && c in ColsOf(a.rows) && forall r :: r in a.rows ==> |a.rows[r]| >= 2 && Sorted(a.rows[r])
    modifies A2, select2
    ensures best != null ==> fresh(best) && Sorted(best.row)
    ensures best != null ==> Solves(w, a, Elems(best.row), best.cost) && best.cost < bound
    ensures Spares(a, OutcomeOf(best))
    ensures AtLeast(w, DropCol(a.rows, c), Limit(OutcomeOf(best), bound) - a.cost)
    decreases |ColsOf(A2.rows)|, 6
  {
    best := SmMincov(A2, select2, w, lbNew, bound, false);
    RejectBranch(w, a, c, lbNew, bound, OutcomeOf(best));
  }

  /** The branching case of sm_mincov. */
  method Branch(A: SmMatrix, select: Sol, w: Weights, lb: int, lbNew: int, bound0: int, noBranching: bool, pick: nat)
    returns (best: Sol?)
    requires Ready(A, select) && Cyclic(A.rows) && pick in A.cols && lbNew < bound0
    requires !noBranching ==> AtLeast(w, A.rows, lbNew - select.cost)
    ensures best != null ==> fresh(best) && Sorted(best.row)
    ensures Correct(w, StateOf(A, select), !noBranching, lb, bound0, OutcomeOf(best))
    ensures Spares(StateOf(A, select), OutcomeOf(best))
    ensures w == Unit && noBranching && best != null ==>
      pick in Elems(best.row) && ForcedIn(Uncovered(A.rows, pick), Elems(best.row))
    decreases |ColsOf(A.rows)|, 1
  {
    ghost var a := StateOf(A, select);
    var bound := bound0;
    var best1 := TryAccept(A, select, w, lb, lbNew, bound, noBranching, pick);
    if best1 != null && bound > best1.cost {
      bound := best1.cost;
    }
    if noBranching {
      return best1;
    }
    if best1 != null && best1.cost == lbNew {
      return best1;
    }
    var best2 := TryReject(A, select, w, lbNew, bound, pick);
    ghost var o1, o2 := OutcomeOf(best1), OutcomeOf(best2);
    BothBranches(w, a, pick, Limit(o1, bound0), Limit(o2, bound));
    best := ChooseBest(best1, best2);
  }

  /** verify_cover */
  method VerifyCover(A: SmMatrix, cover: seq<nat>) returns (ok: bool)
    requires A.Valid() && Sorted(cover)
    ensures ok <==> IsCover(A.rows, Elems(cover))
  {
    var nums := A.rowNums;
    for k := 0 to |nums|
      invariant forall j :: 0 <= j < k ==> Hit(A.rows[nums[j]], Elems(cover))
    {
      var meets := ListIntersects(A.rows[nums[k]], cover);
      if !meets {
        assert nums[k] in A.rows && !Hit(A.rows[nums[k]], Elems(cover));
        return false;
      }
    }
    return true;
  }

  /** S is a cheapest cover of the matrix. */
  ghost predicate MinimumCover(w: Weights, rows: Rows, S: set<nat>) {
    IsCover(rows, S) && AtLeast(w, rows, Cost(w, S))
  }

  /** One more than all columns together cost. */
  method UpperBound(A: SmMatrix, w: Weights) returns (bound: nat)
    requires A.Valid()
    ensures bound == 1 + Cost(w, ColsOf(A.rows))
  {
    bound := 1;
    var nums := A.colNums;
    for k := 0 to |nums|
      invariant bound == 1 + Cost(w, Elems(nums[..k]))
    {
      assert nums[..k + 1] == nums[..k] + [nums[k]];
      assert Elems(nums[..k + 1]) == Elems(nums[..k]) + {nums[k]};
      CostUnion(w, Elems(nums[..k]), {nums[k]});
      CostSingle(w, nums[k]);
      bound := bound + WeightOf(w, nums[k]);
    }
    assert nums[..|nums|] == nums;
    ColumnHeaders(A.rows, A.cols, nums);
  }

  /**
   sm_minimum_cover.  The result always covers A by columns of A, so that verify_cover cannot fail;
   without the heuristic flag it is a cheapest cover, and with it for a single row.
   */
  method SmMinimumCover(A: SmMatrix, w: Weights, heuristic: bool) returns (sol: seq<nat>)
    requires A.Valid()
    ensures Sorted(sol) && Elems(sol) <= ColsOf(A.rows) && IsCover(A.rows, Elems(sol))
    ensures !heuristic || (w == Unit && |A.rowNums| <= 1) ==> MinimumCover(w, A.rows, Elems(sol))
    ensures Thick(A.rows) ==> Elems(sol) != ColsOf(A.rows)
    ensures w == Unit && heuristic ==> HeuristicRun(A.rows, Elems(sol))
  {
    if |A.rowNums| <= 0 {
      assert A.rows == map[] && Elems([]) == {};
      assert FewerRows(A.rows, A.rows);
      return [];
    }
    var bound := UpperBound(A, w);
    var select := new Sol();
    var dupA := Dup(A);
    ghost var a := StateOf(dupA, select);
    assert a.sel == {} && Disjoint(a);
    KeyCount(dupA.rowNums, A.rowNums, dupA.rows, A.rows);
    var best := SmMincov(dupA, select, w, 0, bound, heuristic);
    assert Ample(w, a, 0, bound);
    sol := best.row;
    assert a.rows == A.rows;
    assert OutcomeOf(best) == Best(Elems(sol), best.cost);
    FromScratch(w, a, !heuristic, bound, Elems(sol), best.cost);
    if w == Unit && |A.rowNums| <= 1 {
      FromScratch(w, a, true, bound, Elems(sol), best.cost);
    }
    var ok := VerifyCover(A, sol);
    assert ok;
  }

  lemma FromScratch(w: Weights, a: State, exact: bool, bound: int, sel: set<nat>, cost: int)
    requires a.sel == {} && a.cost == 0 && Correct(w, a, exact, 0, bound, Best(sel, cost))
    ensures sel <= ColsOf(a.rows) && IsCover(a.rows, sel)
    ensures exact ==> MinimumCover(w, a.rows, sel)
  {
    assert sel - {} == sel;
  }
}
