/** Column covers of a sparse matrix, their cost, and reductions that keep the cheapest cover. */
module Covering {
  import opened SortedLists
  import opened SparseMatrix

  /** The `weight` argument: NIL charges 1 for every column. */
  datatype Weights = Unit | PerColumn(w: map<nat, nat>)

  function WeightOf(w: Weights, c: nat): nat {
    if w.Unit? then 1 else if c in w.w then w.w[c] else 0
  }

  ghost function Cost(w: Weights, S: set<nat>): nat {
    if S == {} then 0 else
      var c :| c in S;
      WeightOf(w, c) + Cost(w, S - {c})
  }

  lemma {:induction false} CostRemove(w: Weights, S: set<nat>, c: nat)
    requires c in S
    ensures Cost(w, S) == WeightOf(w, c) + Cost(w, S - {c})
  {
    var d :| d in S && Cost(w, S) == WeightOf(w, d) + Cost(w, S - {d});
    if d != c {
      CostRemove(w, S - {d}, c);
      CostRemove(w, S - {c}, d);
      assert S - {d} - {c} == S - {c} - {d};
    }
  }

  lemma {:induction false} CostUnion(w: Weights, S: set<nat>, T: set<nat>)
    requires S !! T
    ensures Cost(w, S + T) == Cost(w, S) + Cost(w, T)
  {
    if T == {} {
      assert S + T == S;
    } else {
      var c :| c in T;
      CostRemove(w, T, c);
      CostRemove(w, S + T, c);
      assert S + T - {c} == S + (T - {c});
      CostUnion(w, S, T - {c});
    }
  }

  lemma CostSubset(w: Weights, S: set<nat>, T: set<nat>)
    requires S <= T
    ensures Cost(w, S) <= Cost(w, T)
  {
    CostUnion(w, S, T - S);
    assert S + (T - S) == T;
  }

  /** Adding columns costs at most their own weight. */
  lemma CostAdded(w: Weights, S: set<nat>, T: set<nat>)
    ensures Cost(w, S + T) <= Cost(w, S) + Cost(w, T)
  {
    CostUnion(w, S, T - S);
    CostSubset(w, T - S, T);
    assert S + (T - S) == S + T;
  }

  lemma CostSingle(w: Weights, c: nat)
    ensures Cost(w, {c}) == WeightOf(w, c)
  {
    CostRemove(w, {c}, c);
    assert {c} - {c} == {};
  }

  lemma {:induction false} UnitCost(S: set<nat>)
    ensures Cost(Unit, S) == |S|
  {
    if S != {} {
      var c :| c in S;
      CostRemove(Unit, S, c);
      UnitCost(S - {c});
    }
  }

  /** S hits row r. */
  ghost predicate Hit(row: seq<nat>, S: set<nat>) {
    exists c :: c in row && c in S
  }

  /** S is a cover: it hits every row. */
  ghost predicate IsCover(rows: Rows, S: set<nat>) {
    forall r {:trigger Hit(rows[r], S)} :: r in rows ==> Hit(rows[r], S)
  }

  ghost function ColsOf(rows: Rows): set<nat> {
    set r, c | r in rows && c in rows[r] :: c
  }

  /** No cover costs less than k. */
  ghost predicate AtLeast(w: Weights, rows: Rows, k: int) {
    forall S :: IsCover(rows, S) ==> k <= Cost(w, S)
  }

  /** A matrix still to be covered, the columns selected so far, and their cost. */
  datatype State = State(rows: Rows, sel: set<nat>, cost: int)

  ghost predicate Disjoint(a: State) {
    a.sel !! ColsOf(a.rows)
  }

  /** What b has selected since a. */
  ghost function Added(a: State, b: State): set<nat> {
    b.sel - a.sel
  }

  /** The selection only grew, by columns of a, and was charged for them. */
  ghost predicate Selected(w: Weights, a: State, b: State) {
    && a.sel <= b.sel
    && Added(a, b) <= ColsOf(a.rows)
    && ColsOf(b.rows) <= ColsOf(a.rows) - Added(a, b)
    && b.cost == a.cost + Cost(w, Added(a, b))
  }

  /** A cover of b together with the columns added is a cover of a. */
  ghost predicate Completes(a: State, b: State) {
    forall S :: IsCover(b.rows, S) ==> IsCover(a.rows, S + Added(a, b))
  }

  /** b is a reduction of a that keeps the cheapest way to finish. */
  ghost predicate Reduces(w: Weights, a: State, b: State) {
    && Selected(w, a, b)
    && Completes(a, b)
    && forall k: int :: AtLeast(w, b.rows, k) ==> AtLeast(w, a.rows, k + b.cost - a.cost)
  }

  lemma ReducesRefl(w: Weights, a: State)
    ensures Reduces(w, a, a)
  {
    assert Added(a, a) == {};
    forall S ensures S + Added(a, a) == S {
    }
  }

  lemma SelectedTrans(w: Weights, a: State, b: State, c: State)
    requires Disjoint(a) && Selected(w, a, b) && Selected(w, b, c)
    ensures Selected(w, a, c)
    ensures Added(a, c) == Added(a, b) + Added(b, c)
  {
    assert Added(a, c) == Added(a, b) + Added(b, c);
    CostUnion(w, Added(a, b), Added(b, c));
  }

  lemma CompletesTrans(w: Weights, a: State, b: State, c: State)
    requires Disjoint(a) && Selected(w, a, b) && Selected(w, b, c)
    requires Completes(a, b) && Completes(b, c)
    ensures Completes(a, c)
  {
    SelectedTrans(w, a, b, c);
    forall S | IsCover(c.rows, S) ensures IsCover(a.rows, S + Added(a, c)) {
      assert IsCover(b.rows, S + Added(b, c));
      assert IsCover(a.rows, S + Added(b, c) + Added(a, b));
      assert S + Added(b, c) + Added(a, b) == S + Added(a, c);
    }
  }

  lemma ReducesTrans(w: Weights, a: State, b: State, c: State)
    requires Disjoint(a) && Reduces(w, a, b) && Reduces(w, b, c)
    ensures Reduces(w, a, c)
  {
    SelectedTrans(w, a, b, c);
    CompletesTrans(w, a, b, c);
    forall k: int | AtLeast(w, c.rows, k) ensures AtLeast(w, a.rows, k + c.cost - a.cost) {
      assert AtLeast(w, b.rows, k + c.cost - b.cost);
    }
  }

  /** Columns selected or still present never cost more than those present at the start. */
  lemma SelectedBudget(w: Weights, a: State, b: State)
    requires Selected(w, a, b)
    ensures b.cost + Cost(w, ColsOf(b.rows)) <= a.cost + Cost(w, ColsOf(a.rows))
  {
    CostUnion(w, Added(a, b), ColsOf(b.rows));
    CostSubset(w, Added(a, b) + ColsOf(b.rows), ColsOf(a.rows));
  }

  /** A lower bound on the whole stays a lower bound. */
  lemma LowerBoundKept(w: Weights, a: State, b: State, lb: int)
    requires Selected(w, a, b) && Completes(a, b) && AtLeast(w, a.rows, lb - a.cost)
    ensures AtLeast(w, b.rows, lb - b.cost)
  {
    forall S | IsCover(b.rows, S) ensures lb - b.cost <= Cost(w, S) {
      CostAdded(w, S, Added(a, b));
      assert IsCover(a.rows, S + Added(a, b));
    }
  }
}
