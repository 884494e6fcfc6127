/** solution.c: the columns selected so far and their cost, and what accepting or rejecting a column does. */
module Solution {
  import opened SortedLists
  import opened SparseMatrix
  import opened Covering

  class Sol {
    var row: seq<nat>
    var cost: int

    /** solution_alloc */
    constructor ()
      ensures row == [] && cost == 0
    {
      row, cost := [], 0;
    }

    /** solution_add */
    method Add(w: Weights, col: nat)
      requires Sorted(row)
      modifies this
      ensures Sorted(row) && Elems(row) == Elems(old(row)) + {col}
      ensures cost == old(cost) + WeightOf(w, col)
    {
      var added;
      row, added := SortedInsert(row, col);
      cost := cost + WeightOf(w, col);
    }
  }

  /** solution_dup */
  method DupSol(s: Sol) returns (t: Sol)
    ensures fresh(t) && t.row == s.row && t.cost == s.cost
  {
    t := new Sol();
    t.row, t.cost := s.row, s.cost;
  }

  ghost function StateOf(A: SmMatrix, s: Sol): State
    reads A, s
  {
    State(A.rows, Elems(s.row), s.cost)
  }

  /** The rows that column c does not cover. */
  ghost function Uncovered(rows: Rows, c: nat): Rows {
    map r | r in rows && c !in rows[r] :: rows[r]
  }

  /** solution_accept -- select column col and delete the rows it covers. */
  method Accept(s: Sol, A: SmMatrix, w: Weights, col: nat)
    requires A.Valid() && Sorted(s.row) && col in A.cols
    modifies s, A
    ensures A.Valid() && A.rows == Uncovered(old(A.rows), col)
    ensures Sorted(s.row) && Elems(s.row) == Elems(old(s.row)) + {col}
    ensures s.cost == old(s.cost) + WeightOf(w, col)
  {
    s.Add(w, col);
    var list := A.cols[col];
    for k := 0 to |list|
      invariant A.Valid()
      invariant Sorted(s.row) && Elems(s.row) == Elems(old(s.row)) + {col}
      invariant s.cost == old(s.cost) + WeightOf(w, col)
      invariant forall r :: r in A.rows <==> r in old(A.rows) && r !in list[..k]
      invariant forall r :: r in A.rows ==> A.rows[r] == old(A.rows)[r]
    {
      assert list[..k + 1] == list[..k] + [list[k]];
      A.DelRow(list[k]);
    }
    assert list[..|list|] == list;
  }

  /** solution_choose_best */
  method ChooseBest(best1: Sol?, best2: Sol?) returns (best: Sol?)
    ensures best == best1 || best == best2
    ensures best == null <==> best1 == null && best2 == null
    ensures best1 != null ==> best.cost <= best1.cost
    ensures best2 != null ==> best.cost <= best2.cost
  {
    if best1 != null {
      if best2 != null {
        if best1.cost <= best2.cost {
          return best1;
        } else {
          return best2;
        }
      } else {
        return best1;
      }
    } else {
      return best2;
    }
  }

  // ---------- what accepting and rejecting mean ----------

  /** The state after column c is accepted. */
  ghost function AcceptState(w: Weights, a: State, c: nat): State {
    State(Uncovered(a.rows, c), a.sel + {c}, a.cost + WeightOf(w, c))
  }

  lemma AcceptSelects(w: Weights, a: State, c: nat)
    requires Disjoint(a) && c in ColsOf(a.rows)
    ensures var b := AcceptState(w, a, c);
            Selected(w, a, b) && Completes(a, b) && Added(a, b) == {c} && Disjoint(b)
    ensures c !in ColsOf(Uncovered(a.rows, c))
  {
    var b := AcceptState(w, a, c);
    assert Added(a, b) == {c};
    CostSingle(w, c);
    forall S | IsCover(b.rows, S) ensures IsCover(a.rows, S + Added(a, b)) {
      forall r | r in a.rows ensures Hit(a.rows[r], S + {c}) {
        if c !in a.rows[r] {
          assert Hit(b.rows[r], S);
        }
      }
    }
  }

  /** A cover that uses c: without c it covers the rest. */
  lemma CoverWith(w: Weights, rows: Rows, c: nat, S: set<nat>)
    requires IsCover(rows, S) && c in S
    ensures IsCover(Uncovered(rows, c), S - {c})
    ensures Cost(w, S) == WeightOf(w, c) + Cost(w, S - {c})
  {
    CostRemove(w, S, c);
    var rest := Uncovered(rows, c);
    forall r | r in rest ensures Hit(rest[r], S - {c}) {
      assert Hit(rows[r], S);
    }
  }

  /** A cover that does not use c covers the matrix without column c. */
  lemma CoverWithout(rows: Rows, c: nat, S: set<nat>)
    requires IsCover(rows, S) && c !in S
    ensures IsCover(DropCol(rows, c), S)
  {
    var rest := DropCol(rows, c);
    forall r | r in rest ensures Hit(rest[r], S) {
      assert Hit(rows[r], S);
      var x :| x in rows[r] && x in S;
      assert x in rest[r];
    }
  }

  /** The only column of some row has to be selected. */
  lemma AcceptEssential(w: Weights, a: State, c: nat, r: nat)
    requires Disjoint(a) && r in a.rows && a.rows[r] == [c]
    ensures Reduces(w, a, AcceptState(w, a, c))
  {
    assert c in a.rows[r];
    AcceptSelects(w, a, c);
    var b := AcceptState(w, a, c);
    forall k: int | AtLeast(w, b.rows, k) ensures AtLeast(w, a.rows, k + b.cost - a.cost) {
      forall S | IsCover(a.rows, S) ensures k + b.cost - a.cost <= Cost(w, S) {
        assert Hit(a.rows[r], S);
        CoverWith(w, a.rows, c, S);
      }
    }
  }

  /** A cover of the matrix without column c is a cover, if no row consists of c alone. */
  lemma RejectCovers(rows: Rows, c: nat, S: set<nat>)
    requires forall r :: r in rows ==> rows[r] != [] && Without(rows[r], c) != []
    requires IsCover(DropCol(rows, c), S)
    ensures IsCover(rows, S)
  {
    forall r | r in rows ensures Hit(rows[r], S) {
      assert Hit(DropCol(rows, c)[r], S);
    }
  }
}
