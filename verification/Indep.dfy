/** indep.c: a set of pairwise disjoint rows, which bounds the cost of every cover from below. */
module Indep {
  import opened SortedLists
  import opened SparseMatrix
  import opened Covering
  import opened Solution

  ghost predicate Meet(a: seq<nat>, b: seq<nat>) {
    exists c :: c in a && c in b
  }

  /** Row r of the intersection matrix lists the rows of A that meet row r of A. */
  ghost predicate MeetingRows(rows: Rows, r: nat, list: seq<nat>)
    requires r in rows
  {
    forall q :: q in list <==> q in rows && Meet(rows[r], rows[q])
  }

  /** The rows with an element in column c. */
  method RowsReached(A: SmMatrix, prow: seq<nat>) returns (reached: set<nat>)
    requires A.Valid() && (forall c :: c in prow ==> c in A.cols)
    ensures forall q :: q in reached <==> q in A.rows && Meet(prow, A.rows[q])
  {
    reached := {};
    for k := 0 to |prow|
      invariant forall q :: q in reached <==> q in A.rows && Meet(prow[..k], A.rows[q])
    {
      assert prow[..k + 1] == prow[..k] + [prow[k]];
      var pcol := A.cols[prow[k]];
      ghost var before := reached;
      for j := 0 to |pcol|
        invariant forall q :: q in reached <==> q in before || q in pcol[..j]
      {
        assert pcol[..j + 1] == pcol[..j] + [pcol[j]];
        reached := reached + {pcol[j]};
      }
      assert pcol[..|pcol|] == pcol;
    }
    assert prow[..|prow|] == prow;
  }

  /** B differs from rows0 only in row r, which holds `list`. */
  ghost predicate Extended(B: SmMatrix, rows0: Rows, r: nat, list: set<nat>)
    reads B
  {
    B.Valid() && WithRow(B.rows, rows0, r, list)
  }

  ghost predicate WithRow(rows: Rows, rows0: Rows, r: nat, list: set<nat>) {
    && rows.Keys == rows0.Keys + (if list == {} then {} else {r})
    && (forall q :: q in rows0 ==> rows[q] == rows0[q])
    && (forall q :: q in At(rows, r) <==> q in list)
  }

  lemma WithOneMore(rows: Rows, rows': Rows, rows0: Rows, r: nat, list: set<nat>, q: nat)
    requires WithRow(rows, rows0, r, list) && r !in rows0 && rows'.Keys == rows.Keys + {r}
    requires forall k :: k in rows' && k != r ==> rows'[k] == rows[k]
    requires forall c :: c in rows'[r] <==> c == q || c in At(rows, r)
    ensures WithRow(rows', rows0, r, list + {q})
  {
  }

  /** Record row q in row r of B, unless its flag says that it has been recorded. */
  method RecordOne(B: SmMatrix, r: nat, q: nat, flags: set<nat>, ghost rows0: Rows, ghost list: set<nat>)
    returns (flags': set<nat>)
    requires Extended(B, rows0, r, list) && r !in rows0 && (q in flags <==> q in list)
    modifies B
    ensures Extended(B, rows0, r, list + {q}) && flags' == flags + {q}
  {
    hide WithRow;
    flags' := flags;
    if q !in flags {
      flags' := flags + {q};
      ghost var rows := B.rows;
      B.Insert(r, q);
      WithOneMore(rows, B.rows, rows0, r, list, q);
    } else {
      assert list + {q} == list && flags + {q} == flags;
    }
  }

  lemma FlagAgrees(pcol: seq<nat>, q: nat, flags: set<nat>, list: set<nat>, done: set<nat>)
    requires q in pcol && flags * Elems(pcol) == list * Elems(pcol)
    ensures q in flags + done <==> q in list + done
  {
    assert q in flags <==> q in flags * Elems(pcol);
    assert q in list <==> q in list * Elems(pcol);
  }

  lemma ElemsStep(s: seq<nat>, k: nat)
    requires k < |s|
    ensures Elems(s[..k + 1]) == Elems(s[..k]) + {s[k]}
  {
    assert s[..k + 1] == s[..k] + [s[k]];
  }

  /** Walk one column, recording in row r of B the rows whose flag is not yet set. */
  method RecordColumn(B: SmMatrix, r: nat, pcol: seq<nat>, flags: set<nat>, ghost rows0: Rows, ghost list: set<nat>)
    returns (flags': set<nat>, ghost list': set<nat>)
    requires Extended(B, rows0, r, list) && r !in rows0
    requires flags * Elems(pcol) == list * Elems(pcol)
    modifies B
    ensures Extended(B, rows0, r, list')
    ensures list' == list + Elems(pcol)
    ensures flags' == flags + Elems(pcol)
  {
    hide Extended;
    flags', list' := flags, list;
    ghost var done := {};
    for j := 0 to |pcol|
      invariant Extended(B, rows0, r, list')
      invariant list' == list + done && flags' == flags + done && done == Elems(pcol[..j])
    {
      FlagAgrees(pcol, pcol[j], flags, list, done);
      flags' := RecordOne(B, r, pcol[j], flags', rows0, list');
      list' := list' + {pcol[j]};
      ElemsStep(pcol, j);
      done := done + {pcol[j]};
    }
    assert pcol[..|pcol|] == pcol;
  }

  /** The rows with an element in one of the columns of list. */
  ghost function RowsMet(rows: Rows, list: seq<nat>): set<nat> {
    set q | q in rows && Meet(list, rows[q])
  }

  lemma RowsMetStep(rows: Rows, cols: Rows, list: seq<nat>, k: nat)
    requires Mirrored(rows, cols) && k < |list| && list[k] in cols
    ensures RowsMet(rows, list[..k + 1]) == RowsMet(rows, list[..k]) + Elems(cols[list[k]])
    ensures Elems(cols[list[k]]) <= RowsMet(rows, list)
  {
    assert list[..k + 1] == list[..k] + [list[k]];
    forall q | q in cols[list[k]] ensures q in rows && Meet(list, rows[q]) {
      assert list[k] in list && list[k] in rows[q];
    }
  }

  /** The marking pass along prow: record every row reached, once, in row r of B. */
  method RecordReached(B: SmMatrix, r: nat, ghost rows: Rows, cols: Rows, prow: seq<nat>, flags: set<nat>)
    returns (flags': set<nat>)
    requires B.Valid() && r !in B.rows && Mirrored(rows, cols)
    requires forall c :: c in prow ==> c in cols
    requires RowsMet(rows, prow) !! flags
    modifies B
    ensures Extended(B, old(B.rows), r, RowsMet(rows, prow))
  {
    flags' := flags;
    ghost var rows0, list := B.rows, {};
    for k := 0 to |prow|
      invariant Extended(B, rows0, r, list)
      invariant list == RowsMet(rows, prow[..k])
      invariant flags' == flags + list
    {
      assert prow[k] in prow;
      RowsMetStep(rows, cols, prow, k);
      flags', list := RecordColumn(B, r, cols[prow[k]], flags', rows0, list);
    }
    assert prow[..|prow|] == prow;
  }

  /** Clear the flags reachable from row r of A, then record what can be reached from it. */
  method RecordRow(A: SmMatrix, B: SmMatrix, r: nat, flags: set<nat>) returns (flags': set<nat>)
    requires A.Valid() && B.Valid() && A != B && r in A.rows && r !in B.rows
    modifies B
    ensures B.Valid() && B.rows.Keys == old(B.rows).Keys + {r}
    ensures forall q :: q in old(B.rows) ==> B.rows[q] == old(B.rows)[q]
    ensures MeetingRows(A.rows, r, B.rows[r])
  {
    var prow := A.rows[r];
    var reached := RowsReached(A, prow);
    flags' := flags - reached;
    flags' := RecordReached(B, r, A.rows, A.cols, prow, flags');
    assert prow[0] in prow && r in RowsMet(A.rows, prow);
  }

  /** build_intersection_matrix */
  method BuildIntersectionMatrix(A: SmMatrix) returns (B: SmMatrix)
    requires A.Valid()
    ensures fresh(B) && B.Valid() && B.rows.Keys == A.rows.Keys
    ensures forall r :: r in A.rows ==> MeetingRows(A.rows, r, B.rows[r])
  {
    B := new SmMatrix();
    var nums := A.rowNums;
    var flags: set<nat> := {};
    for k := 0 to |nums|
      invariant A.Valid() && fresh(B) && B.Valid()
      invariant unchanged(A)
      invariant forall r :: r in B.rows <==> r in nums[..k]
      invariant forall r :: r in B.rows ==> MeetingRows(A.rows, r, B.rows[r])
    {
      assert nums[..k + 1] == nums[..k] + [nums[k]];
      flags := RecordRow(A, B, nums[k], flags);
    }
    assert nums[..|nums|] == nums;
  }

  // ---------- the independent set ----------

  /** A row of the intersection matrix, restricted to the rows `left`. */
  ghost predicate IntersectionRow(rows: Rows, left: set<nat>, r: nat, list: seq<nat>) {
    r in rows && forall q :: q in list <==> q in left && q in rows && Meet(rows[r], rows[q])
  }

  /** The intersection matrix restricted to the rows still in it. */
  ghost predicate Intersections(rows: Rows, left: Rows) {
    forall r :: r in left ==> IntersectionRow(rows, left.Keys, r, left[r])
  }

  lemma IntersectionsShrink(rows: Rows, left: Rows, p: nat)
    requires Intersections(rows, left) && (forall r :: r in rows ==> rows[r] != [])
    ensures Intersections(rows, DropCol(left - {p}, p)) && DropCol(left - {p}, p).Keys == left.Keys - {p}
  {
    var after := DropCol(left - {p}, p);
    forall r | r in left && r != p ensures Without(left[r], p) != [] {
      assert IntersectionRow(rows, left.Keys, r, left[r]);
      assert rows[r][0] in rows[r];
      assert r in left[r] && r in Without(left[r], p);
    }
    assert after.Keys == left.Keys - {p};
    forall r | r in after ensures IntersectionRow(rows, left.Keys - {p}, r, after[r]) {
      assert IntersectionRow(rows, left.Keys, r, left[r]);
    }
  }

  /** Discard the rows that intersect the chosen one. */
  method DiscardAll(B: SmMatrix, save: seq<nat>, ghost rows: Rows)
    requires B.Valid() && Intersections(rows, B.rows) && (forall r :: r in rows ==> rows[r] != [])
    modifies B
    ensures B.Valid() && Intersections(rows, B.rows)
    ensures B.rows.Keys == old(B.rows).Keys - Elems(save)
  {
    hide Intersections;
    for k := 0 to |save|
      invariant B.Valid() && Intersections(rows, B.rows)
      invariant B.rows.Keys == old(B.rows).Keys - Elems(save[..k])
    {
      assert save[..k + 1] == save[..k] + [save[k]];
      assert Elems(save[..k + 1]) == Elems(save[..k]) + {save[k]};
      IntersectionsShrink(rows, B.rows, save[k]);
      DropRowNumber(B, save[k]);
      DropColumn(B, save[k]);
    }
    assert save[..|save|] == save;
  }

  /** The row of B with the fewest elements. */
  method ShortestRow(B: SmMatrix) returns (best: nat)
    requires B.Valid() && B.rowNums != []
    ensures best in B.rows && forall r :: r in B.rows ==> |B.rows[best]| <= |B.rows[r]|
  {
    best := B.rowNums[0];
    for k := 1 to |B.rowNums|
      invariant best in B.rows && forall j :: 0 <= j < k ==> |B.rows[best]| <= |B.rows[B.rowNums[j]]|
    {
      if |B.rows[B.rowNums[k]]| < |B.rows[best]| {
        best := B.rowNums[k];
      }
    }
  }

  /** The least weight of an element of the row. */
  method LeastWeight(w: Weights, prow: seq<nat>) returns (least: nat)
    requires prow != []
    ensures forall c :: c in prow ==> least <= WeightOf(w, c)
    ensures exists c :: c in prow && least == WeightOf(w, c)
  {
    if w.Unit? {
      least := 1;
      assert prow[0] in prow;
    } else {
      least := WeightOf(w, prow[0]);
      for k := 1 to |prow|
        invariant forall j :: 0 <= j < k ==> least <= WeightOf(w, prow[j])
        invariant exists j :: 0 <= j < k && least == WeightOf(w, prow[j])
      {
        if WeightOf(w, prow[k]) < least {
          least := WeightOf(w, prow[k]);
        }
      }
    }
  }

  /** `cost` is paid by every cover inside the columns already used. */
  ghost predicate Paid(w: Weights, rows: Rows, used: set<nat>, cost: int) {
    forall S :: IsCover(rows, S) ==> cost <= Cost(w, S * used)
  }

  lemma PaidMore(w: Weights, rows: Rows, used: set<nat>, cost: int, r: nat, least: nat)
    requires Paid(w, rows, used, cost) && r in rows && used !! Elems(rows[r])
    requires forall c :: c in rows[r] ==> least <= WeightOf(w, c)
    ensures Paid(w, rows, used + Elems(rows[r]), cost + least)
  {
    forall S | IsCover(rows, S) ensures cost + least <= Cost(w, S * (used + Elems(rows[r]))) {
      var e := Elems(rows[r]);
      assert Hit(rows[r], S);
      var c :| c in rows[r] && c in S;
      CostUnion(w, S * used, S * e);
      assert S * (used + e) == S * used + S * e;
      CostRemove(w, S * e, c);
    }
  }

  /** The rows chosen are pairwise disjoint. */
  ghost predicate Independent(rows: Rows, chosen: seq<nat>) {
    && (forall r :: r in chosen ==> r in rows)
    && forall r, q :: r in chosen && q in chosen && r != q ==> !Meet(rows[r], rows[q])
  }

  /** Row q meets a chosen row. */
  ghost predicate MeetsChosen(rows: Rows, chosen: seq<nat>, q: nat) {
    exists r :: r in chosen && r in rows && q in rows && Meet(rows[r], rows[q])
  }

  /** No row can be added: every row meets a chosen one. */
  ghost predicate Maximal(rows: Rows, left: Rows, chosen: seq<nat>) {
    forall q :: q in rows ==> q in left || MeetsChosen(rows, chosen, q)
  }

  /** The loop invariant: B holds the rows that meet no chosen row, and the chosen ones have been paid for. */
  ghost predicate Choosing(w: Weights, rows: Rows, left: Rows, chosen: seq<nat>, used: set<nat>, cost: int) {
    && Intersections(rows, left)
    && Sorted(chosen) && Independent(rows, chosen)
    && (forall r, q :: r in chosen && q in left ==> !Meet(rows[r], rows[q]))
    && (forall r :: r in left ==> used !! Elems(rows[r]))
    && Paid(w, rows, used, cost)
    && (rows != map[] ==> chosen != [] || left != map[])
  }

  lemma ChooseRow(w: Weights, rows: Rows, left: Rows, chosen: seq<nat>, used: set<nat>, cost: int, r: nat,
                  least: nat, left': Rows, chosen': seq<nat>)
    requires Choosing(w, rows, left, chosen, used, cost)
    requires r in left && forall c :: c in rows[r] ==> least <= WeightOf(w, c)
    requires Intersections(rows, left') && left'.Keys == left.Keys - Elems(left[r])
    requires Sorted(chosen') && (forall x :: x in chosen' <==> x in chosen || x == r)
    requires forall q :: q in rows ==> rows[q] != []
    ensures Choosing(w, rows, left', chosen', used + Elems(rows[r]), cost + least)
    ensures r !in left'
  {
    assert IntersectionRow(rows, left.Keys, r, left[r]);
    assert rows[r][0] in rows[r] && Meet(rows[r], rows[r]);
    PaidMore(w, rows, used, cost, r, least);
    forall q | q in left' ensures !Meet(rows[r], rows[q]) && Elems(rows[r]) !! Elems(rows[q]) {
      assert q !in left[r];
      assert IntersectionRow(rows, left'.Keys, q, left'[q]);
    }
    forall q | q in chosen ensures !Meet(rows[q], rows[r]) && !Meet(rows[r], rows[q]) {
    }
    assert r in chosen';
  }

  /** The rows discarded meet the row chosen. */
  lemma StillMaximal(rows: Rows, left: Rows, chosen: seq<nat>, r: nat, left': Rows, chosen': seq<nat>)
    requires Maximal(rows, left, chosen) && Intersections(rows, left) && r in left
    requires left'.Keys == left.Keys - Elems(left[r]) && (forall x :: x in chosen' <==> x in chosen || x == r)
    ensures Maximal(rows, left', chosen')
  {
    assert IntersectionRow(rows, left.Keys, r, left[r]);
    forall q | q in rows ensures q in left' || MeetsChosen(rows, chosen', q) {
      if q in left && q !in left' {
        assert q in left[r] && r in chosen';
      } else if q !in left {
        var x :| x in chosen && x in rows && Meet(rows[x], rows[q]);
        assert x in chosen';
      }
    }
  }

  /** One round: choose a shortest row of B, charge its least weight, discard the rows that meet it. */
  method ChooseNext(B: SmMatrix, indep: Sol, w: Weights, rows: Rows, ghost used: set<nat>)
    returns (ghost used': set<nat>)
    requires B.Valid() && B.rowNums != [] && (forall q :: q in rows ==> rows[q] != [])
    requires Choosing(w, rows, B.rows, indep.row, used, indep.cost) && Maximal(rows, B.rows, indep.row)
    modifies B, indep
    ensures B.Valid() && Choosing(w, rows, B.rows, indep.row, used', indep.cost) && Maximal(rows, B.rows, indep.row)
    ensures B.rows.Keys < old(B.rows).Keys
  {
    hide Maximal, Elems, WeightOf, Sorted;
    ghost var left, chosen, cost := B.rows, indep.row, indep.cost;
    var r := ShortestRow(B);
    assert IntersectionRow(rows, left.Keys, r, left[r]);
    var least := LeastWeight(w, rows[r]);
    var row, added := SortedInsert(indep.row, r);
    indep.row, indep.cost := row, indep.cost + least;
    DiscardAll(B, B.rows[r], rows);
    ChooseRow(w, rows, left, chosen, used, cost, r, least, B.rows, row);
    StillMaximal(rows, left, chosen, r, B.rows, row);
    used' := used + Elems(rows[r]);
  }

  lemma StartChoosing(w: Weights, rows: Rows, left: Rows)
    requires left.Keys == rows.Keys && forall r :: r in rows ==> MeetingRows(rows, r, left[r])
    ensures Choosing(w, rows, left, [], {}, 0)
  {
    forall r | r in left ensures IntersectionRow(rows, left.Keys, r, left[r]) {
      assert MeetingRows(rows, r, left[r]);
    }
  }

  /** sm_maximal_independent_set */
  method MaximalIndependentSet(A: SmMatrix, w: Weights) returns (indep: Sol)
    requires A.Valid()
    ensures fresh(indep) && Sorted(indep.row) && Independent(A.rows, indep.row)
    ensures forall q :: q in A.rows ==> MeetsChosen(A.rows, indep.row, q)
    ensures A.rows != map[] ==> indep.row != []
    ensures AtLeast(w, A.rows, indep.cost)
  {
    indep := new Sol();
    var B := BuildIntersectionMatrix(A);
    var rows := A.rows;
    ghost var used := {};
    StartChoosing(w, rows, B.rows);
    while |B.rowNums| > 0
      invariant B.Valid() && fresh(B) && fresh(indep)
      invariant Choosing(w, rows, B.rows, indep.row, used, indep.cost) && Maximal(rows, B.rows, indep.row)
      decreases B.rows.Keys
    {
      used := ChooseNext(B, indep, w, rows, used);
    }
    forall S | IsCover(rows, S) ensures indep.cost <= Cost(w, S) {
      CostSubset(w, S * used, S);
    }
  }
}
