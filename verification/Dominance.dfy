/** dominate.c: deletion of dominating rows and dominated columns. */
module Dominance {
  import opened SortedLists
  import opened SparseMatrix
  import opened Covering

  /** Every column of row a is in row b. */
  ghost predicate Contained(a: seq<nat>, b: seq<nat>) {
    forall c :: c in a ==> c in b
  }

  ghost predicate Undominated(rows: Rows) {
    forall a, b :: a in rows && b in rows && a != b ==> !Contained(rows[a], rows[b])
  }

  // ---------- rows ----------

  lemma RowDeleted(rows: Rows, a: nat, b: nat, S: set<nat>)
    requires a in rows && b in rows && a != b && Contained(rows[a], rows[b])
    ensures IsCover(rows - {b}, S) <==> IsCover(rows, S)
  {
    var rest := rows - {b};
    if IsCover(rest, S) {
      forall r | r in rows ensures Hit(rows[r], S) {
        assert a in rest;
        assert r != b ==> r in rest;
        assert Hit(rest[a], S);
      }
    }
  }

  /** The same covers, hence the same minimum: rows went, none of them needed. */
  ghost predicate FewerRows(before: Rows, after: Rows) {
    && (forall r :: r in after ==> r in before && after[r] == before[r])
    && (forall S :: IsCover(after, S) <==> IsCover(before, S))
  }

  /** Among the columns of a row, the shortest one (`least_col`). */
  method LeastColumn(A: SmMatrix, row: seq<nat>) returns (least: nat)
    requires row != [] && forall c :: c in row ==> c in A.cols
    ensures least in row && forall c :: c in row ==> |A.cols[least]| <= |A.cols[c]|
  {
    least := row[0];
    for k := 1 to |row|
      invariant least in row && forall j :: 0 <= j < k ==> |A.cols[least]| <= |A.cols[row[j]]|
    {
      if |A.cols[row[k]]| < |A.cols[least]| {
        least := row[k];
      }
    }
  }

  /** The test made on the lengths before two rows are compared. */
  predicate Later(rows: Rows, a: nat, b: nat)
    requires a in rows && b in rows
  {
    |rows[b]| > |rows[a]| || (|rows[b]| == |rows[a]| && b > a)
  }

  /** Row a contains no later row of its least column. */
  ghost predicate RowSettled(rows: Rows, a: nat) {
    a in rows ==> forall b :: b in rows && Later(rows, a, b) ==> !Contained(rows[a], rows[b])
  }

  lemma SettledUndominated(rows: Rows)
    requires forall a :: a in rows ==> RowSettled(rows, a) && Sorted(rows[a])
    ensures Undominated(rows)
  {
    forall a, b | a in rows && b in rows && a != b ensures !Contained(rows[a], rows[b]) {
      if Contained(rows[a], rows[b]) {
        ContainedLength(rows[a], rows[b]);
      }
    }
  }

  lemma ContainedLength(a: seq<nat>, b: seq<nat>)
    requires Sorted(a) && Sorted(b) && Contained(a, b)
    ensures |a| <= |b|
    ensures |a| == |b| ==> a == b
  {
    SortedLength(a);
    SortedLength(b);
    var x, y := Elems(a), Elems(b);
    assert y == x + (y - x);
    if |a| == |b| {
      assert y - x == {};
      SortedUnique(a, b);
    }
  }

  /** sm_delrow on a row that another row is contained in. */
  method DropRow(A: SmMatrix, a: nat, b: nat)
    requires A.Valid() && a in A.rows && b in A.rows && a != b && Contained(A.rows[a], A.rows[b])
    modifies A
    ensures A.Valid() && A.rows == old(A.rows) - {b} && FewerRows(old(A.rows), A.rows)
  {
    forall S ensures IsCover(A.rows - {b}, S) <==> IsCover(A.rows, S) {
      RowDeleted(A.rows, a, b, S);
    }
    A.DelRow(b);
    assert a in A.rows;
  }

  /** One step of the inner loop: row b goes if it is later than row a and contains it. */
  method CompareRows(A: SmMatrix, a: nat, b: nat)
    requires A.Valid() && a in A.rows && b in A.rows
    modifies A
    ensures A.Valid() && FewerRows(old(A.rows), A.rows)
    ensures A.rows == old(A.rows) || A.rows == old(A.rows) - {b}
    ensures a in A.rows
    ensures b in A.rows && Later(A.rows, a, b) ==> !Contained(A.rows[a], A.rows[b])
  {
    if Later(A.rows, a, b) {
      var contains := ListContains(A.rows[a], A.rows[b]);
      if contains {
        DropRow(A, a, b);
      }
    }
  }

  lemma FewerRowsRefl(a: Rows)
    ensures FewerRows(a, a)
  {
  }

  lemma FewerKeys(before: Rows, after: Rows)
    requires FewerRows(before, after)
    ensures after.Keys <= before.Keys && forall r :: r in after ==> after[r] == before[r]
  {
  }

  /** Only rows with an element in a column of the row can contain it. */
  lemma ListSettles(rows: Rows, a: nat, least: nat, list: seq<nat>)
    requires a in rows && least in rows[a]
    requires forall b :: b in rows && least in rows[b] ==> b in list
    requires forall j :: 0 <= j < |list| && list[j] in rows && Later(rows, a, list[j]) ==>
               !Contained(rows[a], rows[list[j]])
    ensures RowSettled(rows, a)
  {
  }

  /** The inner loop: delete the later rows of column `least` that contain row a. */
  method DeleteContaining(A: SmMatrix, a: nat, least: nat)
    requires A.Valid() && a in A.rows && least in A.rows[a]
    modifies A
    ensures A.Valid() && a in A.rows
    ensures FewerRows(old(A.rows), A.rows)
    ensures RowSettled(A.rows, a)
  {
    hide FewerRows, RowSettled, Contained;
    var list := A.cols[least];
    FewerRowsRefl(A.rows);
    for k := 0 to |list|
      invariant A.Valid() && a in A.rows && A.rows[a] == old(A.rows)[a]
      invariant FewerRows(old(A.rows), A.rows)
      invariant forall j :: k <= j < |list| ==> list[j] in A.rows
      invariant forall j :: 0 <= j < k && list[j] in A.rows && Later(A.rows, a, list[j]) ==>
                  !Contained(A.rows[a], A.rows[list[j]])
    {
      ghost var before := A.rows;
      CompareRows(A, a, list[k]);
      FewerRowsTrans(old(A.rows), before, A.rows);
      FewerKeys(before, A.rows);
    }
    FewerKeys(old(A.rows), A.rows);
    ListSettles(A.rows, a, least, list);
  }

  /** A settled row stays settled when rows go. */
  lemma StaysSettled(before: Rows, after: Rows, a: nat)
    requires FewerRows(before, after) && (a in after ==> RowSettled(before, a))
    ensures RowSettled(after, a)
  {
  }

  lemma FewerRowsTrans(a: Rows, b: Rows, c: Rows)
    requires FewerRows(a, b) && FewerRows(b, c)
    ensures FewerRows(a, c)
  {
  }

  lemma NoNewColumn(rows: Rows, cols: Rows, rows0: Rows, cols0: Rows)
    requires Mirrored(rows, cols) && Mirrored(rows0, cols0) && (forall c :: c in cols ==> cols[c] != [])
    requires forall r :: r in rows ==> r in rows0 && Contained(rows[r], rows0[r])
    ensures cols.Keys <= cols0.Keys
  {
    forall c | c in cols ensures c in cols0 {
      var r := cols[c][0];
      assert r in cols[c] && c in rows[r] && c in rows0[r];
    }
  }

  /** sm_row_dominance -- the number of rows deleted; 0 means no row contained another. */
  method RowDominance(A: SmMatrix) returns (deleted: nat)
    requires A.Valid()
    modifies A
    ensures A.Valid() && FewerRows(old(A.rows), A.rows)
    ensures A.cols.Keys <= old(A.cols).Keys
    ensures deleted == old(|A.rowNums|) - |A.rowNums|
    ensures deleted == 0 ==> A.rows == old(A.rows) && Undominated(A.rows)
  {
    hide FewerRows, RowSettled, Undominated;
    var rowcnt := |A.rowNums|;
    var nums := A.rowNums;
    FewerRowsRefl(A.rows);
    for k := 0 to |nums|
      invariant A.Valid() && FewerRows(old(A.rows), A.rows)
      invariant forall r :: r in A.rows ==> r in nums
      invariant forall j :: 0 <= j < k && nums[j] in A.rows ==> RowSettled(A.rows, nums[j])
    {
      var a := nums[k];
      if a in A.rows {
        var least := LeastColumn(A, A.rows[a]);
        ghost var before := A.rows;
        DeleteContaining(A, a, least);
        FewerRowsTrans(old(A.rows), before, A.rows);
        FewerKeys(before, A.rows);
        forall j | 0 <= j < k && nums[j] in A.rows ensures RowSettled(A.rows, nums[j]) {
          StaysSettled(before, A.rows, nums[j]);
        }
      }
    }
    FewerKeys(old(A.rows), A.rows);
    forall a | a in A.rows ensures RowSettled(A.rows, a) {
      var j :| 0 <= j < |nums| && nums[j] == a;
    }
    SettledUndominated(A.rows);
    NoNewColumn(A.rows, A.cols, old(A.rows), old(A.cols));
    KeyCount(A.rowNums, nums, A.rows, old(A.rows));
    deleted := rowcnt - |A.rowNums|;
  }

  // ---------- columns ----------

  /** A smaller problem with the same minimum, whose covers are covers. */
  ghost predicate Simplifies(w: Weights, before: Rows, after: Rows) {
    && ColsOf(after) <= ColsOf(before)
    && (forall S :: IsCover(after, S) ==> IsCover(before, S))
    && (forall k: int :: AtLeast(w, after, k) ==> AtLeast(w, before, k))
  }

  lemma FewerRowsSimplify(w: Weights, before: Rows, after: Rows)
    requires FewerRows(before, after)
    ensures Simplifies(w, before, after)
  {
  }

  lemma SimplifiesTrans(w: Weights, a: Rows, b: Rows, c: Rows)
    requires Simplifies(w, a, b) && Simplifies(w, b, c)
    ensures Simplifies(w, a, c)
  {
  }

  lemma SimplifiesReduces(w: Weights, a: State, b: State)
    requires Simplifies(w, a.rows, b.rows) && a.sel == b.sel && a.cost == b.cost
    ensures Reduces(w, a, b)
  {
    assert Added(a, b) == {};
    forall S ensures S + Added(a, b) == S {
    }
  }

  /** Column d is in every row that holds column c, and costs no more. */
  ghost predicate Dominated(w: Weights, rows: Rows, c: nat, d: nat) {
    && c != d && WeightOf(w, d) <= WeightOf(w, c)
    && forall r :: r in rows && c in rows[r] ==> d in rows[r]
  }

  lemma ColumnExchange(w: Weights, rows: Rows, c: nat, d: nat, S: set<nat>) returns (T: set<nat>)
    requires Dominated(w, rows, c, d) && IsCover(rows, S)
    ensures IsCover(DropCol(rows, c), T) && Cost(w, T) <= Cost(w, S)
  {
    T := if c in S then S - {c} + {d} else S;
    var rest := DropCol(rows, c);
    forall r | r in rest ensures Hit(rest[r], T) {
      assert Hit(rows[r], S);
      var x :| x in rows[r] && x in S;
      if x == c {
        assert d in rest[r] && d in T;
      } else {
        assert x in rest[r] && x in T;
      }
    }
    if c in S {
      CostRemove(w, S, c);
      CostAdded(w, S - {c}, {d});
      CostSingle(w, d);
    }
  }

  lemma ColumnDeleted(w: Weights, rows: Rows, c: nat, d: nat)
    requires Dominated(w, rows, c, d) && (forall r :: r in rows ==> rows[r] != [])
    ensures Simplifies(w, rows, DropCol(rows, c))
    ensures DropCol(rows, c).Keys == rows.Keys
  {
    var rest := DropCol(rows, c);
    forall r | r in rows ensures r in rest {
      var x := if rows[r][0] == c then d else rows[r][0];
      assert x in rows[r] && x in Without(rows[r], c);
    }
    forall S | IsCover(rest, S) ensures IsCover(rows, S) {
      forall r | r in rows ensures Hit(rows[r], S) {
        assert Hit(rest[r], S);
      }
    }
    forall k: int | AtLeast(w, rest, k) ensures AtLeast(w, rows, k) {
      forall S | IsCover(rows, S) ensures k <= Cost(w, S) {
        var T := ColumnExchange(w, rows, c, d, S);
      }
    }
  }

  /** Among the rows of a column, the shortest one (`least_row`). */
  method LeastRow(A: SmMatrix, col: seq<nat>) returns (least: nat)
    requires col != [] && forall r :: r in col ==> r in A.rows
    ensures least in col && forall r :: r in col ==> |A.rows[least]| <= |A.rows[r]|
  {
    least := col[0];
    for k := 1 to |col|
      invariant least in col && forall j :: 0 <= j < k ==> |A.rows[least]| <= |A.rows[col[j]]|
    {
      if |A.rows[col[k]]| < |A.rows[least]| {
        least := col[k];
      }
    }
  }

  /** Column d passes the tests on weight and length and contains column c. */
  predicate Removes(w: Weights, cols: Rows, c: nat, d: nat)
    requires c in cols && d in cols
  {
    WeightOf(w, d) <= WeightOf(w, c) && Later(cols, c, d) && forall r :: r in cols[c] ==> r in cols[d]
  }

  /** No column removes column c. */
  ghost predicate ColSettled(w: Weights, cols: Rows, c: nat) {
    c in cols ==> forall d :: d in cols ==> !Removes(w, cols, c, d)
  }

  // ---------- columns bound to be selected ----------

  /** Column d is the last one of some row, and in every row that holds a column of it. */
  ghost predicate Forced(rows: Rows, d: nat) {
    exists r :: r in rows && ForcedBy(rows, r, d)
  }

  ghost predicate ForcedBy(rows: Rows, r: nat, d: nat)
    requires r in rows
  {
    d in rows[r] && forall c :: c in rows[r] ==> c <= d && forall q :: q in rows && c in rows[q] ==> d in rows[q]
  }

  /** Column d is in the rows of column c, and in more, or it is the later one. */
  ghost predicate Replaces(rows: Rows, c: nat, d: nat) {
    && c != d && (forall q :: q in rows && c in rows[q] ==> d in rows[q])
    && (c < d || exists q :: q in rows && d in rows[q] && c !in rows[q])
  }

  lemma RemovesReplaces(w: Weights, rows: Rows, cols: Rows, c: nat, d: nat)
    requires Mirrored(rows, cols) && c in cols && d in cols && Sorted(cols[c]) && Sorted(cols[d]) &&
      Removes(w, cols, c, d)
    ensures Replaces(rows, c, d)
  {
    if !(c < d) {
      if Contained(cols[d], cols[c]) {
        ContainedLength(cols[d], cols[c]);
      }
      var q :| q in cols[d] && q !in cols[c];
      assert q in rows && d in rows[q] && c !in rows[q];
    }
  }

  /** The columns that are bound to be selected stay so when a column goes that another one replaces. */
  lemma DropKeepsForced(rows: Rows, c: nat, e: nat, d: nat)
    requires Replaces(rows, c, e) && Forced(rows, d)
    ensures Forced(DropCol(rows, c), d)
  {
    var r :| r in rows && ForcedBy(rows, r, d);
    assert c != d;
    assert r in DropCol(rows, c);
    assert ForcedBy(DropCol(rows, c), r, d);
  }

  ghost predicate KeepsForced(before: Rows, after: Rows) {
    forall d :: Forced(before, d) ==> Forced(after, d)
  }

  /** Some column is contained in another one that costs no more. */
  ghost predicate HasDominated(w: Weights, rows: Rows) {
    exists c, d :: c in ColsOf(rows) && Dominated(w, rows, c, d)
  }

  /** Columns bound to be selected stay so, and nothing changes unless some column is dominated. */
  ghost predicate Loses(w: Weights, before: Rows, after: Rows) {
    KeepsForced(before, after) && (!HasDominated(w, before) ==> after == before)
  }

  lemma LosesColumn(w: Weights, rows: Rows, cols: Rows, c: nat, d: nat)
    requires Mirrored(rows, cols) && c in cols && d in cols && Sorted(cols[c]) && Sorted(cols[d]) && cols[c] != []
    requires Removes(w, cols, c, d) && Dominated(w, rows, c, d)
    ensures Loses(w, rows, DropCol(rows, c))
  {
    RemovesReplaces(w, rows, cols, c, d);
    forall e | Forced(rows, e) ensures Forced(DropCol(rows, c), e) {
      DropKeepsForced(rows, c, d, e);
    }
    var r := cols[c][0];
    assert r in cols[c];
    assert r in rows && c in rows[r];
  }

  lemma LosesTrans(w: Weights, a: Rows, b: Rows, c: Rows)
    requires Loses(w, a, b) && Loses(w, b, c)
    ensures Loses(w, a, c)
  {
  }

  /** A row that goes leaves one within it, in which the same column is bound to be selected. */
  lemma RowsKeepForced(before: Rows, after: Rows)
    requires FewerRows(before, after) && forall r :: r in before ==> before[r] != []
    ensures KeepsForced(before, after)
  {
    forall d | Forced(before, d) ensures Forced(after, d) {
      var r :| r in before && ForcedBy(before, r, d);
      var S := set c | c in ColsOf(before) && c !in before[r];
      assert !Hit(before[r], S);
      assert !IsCover(after, S);
      var q :| q in after && !Hit(after[q], S);
      var c := after[q][0];
      assert c in after[q];
      forall x | x in after[q] ensures x in before[r] {
        assert x in ColsOf(before);
      }
      assert ForcedBy(after, q, d);
    }
  }

  /** Look along row `least` for a column that removes c. */
  method FindDominating(A: SmMatrix, w: Weights, c: nat, least: nat) returns (found: bool, ghost d: nat)
    requires A.Valid() && c in A.cols && least in A.cols[c]
    ensures found ==> Dominated(w, A.rows, c, d) && d in A.cols && Removes(w, A.cols, c, d)
    ensures !found ==> ColSettled(w, A.cols, c)
  {
    var list := A.rows[least];
    for k := 0 to |list|
      invariant forall j :: 0 <= j < k ==> list[j] in A.cols && !Removes(w, A.cols, c, list[j])
    {
      d := list[k];
      var col1 := list[k];
      if w == Unit || WeightOf(w, col1) <= WeightOf(w, c) {
        if Later(A.cols, c, col1) {
          var contains := ListContains(A.cols[c], A.cols[col1]);
          if contains {
            return true, d;
          }
        }
      }
    }
    return false, 0;
  }

  /** One column: deleted if some other column removes it. */
  method CheckColumn(A: SmMatrix, w: Weights, c: nat) returns (found: bool)
    requires A.Valid() && c in A.cols
    modifies A
    ensures A.Valid() && Simplifies(w, old(A.rows), A.rows) && A.rows.Keys == old(A.rows).Keys
    ensures Loses(w, old(A.rows), A.rows)
    ensures found ==> A.cols.Keys == old(A.cols).Keys - {c}
    ensures !found ==> unchanged(A) && ColSettled(w, A.cols, c)
  {
    var least := LeastRow(A, A.cols[c]);
    ghost var d;
    found, d := FindDominating(A, w, c, least);
    if found {
      ColumnDeleted(w, A.rows, c, d);
      LosesColumn(w, A.rows, A.cols, c, d);
      A.DelCol(c);
    } else {
      FewerRowsSimplify(w, A.rows, A.rows);
    }
  }

  lemma NothingLost(w: Weights, rows: Rows)
    ensures Simplifies(w, rows, rows) && Loses(w, rows, rows)
  {
  }

  /** sm_col_dominance -- the number of columns deleted. */
  method ColDominance(A: SmMatrix, w: Weights) returns (deleted: nat)
    requires A.Valid()
    modifies A
    ensures A.Valid() && Simplifies(w, old(A.rows), A.rows) && Loses(w, old(A.rows), A.rows)
    ensures A.rows.Keys == old(A.rows).Keys
    ensures A.cols.Keys <= old(A.cols).Keys
    ensures deleted == old(|A.colNums|) - |A.colNums|
    ensures deleted == 0 ==> A.rows == old(A.rows) && forall c :: c in A.cols ==> ColSettled(w, A.cols, c)
    ensures deleted == 0 && w == Unit && |A.rowNums| <= 1 ==> forall r :: r in A.rows ==> |A.rows[r]| <= 1
  {
    hide Simplifies, Loses, ColSettled;
    var colcnt := |A.colNums|;
    var nums := A.colNums;
    NothingLost(w, A.rows);
    for k := 0 to |nums|
      invariant A.Valid() && Simplifies(w, old(A.rows), A.rows) && Loses(w, old(A.rows), A.rows)
      invariant A.rows.Keys == old(A.rows).Keys
      invariant A.cols.Keys <= old(A.cols).Keys
      invariant A.cols.Keys == old(A.cols).Keys ==>
        A.rows == old(A.rows) && A.cols == old(A.cols) && forall j :: 0 <= j < k ==> ColSettled(w, A.cols, nums[j])
      invariant forall j :: k <= j < |nums| ==> nums[j] in A.cols
    {
      ghost var before := A.rows;
      assert forall j :: k < j < |nums| ==> nums[k] < nums[j];
      var found := CheckColumn(A, w, nums[k]);
      SimplifiesTrans(w, old(A.rows), before, A.rows);
      LosesTrans(w, old(A.rows), before, A.rows);
    }
    KeyCount(A.colNums, nums, A.cols, old(A.cols));
    deleted := colcnt - |A.colNums|;
    if deleted == 0 && w == Unit && |A.rowNums| <= 1 {
      SingleRow(A.rows, A.cols, A.rowNums, A.colNums);
    }
  }

  /** Of the columns of a single row only one is left. */
  lemma SingleRow(rows: Rows, cols: Rows, rowNums: seq<nat>, colNums: seq<nat>)
    requires Mirrored(rows, cols) && Headed(rowNums, rows) && Headed(colNums, cols) && |rowNums| <= 1
    requires forall c :: c in cols ==> ColSettled(Unit, cols, c)
    ensures forall r :: r in rows ==> |rows[r]| <= 1
  {
    forall r | r in rows ensures |rows[r]| <= 1 {
      if |rows[r]| >= 2 {
        TwinColumns(rows, cols, rowNums, colNums, r);
      }
    }
  }

  lemma TwinColumns(rows: Rows, cols: Rows, rowNums: seq<nat>, colNums: seq<nat>, r: nat)
    requires Mirrored(rows, cols) && Headed(rowNums, rows) && Headed(colNums, cols) && |rowNums| <= 1
    requires r in rows && |rows[r]| >= 2
    ensures var c, d := rows[r][0], rows[r][1]; c in cols && d in cols && Removes(Unit, cols, c, d)
  {
    var c, d := rows[r][0], rows[r][1];
    assert c in rows[r] && d in rows[r];
    OnlyRow(rows, cols, rowNums, r, c);
    OnlyRow(rows, cols, rowNums, r, d);
    assert c < d;
  }

  lemma AllTheSame(s: seq<nat>, r: nat)
    requires Sorted(s) && s != [] && forall k :: 0 <= k < |s| ==> s[k] == r
    ensures s == [r]
  {
    assert s[0] == s[|s| - 1];
  }

  lemma OnlyRow(rows: Rows, cols: Rows, rowNums: seq<nat>, r: nat, c: nat)
    requires Mirrored(rows, cols) && Headed(rowNums, rows) && |rowNums| <= 1 && r in rows && c in rows[r]
    requires c in cols ==> Sorted(cols[c]) && cols[c] != []
    ensures c in cols && cols[c] == [r]
  {
    assert r in rowNums;
    forall k | 0 <= k < |cols[c]| ensures cols[c][k] == r {
      assert cols[c][k] in cols[c];
      assert cols[c][k] in rowNums;
    }
    AllTheSame(cols[c], r);
  }

  lemma KeyCount(after: seq<nat>, before: seq<nat>, lists: Rows, lists0: Rows)
    requires Headed(after, lists) && Headed(before, lists0) && lists.Keys <= lists0.Keys
    ensures |after| <= |before|
    ensures |after| == |before| ==> lists.Keys == lists0.Keys
  {
    ContainedLength(after, before);
  }
}
