/** mincov.c, select_essential: the reductions that are repeated until nothing changes. */
module Reductions {
  import opened SortedLists
  import opened SparseMatrix
  import opened Covering
  import opened Dominance
  import opened Solution

  /** Sorted selection, no selected column left in the matrix. */
  ghost predicate Ready(A: SmMatrix, select: Sol)
    reads A, select
  {
    A.Valid() && Sorted(select.row) && Disjoint(StateOf(A, select))
  }

  /** What select_essential leaves behind: no row of one column, no row containing another. */
  ghost predicate Cyclic(rows: Rows) {
    && (forall r :: r in rows ==> |rows[r]| >= 2)
    && Undominated(rows)
  }

  /** Column c is all there is in some row. */
  ghost predicate Essential(rows: Rows, c: nat) {
    exists r :: r in rows && rows[r] == [c]
  }

  /** The columns of the rows with one element. */
  method Essentials(A: SmMatrix) returns (essen: seq<nat>)
    requires A.Valid()
    ensures Sorted(essen)
    ensures forall c :: c in essen <==> Essential(A.rows, c)
  {
    essen := [];
    var nums := A.rowNums;
    for k := 0 to |nums|
      invariant Sorted(essen)
      invariant forall c :: c in essen <==> exists r :: r in A.rows && r in nums[..k] && A.rows[r] == [c]
    {
      assert nums[..k + 1] == nums[..k] + [nums[k]];
      var prow := A.rows[nums[k]];
      if |prow| == 1 {
        assert prow == [prow[0]];
        var added;
        essen, added := SortedInsert(essen, prow[0]);
      }
    }
    assert nums[..|nums|] == nums;
  }

  /** Accept one essential column; the other essential columns stay essential. */
  method AcceptOne(A: SmMatrix, select: Sol, w: Weights, c: nat)
    requires Ready(A, select) && Essential(A.rows, c)
    modifies A, select
    ensures Ready(A, select)
    ensures Reduces(w, old(StateOf(A, select)), StateOf(A, select))
    ensures |A.rowNums| < old(|A.rowNums|) && |A.colNums| <= old(|A.colNums|)
    ensures forall d: nat :: d != c && Essential(old(A.rows), d) ==> Essential(A.rows, d)
    ensures Binds(old(StateOf(A, select)), StateOf(A, select))
  {
    ghost var r :| r in A.rows && A.rows[r] == [c];
    ghost var s, rowNums, colNums, rows, cols := StateOf(A, select), A.rowNums, A.colNums, A.rows, A.cols;
    assert c in A.rows[r];
    AcceptEssential(w, s, c, r);
    AcceptSelects(w, s, c);
    Accept(select, A, w, c);
    assert StateOf(A, select) == AcceptState(w, s, c);
    AcceptBinds(w, s, c, r);
    NoNewColumn(A.rows, A.cols, rows, cols);
    KeyCount(A.rowNums, rowNums, A.rows, rows);
    KeyCount(A.colNums, colNums, A.cols, cols);
    assert r !in A.rows;
    forall d: nat | d != c && Essential(rows, d) ensures Essential(A.rows, d) {
      var q :| q in rows && rows[q] == [d];
      assert q in A.rows;
    }
  }

  /** Select all essential columns, stopping when the bound is reached. */
  method AcceptEssentials(A: SmMatrix, select: Sol, w: Weights, bound: int, essen: seq<nat>)
    requires Ready(A, select)
    requires Sorted(essen) && forall c :: c in essen ==> Essential(A.rows, c)
    modifies A, select
    ensures Ready(A, select)
    ensures Reduces(w, old(StateOf(A, select)), StateOf(A, select))
    ensures Binds(old(StateOf(A, select)), StateOf(A, select))
    ensures essen == [] ==> unchanged(A) && unchanged(select)
    ensures essen != [] ==> |A.rowNums| < old(|A.rowNums|)
    ensures |A.rowNums| <= old(|A.rowNums|) && |A.colNums| <= old(|A.colNums|)
  {
    ghost var s0 := StateOf(A, select);
    ReducesRefl(w, s0);
    for k := 0 to |essen|
      invariant Ready(A, select)
      invariant Reduces(w, s0, StateOf(A, select)) && Binds(s0, StateOf(A, select))
      invariant k == 0 ==> unchanged(A) && unchanged(select)
      invariant k > 0 ==> |A.rowNums| < old(|A.rowNums|)
      invariant |A.colNums| <= old(|A.colNums|)
      invariant forall j :: k <= j < |essen| ==> Essential(A.rows, essen[j])
    {
      ghost var s1 := StateOf(A, select);
      AcceptOne(A, select, w, essen[k]);
      ReducesTrans(w, s0, s1, StateOf(A, select));
      BindsTrans(w, s0, s1, StateOf(A, select));
      if select.cost >= bound {
        return;
      }
    }
  }

  // ---------- what a reduction keeps ----------

  /** A column bound to be selected is selected, or still bound to be. */
  ghost predicate Binds(a: State, b: State) {
    forall d :: Forced(a.rows, d) ==> d in b.sel || Forced(b.rows, d)
  }

  lemma BindsTrans(w: Weights, a: State, b: State, c: State)
    requires Selected(w, b, c) && Binds(a, b) && Binds(b, c)
    ensures Binds(a, c)
  {
  }

  lemma AcceptBinds(w: Weights, a: State, c: nat, r: nat)
    requires r in a.rows && a.rows[r] == [c]
    ensures Binds(a, AcceptState(w, a, c))
  {
    forall d | Forced(a.rows, d) && d != c ensures Forced(Uncovered(a.rows, c), d) {
      var q :| q in a.rows && ForcedBy(a.rows, q, d);
      assert c in a.rows[r] && d !in a.rows[r];
      assert q in Uncovered(a.rows, c);
      assert ForcedBy(Uncovered(a.rows, c), q, d);
    }
  }

  /** A nonempty matrix in which no row is decided. */
  ghost predicate Thick(rows: Rows) {
    rows != map[] && forall r :: r in rows ==> |rows[r]| >= 2 && Sorted(rows[r])
  }

  /** Some column of a is neither selected in b nor left in it. */
  ghost predicate Leaves(a: State, b: State) {
    !(ColsOf(a.rows) <= b.sel + ColsOf(b.rows))
  }

  /** From a thick matrix either a column has been left out, or nothing was selected and the matrix is still thick. */
  ghost predicate Thins(a: State, b: State) {
    Thick(a.rows) ==> Leaves(a, b) || (b.sel == a.sel && Thick(b.rows) && ColsOf(b.rows) <= ColsOf(a.rows))
  }

  lemma ThinsTrans(w: Weights, a: State, b: State, c: State)
    requires Selected(w, a, b) && Selected(w, b, c) && Thins(a, b) && Thins(b, c)
    ensures Thins(a, c)
  {
    if Thick(a.rows) && Leaves(a, b) {
      var x :| x in ColsOf(a.rows) && x !in b.sel + ColsOf(b.rows);
      assert x !in c.sel && x !in ColsOf(c.rows);
    }
  }

  /** A matrix to which no reduction but the deletion of a row applies, however many rows go that are not needed. */
  ghost predicate Firm(w: Weights, rows: Rows) {
    forall sub :: FewerRows(rows, sub) ==> Thick(sub) && !HasDominated(w, sub)
  }

  ghost predicate Settles(w: Weights, a: State, b: State) {
    Firm(w, a.rows) ==> b.sel == a.sel && b.cost == a.cost && FewerRows(a.rows, b.rows)
  }

  lemma SettlesTrans(w: Weights, a: State, b: State, c: State)
    requires Settles(w, a, b) && Settles(w, b, c)
    ensures Settles(w, a, c)
  {
    if Firm(w, a.rows) {
      forall sub | FewerRows(b.rows, sub) ensures Thick(sub) && !HasDominated(w, sub) {
        FewerRowsTrans(a.rows, b.rows, sub);
      }
      FewerRowsTrans(a.rows, b.rows, c.rows);
    }
  }

  lemma FirmItself(w: Weights, rows: Rows)
    requires Firm(w, rows)
    ensures Thick(rows) && !HasDominated(w, rows)
  {
    assert FewerRows(rows, rows);
  }

  /** All that is kept from state a to state b. */
  ghost predicate Stage(w: Weights, a: State, b: State) {
    Reduces(w, a, b) && Thins(a, b) && Binds(a, b) && Settles(w, a, b)
  }

  lemma StageTrans(w: Weights, a: State, b: State, c: State)
    requires Disjoint(a) && Stage(w, a, b) && Stage(w, b, c)
    ensures Stage(w, a, c)
  {
    ReducesTrans(w, a, b, c);
    ThinsTrans(w, a, b, c);
    BindsTrans(w, a, b, c);
    SettlesTrans(w, a, b, c);
  }

  lemma StageRefl(w: Weights, a: State)
    ensures Stage(w, a, a)
  {
    ReducesRefl(w, a);
    assert FewerRows(a.rows, a.rows);
  }

  /** Columns were deleted. */
  lemma ColumnsStage(w: Weights, a: State, b: State, cols: Rows, cols': Rows, colNums: seq<nat>, colNums': seq<nat>)
    requires Disjoint(a) && a.sel == b.sel && a.cost == b.cost && Mirrored(a.rows, cols) && Mirrored(b.rows, cols')
    requires Headed(colNums, cols) && Headed(colNums', cols') && cols'.Keys <= cols.Keys
    requires |colNums| == |colNums'| ==> b.rows == a.rows
    requires Simplifies(w, a.rows, b.rows) && Loses(w, a.rows, b.rows)
    ensures Stage(w, a, b)
  {
    SimplifiesReduces(w, a, b);
    ColumnsThin(a, b, cols, cols', colNums, colNums');
    if Firm(w, a.rows) {
      FirmItself(w, a.rows);
      assert FewerRows(a.rows, a.rows);
    }
  }

  /** A column that was deleted is left out. */
  lemma ColumnsThin(a: State, b: State, cols: Rows, cols': Rows, colNums: seq<nat>, colNums': seq<nat>)
    requires Disjoint(a) && a.sel == b.sel && Mirrored(a.rows, cols) && Mirrored(b.rows, cols')
    requires Headed(colNums, cols) && Headed(colNums', cols') && cols'.Keys <= cols.Keys
    requires |colNums| == |colNums'| ==> b.rows == a.rows
    ensures Thins(a, b)
  {
    ColumnHeaders(a.rows, cols, colNums);
    ColumnHeaders(b.rows, cols', colNums');
    if cols'.Keys == cols.Keys {
      KeyCount(colNums', colNums, cols', cols);
      KeyCount(colNums, colNums', cols, cols');
    } else {
      var x :| x in cols.Keys && x !in cols'.Keys;
      assert x in ColsOf(a.rows) && x !in ColsOf(b.rows) && x !in a.sel;
    }
  }

  /** Rows were deleted. */
  lemma RowsStage(w: Weights, a: State, b: State)
    requires a.sel == b.sel && a.cost == b.cost && FewerRows(a.rows, b.rows) &&
      forall r :: r in a.rows ==> a.rows[r] != []
    ensures Stage(w, a, b)
  {
    FewerRowsSimplify(w, a.rows, b.rows);
    SimplifiesReduces(w, a, b);
    RowsThin(a, b);
    RowsKeepForced(a.rows, b.rows);
  }

  lemma RowsThin(a: State, b: State)
    requires a.sel == b.sel && FewerRows(a.rows, b.rows)
    ensures Thins(a, b)
  {
    if Thick(a.rows) {
      var r :| r in a.rows;
      assert !Hit(a.rows[r], {});
      assert !IsCover(a.rows, {});
      assert !IsCover(b.rows, {});
    }
  }

  /** Essential columns were selected; a thick matrix has none. */
  lemma EssentialsStage(w: Weights, a: State, b: State, essen: seq<nat>)
    requires (forall c :: c in essen <==> Essential(a.rows, c)) && (essen == [] ==> b == a)
    requires Reduces(w, a, b) && Binds(a, b)
    ensures Stage(w, a, b)
  {
    if Thick(a.rows) {
      assert essen != [] ==> Essential(a.rows, essen[0]);
    }
    if Firm(w, a.rows) {
      FirmItself(w, a.rows);
      assert FewerRows(a.rows, a.rows);
    }
  }

  // ---------- select_essential ----------

  /** Nothing is left to do. */
  ghost predicate FullyReduced(w: Weights, A: SmMatrix)
    reads A
  {
    && Cyclic(A.rows)
    && (w == Unit ==> forall d :: !Forced(A.rows, d))
    && (w == Unit && |A.rowNums| <= 1 ==> A.rows == map[])
  }

  /** Without a column that another one removes, none is bound to be selected. */
  lemma NoneForced(rows: Rows, cols: Rows, d: nat)
    requires Mirrored(rows, cols) && Cyclic(rows) && (forall r :: r in rows ==> Sorted(rows[r]))
    requires forall c :: c in cols ==> Sorted(cols[c]) && ColSettled(Unit, cols, c)
    ensures !Forced(rows, d)
  {
    if Forced(rows, d) {
      var r :| r in rows && ForcedBy(rows, r, d);
      var c := if rows[r][0] == d then rows[r][1] else rows[r][0];
      assert c in rows[r];
      ForcedRemoves(rows, cols, r, c, d);
    }
  }

  lemma ForcedRemoves(rows: Rows, cols: Rows, r: nat, c: nat, d: nat)
    requires Mirrored(rows, cols) && r in rows && ForcedBy(rows, r, d) && c in rows[r] && c != d
    requires forall c :: c in cols ==> Sorted(cols[c])
    ensures c in cols && d in cols && Removes(Unit, cols, c, d)
  {
    assert Contained(cols[c], cols[d]) by {
      forall q | q in cols[c] ensures q in cols[d] {
        assert q in rows && c in rows[q];
      }
    }
    ContainedLength(cols[c], cols[d]);
  }

  /** The columns that other ones remove. */
  method ReduceColumns(A: SmMatrix, select: Sol, w: Weights) returns (deleted: nat)
    requires Ready(A, select)
    modifies A
    ensures Ready(A, select) && Stage(w, old(StateOf(A, select)), StateOf(A, select))
    ensures |A.rowNums| <= old(|A.rowNums|) && deleted == old(|A.colNums|) - |A.colNums|
    ensures deleted == 0 ==> NoneRemoved(w, A)
  {
    ghost var s, rowNums, rows, colNums, cols := StateOf(A, select), A.rowNums, A.rows, A.colNums, A.cols;
    deleted := ColDominance(A, w);
    KeyCount(A.rowNums, rowNums, A.rows, rows);
    ColumnsStage(w, s, StateOf(A, select), cols, A.cols, colNums, A.colNums);
  }

  /** What sm_col_dominance leaves when it deletes nothing. */
  ghost predicate NoneRemoved(w: Weights, A: SmMatrix)
    reads A
  {
    && (forall c :: c in A.cols ==> ColSettled(w, A.cols, c))
    && (w == Unit && |A.rowNums| <= 1 ==> forall r :: r in A.rows ==> |A.rows[r]| <= 1)
  }

  /** The columns that are alone in a row; the search stops when the bound is reached. */
  method ReduceEssentials(A: SmMatrix, select: Sol, w: Weights, bound: int) returns (essen: seq<nat>)
    requires Ready(A, select)
    modifies A, select
    ensures Ready(A, select) && Stage(w, old(StateOf(A, select)), StateOf(A, select))
    ensures |A.rowNums| <= old(|A.rowNums|) && |A.colNums| <= old(|A.colNums|)
    ensures essen == [] ==> unchanged(A) && unchanged(select) && forall c :: !Essential(A.rows, c)
    ensures essen != [] ==> |A.rowNums| < old(|A.rowNums|)
  {
    ghost var s := StateOf(A, select);
    essen := Essentials(A);
    AcceptEssentials(A, select, w, bound, essen);
    EssentialsStage(w, s, StateOf(A, select), essen);
  }

  /** The columns of a matrix follow from its rows. */
  lemma SameColumns(rows: Rows, cols: Rows, cols': Rows)
    requires Mirrored(rows, cols) && Mirrored(rows, cols')
    requires forall c :: c in cols ==> Sorted(cols[c]) && cols[c] != []
    requires forall c :: c in cols' ==> Sorted(cols'[c]) && cols'[c] != []
    ensures cols == cols'
  {
    ColumnsWithin(rows, cols, cols');
    ColumnsWithin(rows, cols', cols);
    forall c | c in cols ensures cols[c] == cols'[c] {
      ContainedLength(cols[c], cols'[c]);
      ContainedLength(cols'[c], cols[c]);
    }
  }

  lemma ColumnsWithin(rows: Rows, cols: Rows, cols': Rows)
    requires Mirrored(rows, cols) && Mirrored(rows, cols') && forall c :: c in cols ==> cols[c] != []
    ensures forall c :: c in cols ==> c in cols' && Contained(cols[c], cols'[c])
  {
    forall c | c in cols ensures c in cols' && Contained(cols[c], cols'[c]) {
      assert cols[c][0] in cols[c];
      forall r | r in cols[c] ensures r in rows && c in rows[r] {
      }
    }
  }

  /** The rows that contain other ones. */
  method ReduceRows(A: SmMatrix, select: Sol, ghost w: Weights) returns (deleted: nat)
    requires Ready(A, select)
    modifies A
    ensures Ready(A, select) && Stage(w, old(StateOf(A, select)), StateOf(A, select))
    ensures |A.colNums| <= old(|A.colNums|) && deleted == old(|A.rowNums|) - |A.rowNums|
    ensures deleted == 0 ==> A.rows == old(A.rows) && A.cols == old(A.cols) && Undominated(A.rows)
  {
    ghost var s, colNums, cols := StateOf(A, select), A.colNums, A.cols;
    deleted := RowDominance(A);
    KeyCount(A.colNums, colNums, A.cols, cols);
    RowsStage(w, s, StateOf(A, select));
    if deleted == 0 {
      SameColumns(A.rows, A.cols, cols);
    }
  }

  /** One round of the loop. */
  method ReductionRound(A: SmMatrix, select: Sol, w: Weights, bound: int) returns (again: bool)
    requires Ready(A, select)
    modifies A, select
    ensures Ready(A, select)
    ensures Stage(w, old(StateOf(A, select)), StateOf(A, select)) && |A.rowNums| <= old(|A.rowNums|)
    ensures again ==> |A.rowNums| + |A.colNums| < old(|A.rowNums| + |A.colNums|)
    ensures !again && select.cost < bound ==> FullyReduced(w, A)
  {
    ghost var s1 := StateOf(A, select);
    var delcols := ReduceColumns(A, select, w);
    ghost var s2 := StateOf(A, select);
    var essen := ReduceEssentials(A, select, w, bound);
    ghost var s3 := StateOf(A, select);
    StageTrans(w, s1, s2, s3);
    if essen != [] && select.cost >= bound {
      return false;
    }
    var delrows := ReduceRows(A, select, w);
    StageTrans(w, s1, s3, StateOf(A, select));
    again := delcols > 0 || delrows > 0 || essen != [];
    if !again {
      NoneLeft(w, A);
    }
  }

  lemma NoneLeft(w: Weights, A: SmMatrix)
    requires A.Valid() && (forall c :: !Essential(A.rows, c)) && Undominated(A.rows) && NoneRemoved(w, A)
    ensures FullyReduced(w, A)
  {
    forall r | r in A.rows ensures |A.rows[r]| >= 2 {
      var row := A.rows[r];
      assert !Essential(A.rows, row[0]);
      assert row != [row[0]];
    }
    if w == Unit {
      forall d ensures !Forced(A.rows, d) {
        NoneForced(A.rows, A.cols, d);
      }
    }
  }

  /** select_essential */
  method SelectEssential(A: SmMatrix, select: Sol, w: Weights, bound: int)
    requires Ready(A, select)
    modifies A, select
    ensures Ready(A, select)
    ensures Stage(w, old(StateOf(A, select)), StateOf(A, select)) && |A.rowNums| <= old(|A.rowNums|)
    ensures select.cost < bound ==> FullyReduced(w, A)
  {
    ghost var s0 := StateOf(A, select);
    StageRefl(w, s0);
    var again := true;
    while again
      invariant Ready(A, select)
      invariant Stage(w, s0, StateOf(A, select)) && |A.rowNums| <= old(|A.rowNums|)
      invariant !again && select.cost < bound ==> FullyReduced(w, A)
      decreases again, |A.rowNums| + |A.colNums|
    {
      ghost var s1 := StateOf(A, select);
      again := ReductionRound(A, select, w, bound);
      StageTrans(w, s0, s1, StateOf(A, select));
    }
  }

  lemma ColumnPresent(rows: Rows, cols: Rows, c: nat)
    requires Mirrored(rows, cols) && c in cols && cols[c] != []
    ensures c in ColsOf(rows)
  {
    var r := cols[c][0];
    assert r in cols[c];
    assert r in rows && c in rows[r];
  }

  lemma ColumnHeaders(rows: Rows, cols: Rows, nums: seq<nat>)
    requires Mirrored(rows, cols) && Headed(nums, cols)
    ensures Elems(nums) == ColsOf(rows)
  {
    forall c | c in cols ensures c in ColsOf(rows) {
      ColumnPresent(rows, cols, c);
    }
  }
}
