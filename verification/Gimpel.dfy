/** gimpel.c: the reduction of a two-column row one of whose columns has only one other row. */
module Gimpel {
  import opened SortedLists
  import opened SparseMatrix
  import opened Covering
  import opened Dominance

  /** Row p is {c1, c2}, and s is the only other row with c1; s does not hold c2. */
  ghost predicate Applies(rows: Rows, p: nat, s: nat, c1: nat, c2: nat) {
    && p in rows && s in rows && p != s && c1 != c2
    && (forall c :: c in rows[p] <==> c == c1 || c == c2)
    && c1 in rows[s] && c2 !in rows[s]
    && (forall r :: r in rows && c1 in rows[r] ==> r == p || r == s)
    && Without(rows[s], c1) != []
  }

  /** The reduced matrix: rows p and s and columns c1 and c2 are gone, the rest of s is merged into the rows of c2. */
  ghost predicate Reduced(rows: Rows, p: nat, s: nat, c1: nat, c2: nat, after: Rows)
    requires s in rows
  {
    && after.Keys == rows.Keys - {p, s}
    && forall r :: r in after ==> ReducedRow(rows[r], rows[s], c1, c2, after[r])
  }

  ghost predicate ReducedRow(row: seq<nat>, sec: seq<nat>, c1: nat, c2: nat, after: seq<nat>) {
    forall c :: c in after <==> c != c1 && c != c2 && (c in row || (c2 in row && c in sec))
  }

  /** In a matrix without essential columns and contained rows a column of length 2 in a row of length 2 qualifies. */
  lemma Qualifies(rows: Rows, cols: Rows, p: nat, s: nat, c1: nat, c2: nat)
    requires Mirrored(rows, cols) && Undominated(rows) && (forall r :: r in rows ==> |rows[r]| >= 2)
    requires p in rows && s in rows && p != s && c1 != c2 && Sorted(rows[s])
    requires forall c :: c in rows[p] <==> c == c1 || c == c2
    requires c1 in cols && (forall r :: r in cols[c1] <==> r == p || r == s)
    ensures Applies(rows, p, s, c1, c2)
  {
    assert s in cols[c1];
    assert !Contained(rows[p], rows[s]);
    var x := if rows[s][0] == c1 then rows[s][1] else rows[s][0];
    assert x in rows[s] && x != c1;
    assert x in Without(rows[s], c1);
  }

  /** The column that turns a cover of the reduced matrix into a cover of the original one. */
  lemma CoverExtends(rows: Rows, p: nat, s: nat, c1: nat, c2: nat, after: Rows, T: set<nat>)
    requires Applies(rows, p, s, c1, c2) && Reduced(rows, p, s, c1, c2, after)
    requires IsCover(after, T)
    ensures Hit(Without(rows[s], c1), T) ==> IsCover(rows, T + {c2})
    ensures !Hit(Without(rows[s], c1), T) ==> IsCover(rows, T + {c1})
  {
    var hit := Hit(Without(rows[s], c1), T);
    var c := if hit then c2 else c1;
    forall r | r in rows ensures Hit(rows[r], T + {c}) {
      if r == p {
        assert c in rows[p];
      } else if r == s {
        if hit {
          var x :| x in Without(rows[s], c1) && x in T;
          assert x in rows[s];
        }
      } else {
        assert Hit(after[r], T);
        var x :| x in after[r] && x in T;
        if x !in rows[r] {
          assert x in Without(rows[s], c1);
          assert c2 in rows[r];
        }
      }
    }
  }

  lemma HitAfter(rows: Rows, p: nat, s: nat, c1: nat, c2: nat, after: Rows, S: set<nat>, T: set<nat>, r: nat)
    requires Applies(rows, p, s, c1, c2) && Reduced(rows, p, s, c1, c2, after)
    requires IsCover(rows, S) && r in after && S - {c1, c2} <= T
    requires c1 in S && c2 in S ==> Without(rows[s], c1)[0] in T
    ensures Hit(after[r], T)
  {
    assert Hit(rows[r], S);
    var y :| y in rows[r] && y in S;
    if y == c2 {
      if c1 !in S {
        assert Hit(rows[s], S);
        var z :| z in rows[s] && z in S;
        assert z in after[r] && z in T;
      } else {
        var x := Without(rows[s], c1)[0];
        assert x in Without(rows[s], c1) && x in after[r];
      }
    } else {
      assert y != c1;
      assert y in after[r] && y in T;
    }
  }

  /** A cover of the original matrix gives a cover of the reduced one with a column less. */
  lemma CoverShrinks(rows: Rows, p: nat, s: nat, c1: nat, c2: nat, after: Rows, S: set<nat>) returns (T: set<nat>)
    requires Applies(rows, p, s, c1, c2) && Reduced(rows, p, s, c1, c2, after)
    requires IsCover(rows, S)
    ensures IsCover(after, T) && Cost(Unit, T) + 1 <= Cost(Unit, S)
  {
    assert Hit(rows[p], S) && Hit(rows[s], S);
    var rest := S - {c1, c2};
    UnitCost(S);
    if c1 in S && c2 in S {
      var x := Without(rows[s], c1)[0];
      assert x in Without(rows[s], c1);
      T := rest + {x};
      assert S == rest + {c1, c2};
    } else {
      T := rest;
      assert S == rest + (if c1 in S then {c1} else {c2});
    }
    UnitCost(T);
    forall r | r in after ensures Hit(after[r], T) {
      HitAfter(rows, p, s, c1, c2, after, S, T, r);
    }
  }

  /** One column less to pay for: the minimum goes down by exactly one. */
  lemma MinimumDrops(rows: Rows, p: nat, s: nat, c1: nat, c2: nat, after: Rows, k: int)
    requires Applies(rows, p, s, c1, c2) && Reduced(rows, p, s, c1, c2, after)
    ensures AtLeast(Unit, after, k) <==> AtLeast(Unit, rows, k + 1)
  {
    if AtLeast(Unit, after, k) {
      forall S | IsCover(rows, S) ensures k + 1 <= Cost(Unit, S) {
        var T := CoverShrinks(rows, p, s, c1, c2, after, S);
      }
    }
    if AtLeast(Unit, rows, k + 1) {
      forall T | IsCover(after, T) ensures k <= Cost(Unit, T) {
        CoverExtends(rows, p, s, c1, c2, after, T);
        var c := if Hit(Without(rows[s], c1), T) then c2 else c1;
        CostAdded(Unit, T, {c});
        CostSingle(Unit, c);
        assert IsCover(rows, T + {c});
      }
    }
  }

  // ---------- the transformation ----------

  /** The search for a primary row. */
  method FindPrimary(A: SmMatrix) returns (reduceIt: bool, p: nat, s: nat, c1: nat, c2: nat)
    requires A.Valid() && Undominated(A.rows) && (forall r :: r in A.rows ==> |A.rows[r]| >= 2)
    ensures reduceIt ==> Applies(A.rows, p, s, c1, c2) && c1 in A.cols && c2 in A.cols
    ensures !reduceIt ==> forall r :: r in A.rows ==> NotPrimary(A.rows, A.cols, r)
  {
    reduceIt, p, s, c1, c2 := false, 0, 0, 0, 0;
    var nums := A.rowNums;
    for k := 0 to |nums|
      invariant !reduceIt && forall j :: 0 <= j < k ==> NotPrimary(A.rows, A.cols, nums[j])
    {
      reduceIt, s, c1, c2 := PrimaryRow(A, nums[k]);
      if reduceIt {
        p := nums[k];
        return;
      }
    }
  }

  /** Row r is longer than 2, or both its columns are. */
  ghost predicate NotPrimary(rows: Rows, cols: Rows, r: nat)
    requires r in rows
  {
    |rows[r]| == 2 ==> forall c :: c in rows[r] ==> |At(cols, c)| != 2
  }

  /** Does row p serve as the primary row?  The secondary row s is the other row of c1. */
  method PrimaryRow(A: SmMatrix, p: nat) returns (reduceIt: bool, s: nat, c1: nat, c2: nat)
    requires A.Valid() && Undominated(A.rows) && (forall r :: r in A.rows ==> |A.rows[r]| >= 2) && p in A.rows
    ensures reduceIt ==> Applies(A.rows, p, s, c1, c2) && c1 in A.cols && c2 in A.cols
    ensures !reduceIt ==> NotPrimary(A.rows, A.cols, p)
  {
    hide Applies, Undominated;
    reduceIt, s, c1, c2 := false, 0, 0, 0;
    var prow := A.rows[p];
    if |prow| == 2 {
      c1, c2 := prow[0], prow[1];
      if |A.cols[c1]| == 2 {
        reduceIt := true;
      } else if |A.cols[c2]| == 2 {
        c1, c2 := c2, c1;
        reduceIt := true;
      }
      if reduceIt {
        s := OtherRow(A.cols[c1], p);
        Qualifies(A.rows, A.cols, p, s, c1, c2);
      }
    }
  }

  /** The row of a column of length 2 that is not p. */
  method OtherRow(col: seq<nat>, p: nat) returns (s: nat)
    requires |col| == 2 && Sorted(col) && p in col
    ensures s != p && forall r :: r in col <==> r == p || r == s
  {
    s := col[0];
    if s == p {
      s := col[1];
    }
  }

  /** Row `after` is row `before`, with `list` added if yes. */
  ghost predicate RowMerged(before: seq<nat>, after: seq<nat>, list: seq<nat>, yes: bool) {
    forall c :: c in after <==> c in before || (yes && c in list)
  }

  ghost predicate Merged(before: Rows, after: Rows, p: nat, rs: seq<nat>, list: seq<nat>) {
    && before.Keys == after.Keys
    && forall r :: r in before ==> RowMerged(before[r], after[r], list, r in rs && r != p)
  }

  /** Insert every column of `list` into row r. */
  method MergeRow(A: SmMatrix, r: nat, list: seq<nat>)
    requires A.Valid() && r in A.rows
    modifies A
    ensures A.Valid() && A.rows.Keys == old(A.rows).Keys
    ensures forall q :: q in A.rows && q != r ==> A.rows[q] == old(A.rows)[q]
    ensures forall c :: c in A.rows[r] <==> c in old(A.rows)[r] || c in list
  {
    for k := 0 to |list|
      invariant A.Valid() && A.rows.Keys == old(A.rows).Keys
      invariant forall q :: q in A.rows && q != r ==> A.rows[q] == old(A.rows)[q]
      invariant forall c :: c in A.rows[r] <==> c in old(A.rows)[r] || c in list[..k]
    {
      assert list[..k + 1] == list[..k] + [list[k]];
      A.Insert(r, list[k]);
    }
    assert list[..|list|] == list;
  }

  /** Merge `list` into all rows of a column but the primary one. */
  method MergeRows(A: SmMatrix, p: nat, rs: seq<nat>, list: seq<nat>)
    requires A.Valid() && (forall r :: r in rs ==> r in A.rows)
    modifies A
    ensures A.Valid() && Merged(old(A.rows), A.rows, p, rs, list)
  {
    for k := 0 to |rs|
      invariant A.Valid() && Merged(old(A.rows), A.rows, p, rs[..k], list)
    {
      assert rs[..k + 1] == rs[..k] + [rs[k]];
      ghost var before := A.rows;
      if rs[k] != p {
        MergeRow(A, rs[k], list);
      }
      forall r | r in A.rows
        ensures RowMerged(old(A.rows)[r], A.rows[r], list, r in rs[..k + 1] && r != p)
      {
        assert RowMerged(old(A.rows)[r], before[r], list, r in rs[..k] && r != p);
      }
    }
    assert rs[..|rs|] == rs;
  }

  /** The part of gimpel_reduce that rewrites the matrix; the rest of the secondary row is saved. */
  method Rewrite(A: SmMatrix, p: nat, s: nat, c1: nat, c2: nat) returns (saveSec: seq<nat>)
    requires A.Valid() && Applies(A.rows, p, s, c1, c2) && c2 in A.cols
    requires forall r :: r in A.rows ==> |A.rows[r]| >= 2
    modifies A
    ensures A.Valid() && Reduced(old(A.rows), p, s, c1, c2, A.rows)
    ensures saveSec == Without(old(A.rows)[s], c1)
  {
    saveSec := Without(A.rows[s], c1);
    ghost var rows, cols := A.rows, A.cols;
    MergeRows(A, p, A.cols[c2], saveSec);
    RewriteResult(rows, cols, p, s, c1, c2, A.rows);
    DeleteAll(A, c1, c2, p, s);
  }

  method DeleteAll(A: SmMatrix, c1: nat, c2: nat, p: nat, s: nat)
    requires A.Valid()
    modifies A
    ensures A.Valid() && A.rows == DropCol(DropCol(old(A.rows), c1), c2) - {p} - {s}
  {
    DropColumn(A, c1);
    DropColumn(A, c2);
    DropRowNumber(A, p);
    DropRowNumber(A, s);
  }

  /** What becomes of one row that is neither primary nor secondary. */
  lemma RowRewritten(row: seq<nat>, sec: seq<nat>, c1: nat, c2: nat, merged: seq<nat>)
    requires |row| >= 2 && c1 !in row && c1 != c2 && c2 !in sec && Without(sec, c1) != []
    requires RowMerged(row, merged, Without(sec, c1), c2 in row)
    ensures var after := Without(Without(merged, c1), c2); after != [] && ReducedRow(row, sec, c1, c2, after)
  {
    var x := Without(sec, c1)[0];
    var y := if c2 in row then x else row[0];
    assert x in Without(sec, c1) && row[0] in row;
    assert y in merged && y in Without(merged, c1);
    assert y in Without(Without(merged, c1), c2);
  }

  lemma RewriteResult(rows: Rows, cols: Rows, p: nat, s: nat, c1: nat, c2: nat, merged: Rows)
    requires Mirrored(rows, cols) && c2 in cols && Applies(rows, p, s, c1, c2)
    requires forall r :: r in rows ==> |rows[r]| >= 2
    requires Merged(rows, merged, p, cols[c2], Without(rows[s], c1))
    ensures Reduced(rows, p, s, c1, c2, DropCol(DropCol(merged, c1), c2) - {p} - {s})
  {
    hide Merged, Mirrored, ReducedRow;
    forall r | r in rows && r != p && r != s
      ensures r in merged && LeftOf(merged[r], c1, c2) != [] && Without(merged[r], c1) != []
      ensures ReducedRow(rows[r], rows[s], c1, c2, LeftOf(merged[r], c1, c2))
    {
      RewrittenRow(rows, cols, p, s, c1, c2, merged, r);
    }
    SameRows(rows, merged, p, cols[c2], Without(rows[s], c1));
    DropBoth(merged, c1, c2, p, s);
  }

  ghost function LeftOf(row: seq<nat>, c1: nat, c2: nat): seq<nat> {
    Without(Without(row, c1), c2)
  }

  lemma DropBoth(merged: Rows, c1: nat, c2: nat, p: nat, s: nat)
    requires forall r :: r in merged && r != p && r != s ==>
      Without(merged[r], c1) != [] && LeftOf(merged[r], c1, c2) != []
    ensures var after := DropCol(DropCol(merged, c1), c2) - {p} - {s};
            after.Keys == merged.Keys - {p, s} && forall r :: r in after ==> after[r] == LeftOf(merged[r], c1, c2)
  {
  }

  lemma SameRows(rows: Rows, merged: Rows, p: nat, rs: seq<nat>, list: seq<nat>)
    requires Merged(rows, merged, p, rs, list)
    ensures merged.Keys == rows.Keys
  {
  }

  lemma RewrittenRow(rows: Rows, cols: Rows, p: nat, s: nat, c1: nat, c2: nat, merged: Rows, r: nat)
    requires Mirrored(rows, cols) && c2 in cols && Applies(rows, p, s, c1, c2)
    requires Merged(rows, merged, p, cols[c2], Without(rows[s], c1)) && r in rows && r != p && r != s && |rows[r]| >= 2
    ensures var after := Without(Without(merged[r], c1), c2);
            r in merged && after != [] && Without(merged[r], c1) != [] && ReducedRow(rows[r], rows[s], c1, c2, after)
  {
    hide RowMerged, ReducedRow;
    assert RowMerged(rows[r], merged[r], Without(rows[s], c1), r in cols[c2] && r != p);
    RowRewritten(rows[r], rows[s], c1, c2, merged[r]);
    NonEmptyWithout(merged[r], c1, c2);
  }

  lemma NonEmptyWithout(s: seq<nat>, c1: nat, c2: nat)
    requires Without(Without(s, c1), c2) != []
    ensures Without(s, c1) != []
  {
    var t := Without(Without(s, c1), c2);
    assert t[0] in t && t[0] in Without(s, c1);
  }
}
