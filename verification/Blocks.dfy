/** part.c: split a matrix into two blocks with no column in common. */
module Blocks {
  import opened SortedLists
  import opened SparseMatrix
  import opened Covering

  /** The flag fields of the row and column headers, and the counters. */
  class Marks {
    var rowFlag: set<nat>
    var colFlag: set<nat>
    var rowsVisited: nat
    var colsVisited: nat

    constructor ()
      ensures rowFlag == {} && colFlag == {} && rowsVisited == 0 && colsVisited == 0
    {
      rowFlag, colFlag, rowsVisited, colsVisited := {}, {}, 0, 0;
    }

    ghost predicate Counts(A: SmMatrix)
      reads this, A
    {
      && rowFlag <= A.rows.Keys && colFlag <= A.cols.Keys
      && rowsVisited == |rowFlag| && colsVisited == |colFlag|
    }
  }

  /** Every row in `rs` has all its columns flagged, and every column in `cs` all its rows. */
  ghost predicate Closed(rows: Rows, cols: Rows, rs: set<nat>, cs: set<nat>, rowFlag: set<nat>, colFlag: set<nat>) {
    && (forall r, c :: r in rs && r in rows && c in rows[r] ==> c in colFlag)
    && (forall c, r :: c in cs && c in cols && r in cols[c] ==> r in rowFlag)
  }

  /** The rows W and columns V have nothing in common with the others. */
  ghost predicate Detached(rows: Rows, cols: Rows, W: set<nat>, V: set<nat>) {
    && (forall r, c :: r in W && r in rows && c in rows[r] ==> c in V)
    && (forall c, r :: c in V && c in cols && r in cols[c] ==> r in W)
  }

  lemma DetachedRow(rows: Rows, cols: Rows, W: set<nat>, V: set<nat>, r: nat, k: nat)
    requires Mirrored(rows, cols) && Detached(rows, cols, W, V) && r in rows && r in W && k < |rows[r]|
    ensures rows[r][k] in cols && rows[r][k] in V
  {
    assert rows[r][k] in rows[r];
  }

  lemma DetachedCol(rows: Rows, cols: Rows, W: set<nat>, V: set<nat>, c: nat, k: nat)
    requires Mirrored(rows, cols) && Detached(rows, cols, W, V) && c in cols && c in V && k < |cols[c]|
    ensures cols[c][k] in rows && cols[c][k] in W
  {
    assert cols[c][k] in cols[c];
  }

  lemma ClosedNone(rows: Rows, cols: Rows, rowFlag: set<nat>, colFlag: set<nat>)
    ensures Closed(rows, cols, rowFlag - rowFlag, colFlag - colFlag, rowFlag, colFlag)
  {
  }

  /** What one visit closes and what the next one closes. */
  lemma ClosedNext(rows: Rows, cols: Rows, r0: set<nat>, c0: set<nat>, r1: set<nat>, c1: set<nat>,
                   r2: set<nat>, c2: set<nat>)
    requires Closed(rows, cols, r1 - r0, c1 - c0, r1, c1) && Closed(rows, cols, r2 - r1, c2 - c1, r2, c2)
    requires r1 <= r2 && c1 <= c2
    ensures Closed(rows, cols, r2 - r0, c2 - c0, r2, c2)
  {
  }

  lemma ClosedWithRow(rows: Rows, cols: Rows, r0: set<nat>, c0: set<nat>, r1: set<nat>, c1: set<nat>, r: nat)
    requires Closed(rows, cols, r1 - (r0 + {r}), c1 - c0, r1, c1) && r in rows &&
      forall j :: 0 <= j < |rows[r]| ==> rows[r][j] in c1
    ensures Closed(rows, cols, r1 - r0, c1 - c0, r1, c1)
  {
  }

  lemma ClosedWithCol(rows: Rows, cols: Rows, r0: set<nat>, c0: set<nat>, r1: set<nat>, c1: set<nat>, c: nat)
    requires Closed(rows, cols, r1 - r0, c1 - (c0 + {c}), r1, c1) && c in cols &&
      forall j :: 0 <= j < |cols[c]| ==> cols[c][j] in r1
    ensures Closed(rows, cols, r1 - r0, c1 - c0, r1, c1)
  {
  }

  /**
   visit_row -- the result is true once all rows, or all columns, have been visited.  W and V stand for any
   part of the matrix that is apart from the rest: a visit that starts inside never leaves it.
   */
  method VisitRow(A: SmMatrix, m: Marks, r: nat, ghost W: set<nat>, ghost V: set<nat>) returns (all: bool)
    requires A.Valid() && m.Counts(A) && r in A.rows
    requires m.rowsVisited < |A.rowNums|
    requires Detached(A.rows, A.cols, W, V) && m.rowFlag <= W && m.colFlag <= V && r in W
    modifies m
    ensures m.rowFlag <= W && m.colFlag <= V
    ensures all ==> m.rowsVisited == |A.rowNums| || m.colsVisited == |A.colNums|
    ensures m.Counts(A) && old(m.rowFlag) <= m.rowFlag && old(m.colFlag) <= m.colFlag
    ensures !all ==> r in m.rowFlag && m.rowsVisited < |A.rowNums|
    ensures !all ==> Closed(A.rows, A.cols, m.rowFlag - old(m.rowFlag), m.colFlag - old(m.colFlag), m.rowFlag,
      m.colFlag)
    decreases A.rows.Keys - m.rowFlag, A.cols.Keys - m.colFlag
  {
    hide Closed, Detached, Mirrored, Sorted;
    ClosedNone(A.rows, A.cols, m.rowFlag, m.colFlag);
    if r !in m.rowFlag {
      m.rowFlag := m.rowFlag + {r};
      m.rowsVisited := m.rowsVisited + 1;
      if m.rowsVisited == |A.rowNums| {
        return true;
      }
      ghost var rowFlag1 := m.rowFlag;
      SubsetCount(m.rowFlag, A.rows, A.rowNums);
      var prow := A.rows[r];
      ClosedNone(A.rows, A.cols, m.rowFlag, m.colFlag);
      for k := 0 to |prow|
        invariant m.Counts(A) && rowFlag1 <= m.rowFlag && old(m.colFlag) <= m.colFlag
        invariant m.rowsVisited < |A.rowNums| && m.rowFlag <= W && m.colFlag <= V
        invariant forall j :: 0 <= j < k ==> prow[j] in m.colFlag
        invariant Closed(A.rows, A.cols, m.rowFlag - rowFlag1, m.colFlag - old(m.colFlag), m.rowFlag, m.colFlag)
      {
        if prow[k] !in m.colFlag {
          DetachedRow(A.rows, A.cols, W, V, r, k);
          ghost var rows, cols := m.rowFlag, m.colFlag;
          var done := VisitCol(A, m, prow[k], W, V);
          if done {
            return true;
          }
          ClosedNext(A.rows, A.cols, rowFlag1, old(m.colFlag), rows, cols, m.rowFlag, m.colFlag);
        }
      }
      ClosedWithRow(A.rows, A.cols, old(m.rowFlag), old(m.colFlag), m.rowFlag, m.colFlag, r);
    }
    return false;
  }

  /** visit_col */
  method VisitCol(A: SmMatrix, m: Marks, c: nat, ghost W: set<nat>, ghost V: set<nat>) returns (all: bool)
    requires A.Valid() && m.Counts(A) && c in A.cols
    requires m.rowsVisited < |A.rowNums|
    requires Detached(A.rows, A.cols, W, V) && m.rowFlag <= W && m.colFlag <= V && c in V
    modifies m
    ensures m.rowFlag <= W && m.colFlag <= V
    ensures all ==> m.rowsVisited == |A.rowNums| || m.colsVisited == |A.colNums|
    ensures m.Counts(A) && old(m.rowFlag) <= m.rowFlag && old(m.colFlag) <= m.colFlag
    ensures !all ==> c in m.colFlag && m.rowsVisited < |A.rowNums|
    ensures !all ==> Closed(A.rows, A.cols, m.rowFlag - old(m.rowFlag), m.colFlag - old(m.colFlag), m.rowFlag,
      m.colFlag)
    decreases A.rows.Keys - m.rowFlag, A.cols.Keys - m.colFlag
  {
    hide Closed, Detached, Mirrored, Headed, Sorted;
    ClosedNone(A.rows, A.cols, m.rowFlag, m.colFlag);
    if c !in m.colFlag {
      m.colFlag := m.colFlag + {c};
      m.colsVisited := m.colsVisited + 1;
      if m.colsVisited == |A.colNums| {
        return true;
      }
      ghost var colFlag1 := m.colFlag;
      var pcol := A.cols[c];
      ClosedNone(A.rows, A.cols, m.rowFlag, m.colFlag);
      for k := 0 to |pcol|
        invariant m.Counts(A) && old(m.rowFlag) <= m.rowFlag && colFlag1 <= m.colFlag
        invariant m.rowsVisited < |A.rowNums| && m.rowFlag <= W && m.colFlag <= V
        invariant forall j :: 0 <= j < k ==> pcol[j] in m.rowFlag
        invariant Closed(A.rows, A.cols, m.rowFlag - old(m.rowFlag), m.colFlag - colFlag1, m.rowFlag, m.colFlag)
      {
        if pcol[k] !in m.rowFlag {
          DetachedCol(A.rows, A.cols, W, V, c, k);
          ghost var rows, cols := m.rowFlag, m.colFlag;
          var done := VisitRow(A, m, pcol[k], W, V);
          if done {
            return true;
          }
          ClosedNext(A.rows, A.cols, old(m.rowFlag), colFlag1, rows, cols, m.rowFlag, m.colFlag);
        }
      }
      ClosedWithCol(A.rows, A.cols, old(m.rowFlag), old(m.colFlag), m.rowFlag, m.colFlag, c);
    }
    return false;
  }

  lemma SubsetCount(s: set<nat>, lists: Rows, nums: seq<nat>)
    requires Headed(nums, lists) && s <= lists.Keys
    ensures |s| <= |nums|
    ensures |s| == |nums| <==> s == lists.Keys
  {
    SortedLength(nums);
    assert Elems(nums) == lists.Keys;
    assert lists.Keys == s + (lists.Keys - s);
  }

  /** The rows named in nums whose flag is `yes`. */
  ghost predicate PartOf(rows: Rows, nums: seq<nat>, flag: set<nat>, yes: bool, part: Rows) {
    && (forall r :: r in part <==> r in rows && r in nums && (r in flag <==> yes))
    && (forall r :: r in part ==> part[r] == rows[r])
  }

  /** rows is divided between l and r, and the two have no column in common. */
  ghost predicate Divided(rows: Rows, l: Rows, r: Rows) {
    && l != map[] && r != map[]
    && l.Keys !! r.Keys && rows == l + r
    && ColsOf(l) !! ColsOf(r)
  }

  lemma FlagsDivide(rows: Rows, cols: Rows, nums: seq<nat>, rowFlag: set<nat>, colFlag: set<nat>, first: nat, l: Rows,
                    r: Rows)
    requires Mirrored(rows, cols) && Closed(rows, cols, rowFlag, colFlag, rowFlag, colFlag)
    requires first in rowFlag && rowFlag < rows.Keys && forall q :: q in rows ==> q in nums
    requires PartOf(rows, nums, rowFlag, true, l) && PartOf(rows, nums, rowFlag, false, r)
    ensures Divided(rows, l, r)
  {
    assert first in l;
    var q :| q in rows && q !in rowFlag;
    assert q in r;
    assert rows == l + r;
    forall c | c in ColsOf(l) ensures c !in ColsOf(r) {
      var a :| a in l && c in l[a];
      assert c in rows[a] && c in colFlag;
      forall b | b in r ensures c !in r[b] {
        assert c in cols && (b in cols[c] ==> b in rowFlag);
      }
    }
  }

  /** The copying loop of sm_block_partition. */
  method CopyBlocks(A: SmMatrix, rowFlag: set<nat>) returns (L: SmMatrix, R: SmMatrix)
    requires A.Valid()
    ensures fresh(L) && fresh(R) && L != R && L.Valid() && R.Valid()
    ensures PartOf(A.rows, A.rowNums, rowFlag, true, L.rows)
    ensures PartOf(A.rows, A.rowNums, rowFlag, false, R.rows)
  {
    L := new SmMatrix();
    R := new SmMatrix();
    var nums, rows := A.rowNums, A.rows;
    for k := 0 to |nums|
      invariant fresh(L) && fresh(R) && L != R && L.Valid() && R.Valid()
      invariant PartOf(rows, nums[..k], rowFlag, true, L.rows)
      invariant PartOf(rows, nums[..k], rowFlag, false, R.rows)
    {
      var q := nums[k];
      assert nums[..k + 1] == nums[..k] + [q];
      assert q !in nums[..k];
      if q in rowFlag {
        CopyRow(L, q, rows[q]);
      } else {
        CopyRow(R, q, rows[q]);
      }
    }
    assert nums[..|nums|] == nums;
  }

  ghost predicate Divisible(rows: Rows) {
    exists l, r :: Divided(rows, l, r)
  }

  /** Row q, with one of its columns, lies outside W and V. */
  ghost predicate Outside(rows: Rows, W: set<nat>, V: set<nat>) {
    exists q, c :: q in rows && q !in W && c in rows[q] && c !in V
  }

  lemma BlockApart(rows: Rows, cols: Rows, l: Rows, r: Rows)
    requires Mirrored(rows, cols) && l.Keys !! r.Keys && rows == l + r && ColsOf(l) !! ColsOf(r)
    requires r != map[] && forall q :: q in r ==> r[q] != []
    ensures Detached(rows, cols, l.Keys, ColsOf(l)) && Outside(rows, l.Keys, ColsOf(l))
  {
    forall c, q | c in ColsOf(l) && c in cols && q in cols[c] ensures q in l {
      assert q in rows && c in rows[q];
      assert q in r ==> c in ColsOf(r);
    }
    var q :| q in r;
    assert rows[q] == r[q] && r[q][0] in r[q] && r[q][0] in ColsOf(r);
    assert q !in l.Keys;
  }

  /** What a visit that starts at row `first` cannot leave: the block of that row, if the matrix divides at all. */
  lemma FirstRegion(rows: Rows, cols: Rows, first: nat) returns (W: set<nat>, V: set<nat>)
    requires Mirrored(rows, cols) && first in rows && forall q :: q in rows ==> rows[q] != []
    ensures Detached(rows, cols, W, V) && first in W && (Divisible(rows) ==> Outside(rows, W, V))
  {
    if Divisible(rows) {
      var l, r :| Divided(rows, l, r);
      assert rows == r + l;
      assert forall q :: q in l ==> rows[q] == l[q];
      if first in l {
        BlockApart(rows, cols, l, r);
        W, V := l.Keys, ColsOf(l);
      } else {
        BlockApart(rows, cols, r, l);
        W, V := r.Keys, ColsOf(r);
      }
    } else {
      W, V := rows.Keys, cols.Keys;
    }
  }

  /** Once all rows or all columns have been visited nothing is outside. */
  lemma NothingOutside(A: SmMatrix, m: Marks, W: set<nat>, V: set<nat>)
    requires A.Valid() && m.Counts(A) && m.rowFlag <= W && m.colFlag <= V
    requires m.rowsVisited == |A.rowNums| || m.colsVisited == |A.colNums|
    ensures !Outside(A.rows, W, V)
  {
    SubsetCount(m.rowFlag, A.rows, A.rowNums);
    SubsetCount(m.colFlag, A.cols, A.colNums);
  }

  /** sm_block_partition -- the matrix is divided whenever it can be. */
  method BlockPartition(A: SmMatrix) returns (split: bool, L: SmMatrix, R: SmMatrix)
    requires A.Valid()
    ensures split ==> fresh(L) && fresh(R) && L != R && L.Valid() && R.Valid()
    ensures split ==> Divided(A.rows, L.rows, R.rows)
    ensures split <==> Divisible(A.rows)
  {
    if |A.rowNums| == 0 {
      return false, A, A;
    }
    var m := new Marks();
    ghost var W, V := FirstRegion(A.rows, A.cols, A.rowNums[0]);
    var all := VisitRow(A, m, A.rowNums[0], W, V);
    if all {
      NothingOutside(A, m, W, V);
      return false, A, A;
    }
    SubsetCount(m.rowFlag, A.rows, A.rowNums);
    ghost var none := {};
    assert m.rowFlag - none == m.rowFlag && m.colFlag - none == m.colFlag;
    L, R := CopyBlocks(A, m.rowFlag);
    FlagsDivide(A.rows, A.cols, A.rowNums, m.rowFlag, m.colFlag, A.rowNums[0], L.rows, R.rows);
    split := true;
  }
}
