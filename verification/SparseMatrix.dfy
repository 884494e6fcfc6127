/** matrix.c: a sparse 0-1 matrix whose rows and columns are both kept as sorted lists. */
module SparseMatrix {
  import opened SortedLists

  type Rows = map<nat, seq<nat>>

  /** The rows that remain after column i is taken out; a row left empty disappears. */
  ghost function DropCol(rows: Rows, i: nat): Rows {
    map r | r in rows && Without(rows[r], i) != [] :: Without(rows[r], i)
  }

  ghost predicate Mirrored(rows: Rows, cols: Rows) {
    && (forall r, c :: r in rows && c in rows[r] ==> c in cols && r in cols[c])
    && (forall c, r :: c in cols && r in cols[c] ==> r in rows && c in rows[r])
  }

  /** Every list sorted and non-empty, the headers sorted and exactly those of the lists. */
  ghost predicate Headed(nums: seq<nat>, lists: Rows) {
    && Sorted(nums)
    && (forall n :: n in nums <==> n in lists)
    && (forall n :: n in lists ==> Sorted(lists[n]) && lists[n] != [])
  }

  /** The list of row (or column) n; no header means no elements. */
  ghost function At(lists: Rows, n: nat): seq<nat> {
    if n in lists then lists[n] else []
  }

  /** Look up header n, allocating it and linking it into the sorted header list if it is missing. */
  method WithHeader(nums: seq<nat>, lists: Rows, n: nat) returns (nums': seq<nat>, lists': Rows)
    requires Headed(nums, lists)
    ensures Sorted(nums') && (forall k :: k in nums' <==> k in lists || k == n)
    ensures lists' == lists[n := At(lists, n)]
  {
    nums', lists' := nums, lists;
    if n !in lists {
      var added;
      nums', added := SortedInsert(nums, n);
      lists' := lists[n := []];
    }
  }

  lemma EntryAdded(rows: Rows, cols: Rows, row: nat, col: nat, prow: seq<nat>, pcol: seq<nat>)
    requires Mirrored(rows, cols)
    requires forall x :: x in prow <==> x in At(rows, row) || x == col
    requires forall x :: x in pcol <==> x in At(cols, col) || x == row
    ensures Mirrored(rows[row := prow], cols[col := pcol])
  {
  }

  lemma Refill(lists: Rows, n: nat, list: seq<nat>)
    ensures lists[n := At(lists, n)][n := list] == lists[n := list]
  {
  }

  lemma HeaderFilled(nums: seq<nat>, lists: Rows, n: nat, nums': seq<nat>, list: seq<nat>)
    requires Headed(nums, lists) && Sorted(list) && list != []
    requires Sorted(nums') && (forall k :: k in nums' <==> k in lists || k == n)
    ensures Headed(nums', lists[n := list])
  {
  }

  /** The element lists of the row and of the column after an insertion; both lists know it, or neither does. */
  method InsertElement(ghost rows: Rows, ghost cols: Rows, row: nat, col: nat, prow: seq<nat>, pcol: seq<nat>)
    returns (prow': seq<nat>, pcol': seq<nat>)
    requires Mirrored(rows, cols)
    requires prow == At(rows, row) && pcol == At(cols, col)
    requires Sorted(prow) && Sorted(pcol)
    ensures Sorted(prow') && (forall x :: x in prow' <==> x in prow || x == col)
    ensures Sorted(pcol') && (forall x :: x in pcol' <==> x in pcol || x == row)
    ensures prow' != [] && pcol' != []
    ensures Mirrored(rows[row := prow'], cols[col := pcol'])
  {
    var added;
    prow', added := SortedInsert(prow, col);
    pcol' := pcol;
    if added {
      pcol', added := SortedInsert(pcol, row);
    }
    assert col in prow' && row in pcol';
    EntryAdded(rows, cols, row, col, prow', pcol');
  }

  // ---------- deletion ----------

  /** The lists after number i has been unlinked from those named in L, empty ones discarded. */
  ghost function Strip(lists: Rows, L: seq<nat>, i: nat): Rows {
    map c | c in lists && !(c in L && Without(lists[c], i) == []) :: if c in L then Without(lists[c], i) else lists[c]
  }

  /** One more list of L is unlinked. */
  lemma StripStep(lists: Rows, L: seq<nat>, k: nat, i: nat)
    requires Sorted(L) && k < |L| && L[k] in lists
    ensures var a, b, c := Strip(lists, L[..k], i), Strip(lists, L[..k + 1], i), L[k];
            && c in a && a[c] == lists[c]
            && b == if Without(a[c], i) == [] then a[c := []] - {c} else a[c := Without(a[c], i)]
  {
    assert L[..k + 1] == L[..k] + [L[k]];
    assert L[k] !in L[..k];
  }

  lemma {:induction false} WithoutAbsent(s: seq<nat>, x: nat)
    requires x !in s
    ensures Without(s, x) == s
  {
    if s != [] {
      var n := |s| - 1;
      WithoutAbsent(s[..n], x);
      assert s == s[..n] + [s[n]];
    }
  }

  /** Unlinking i from every list of its own line takes it out of the whole other view. */
  lemma StripIsDropCol(rows: Rows, cols: Rows, i: nat)
    requires Mirrored(rows, cols) && i in rows && (forall c :: c in cols ==> cols[c] != [])
    ensures Strip(cols, rows[i], i) == DropCol(cols, i)
  {
    forall c | c in cols && c !in rows[i] ensures Without(cols[c], i) == cols[c] {
      WithoutAbsent(cols[c], i);
    }
    assert Strip(cols, rows[i], i).Keys == DropCol(cols, i).Keys;
  }

  lemma DropMirrored(rows: Rows, cols: Rows, i: nat)
    requires Mirrored(rows, cols)
    ensures Mirrored(rows - {i}, DropCol(cols, i))
  {
    hide Without;
    var r', c' := rows - {i}, DropCol(cols, i);
    forall r, c | r in r' && c in r'[r] ensures c in c' && r in c'[c] {
      assert c in cols && r in cols[c] && r in Without(cols[c], i);
    }
    forall c, r | c in c' && r in c'[c] ensures r in r' && c in r'[r] {
      assert r in cols[c] && r != i;
    }
  }

  lemma DropAbsent(rows: Rows, cols: Rows, c: nat)
    requires Mirrored(rows, cols) && c !in cols && (forall r :: r in rows ==> rows[r] != [])
    ensures DropCol(rows, c) == rows
  {
    forall r | r in rows ensures Without(rows[r], c) == rows[r] {
      WithoutAbsent(rows[r], c);
    }
  }

  ghost predicate Keyed(nums: seq<nat>, lists: Rows) {
    Sorted(nums) && forall n :: n in nums <==> n in lists
  }

  lemma MirroredSwap(rows: Rows, cols: Rows)
    ensures Mirrored(rows, cols) <==> Mirrored(cols, rows)
  {
  }

  class SmMatrix {
    var rowNums: seq<nat>
    var colNums: seq<nat>
    var rows: Rows
    var cols: Rows

    ghost predicate Valid()
      reads this
    {
      Headed(rowNums, rows) && Headed(colNums, cols) && Mirrored(rows, cols)
    }

    /** sm_alloc */
    constructor ()
      ensures Valid() && rows == map[]
    {
      rowNums, colNums, rows, cols := [], [], map[], map[];
    }

    /** sm_insert */
    method Insert(row: nat, col: nat)
      requires Valid()
      modifies this
      ensures Valid()
      ensures rows.Keys == old(rows.Keys) + {row}
      ensures forall r :: r in rows && r != row ==> rows[r] == old(rows)[r]
      ensures forall c :: c in rows[row] <==> c == col || c in At(old(rows), row)
    {
      var rn, rl := WithHeader(rowNums, rows, row);
      var cn, cl := WithHeader(colNums, cols, col);
      var prow, pcol := InsertElement(rows, cols, row, col, rl[row], cl[col]);
      HeaderFilled(rowNums, rows, row, rn, prow);
      HeaderFilled(colNums, cols, col, cn, pcol);
      Refill(rows, row, prow);
      Refill(cols, col, pcol);
      rowNums, rows, colNums, cols := rn, rl[row := prow], cn, cl[col := pcol];
    }

    /** sm_delrow -- the list of row i is walked, and columns that run empty are deleted in turn. */
    method DelRow(i: nat)
      requires Keyed(rowNums, rows) && Keyed(colNums, cols)
      requires i !in rows || rows[i] == [] || Valid()
      modifies this
      ensures i !in old(rows) ==> unchanged(this)
      ensures i in old(rows) ==> rows == old(rows) - {i} && Keyed(rowNums, rows)
      ensures i in old(rows) && old(rows)[i] == [] ==> cols == old(cols) && colNums == old(colNums)
      ensures old(Valid()) ==> Valid()
      ensures old(Valid()) && i in old(rows) ==> cols == DropCol(old(cols), i)
      decreases if i in rows then |rows[i]| else 0, 1
    {
      if i in rows {
        if Valid() {
          StripIsDropCol(rows, cols, i);
          DropMirrored(rows, cols, i);
        }
        UnlinkFromCols(i, rows[i]);
        rows := rows - {i};
        rowNums := Without(rowNums, i);
      }
    }

    /** The walk across row i. */
    method UnlinkFromCols(i: nat, prow: seq<nat>)
      requires Sorted(prow) && Keyed(colNums, cols) && Keyed(rowNums, rows)
      requires forall c :: c in prow ==> c in cols
      modifies this
      ensures rows == old(rows) && rowNums == old(rowNums)
      ensures cols == Strip(old(cols), prow, i) && Keyed(colNums, cols)
      ensures prow == [] ==> unchanged(this)
      decreases |prow|, 0
    {
      for k := 0 to |prow|
        invariant rows == old(rows) && rowNums == old(rowNums)
        invariant cols == Strip(old(cols), prow[..k], i) && Keyed(colNums, cols)
        invariant k == 0 ==> unchanged(this)
      {
        var c := prow[k];
        StripStep(old(cols), prow, k, i);
        cols := cols[c := Without(cols[c], i)];
        if cols[c] == [] {
          DelCol(c);
        }
      }
      assert prow[..|prow|] == prow;
    }

    /** sm_delcol -- the mirror image of sm_delrow. */
    method DelCol(i: nat)
      requires Keyed(rowNums, rows) && Keyed(colNums, cols)
      requires i !in cols || cols[i] == [] || Valid()
      modifies this
      ensures i !in old(cols) ==> unchanged(this)
      ensures i in old(cols) ==> cols == old(cols) - {i} && Keyed(colNums, cols)
      ensures i in old(cols) && old(cols)[i] == [] ==> rows == old(rows) && rowNums == old(rowNums)
      ensures old(Valid()) ==> Valid()
      ensures old(Valid()) && i in old(cols) ==> rows == DropCol(old(rows), i)
      decreases if i in cols then |cols[i]| else 0, 1
    {
      if i in cols {
        if Valid() {
          MirroredSwap(rows, cols);
          StripIsDropCol(cols, rows, i);
          DropMirrored(cols, rows, i);
          MirroredSwap(DropCol(rows, i), cols - {i});
        }
        UnlinkFromRows(i, cols[i]);
        cols := cols - {i};
        colNums := Without(colNums, i);
      }
    }

    /** The walk down column i. */
    method UnlinkFromRows(i: nat, pcol: seq<nat>)
      requires Sorted(pcol) && Keyed(colNums, cols) && Keyed(rowNums, rows)
      requires forall r :: r in pcol ==> r in rows
      modifies this
      ensures cols == old(cols) && colNums == old(colNums)
      ensures rows == Strip(old(rows), pcol, i) && Keyed(rowNums, rows)
      ensures pcol == [] ==> unchanged(this)
      decreases |pcol|, 0
    {
      for k := 0 to |pcol|
        invariant cols == old(cols) && colNums == old(colNums)
        invariant rows == Strip(old(rows), pcol[..k], i) && Keyed(rowNums, rows)
        invariant k == 0 ==> unchanged(this)
      {
        var r := pcol[k];
        StripStep(old(rows), pcol, k, i);
        rows := rows[r := Without(rows[r], i)];
        if rows[r] == [] {
          DelRow(r);
        }
      }
      assert pcol[..|pcol|] == pcol;
    }
  }

  /** sm_dup */
  method Dup(A: SmMatrix) returns (B: SmMatrix)
    requires A.Valid()
    ensures fresh(B) && B.Valid() && B.rows == A.rows
  {
    B := new SmMatrix();
    var nums := A.rowNums;
    for k := 0 to |nums|
      invariant A.Valid() && nums == A.rowNums && fresh(B) && B.Valid()
      invariant forall r :: r in B.rows <==> r in nums[..k]
      invariant forall r :: r in B.rows ==> B.rows[r] == A.rows[r]
    {
      var r := nums[k];
      CopyRow(B, r, A.rows[r]);
      assert nums[..k + 1] == nums[..k] + [r];
    }
    assert nums[..|nums|] == nums;
  }

  /** Insert all elements of a sorted list as row r (copy_row, and the inner loop of sm_dup). */
  method CopyRow(B: SmMatrix, r: nat, list: seq<nat>)
    requires B.Valid() && r !in B.rows && Sorted(list) && list != []
    modifies B
    ensures B.Valid() && B.rows == old(B.rows)[r := list]
  {
    for k := 0 to |list|
      invariant B.Valid()
      invariant B.rows.Keys == old(B.rows.Keys) + if k == 0 then {} else {r}
      invariant forall q :: q in B.rows && q != r ==> B.rows[q] == old(B.rows)[q]
      invariant k > 0 ==> forall c :: c in B.rows[r] <==> c in list[..k]
    {
      assert list[..k + 1] == list[..k] + [list[k]];
      B.Insert(r, list[k]);
    }
    assert list[..|list|] == list;
    SortedUnique(B.rows[r], list);
  }

  /** sm_delcol, also when there is no such column. */
  method DropColumn(A: SmMatrix, c: nat)
    requires A.Valid()
    modifies A
    ensures A.Valid() && A.rows == DropCol(old(A.rows), c)
  {
    if c !in A.cols {
      DropAbsent(A.rows, A.cols, c);
    }
    A.DelCol(c);
  }

  /** sm_delrow, also when there is no such row. */
  method DropRowNumber(A: SmMatrix, r: nat)
    requires A.Valid()
    modifies A
    ensures A.Valid() && A.rows == old(A.rows) - {r}
  {
    A.DelRow(r);
  }
}
