/**
 irred.c: the split of a cover into relatively essential, totally redundant and partially redundant
 cubes, and the covering table of the partially redundant ones.
 */
module CoveringTable {
  import opened Cubes
  import opened Cofactor
  import opened Recursion
  import opened Irred
  import opened SortedLists
  import opened SparseMatrix
  import opened Covering
  import opened Dominance

  // ---------- find_tautology ----------

  /** What the rows made for cubelist (cubes, cof) demand of a selection S. */
  ghost predicate Demand(cs: Shape, cubes: seq<Cube>, cof: set<nat>, rp: nat, S: set<nat>) {
    rp in S || Tautologous(cs, cubes, cof, Only(S))
  }

  /** after has the rows of before and rows that make exactly the given demand. */
  ghost predicate RowsDemand(cs: Shape, cubes: seq<Cube>, cof: set<nat>, rp: nat, before: Rows, after: Rows) {
    forall S :: IsCover(after, S) <==> IsCover(before, S) && Demand(cs, cubes, cof, rp, S)
  }

  /** The columns used by after are those of before, rp, and the redundant cubes. */
  ghost predicate ColumnsFrom(cubes: seq<Cube>, rp: nat, before: Rows, after: Rows) {
    forall x :: x in ColsOf(after) ==>
      x in ColsOf(before) || x == rp || exists c :: c in cubes && c.redund && c.size == x
  }

  /** The row of a leaf: the current cube and the redundant cubes that are full there. */
  ghost predicate LeafRow(cs: Shape, cubes: seq<Cube>, cof: set<nat>, rp: nat, row: seq<nat>) {
    forall x :: x in row <==> x == rp || exists c :: c in cubes && c.redund && FullRow(cs, c.parts, cof) && c.size == x
  }

  /** sm_insert, in terms of the one row that changes. */
  method InsertInto(table: SmMatrix, num: nat, x: nat)
    requires table.Valid()
    modifies table
    ensures table.Valid() && num in table.rows && table.rows == old(table.rows)[num := table.rows[num]]
    ensures forall c :: c in table.rows[num] <==> c == x || c in At(old(table.rows), num)
  {
    table.Insert(num, x);
  }

  lemma LeafRowStep(cs: Shape, cubes: seq<Cube>, k: nat, cof: set<nat>, rp: nat, row: seq<nat>, row': seq<nat>)
    requires k < |cubes| && LeafRow(cs, cubes[..k], cof, rp, row)
    requires var p := cubes[k];
             if p.redund && FullRow(cs, p.parts, cof) then forall x :: x in row' <==> x == p.size || x in row
             else row' == row
    ensures LeafRow(cs, cubes[..k + 1], cof, rp, row')
  {
    assert cubes[..k + 1] == cubes[..k] + [cubes[k]];
  }

  /** Insert the columns of the redundant cubes that are full. */
  method InsertRedundant(cs: Shape, cubes: seq<Cube>, cof: set<nat>, table: SmMatrix, num: nat, ghost rp: nat)
    requires table.Valid() && num in table.rows && forall x :: x in table.rows[num] <==> x == rp
    modifies table
    ensures table.Valid() && num in table.rows && table.rows == old(table.rows)[num := table.rows[num]]
    ensures LeafRow(cs, cubes, cof, rp, table.rows[num])
  {
    for k := 0 to |cubes|
      invariant table.Valid() && num in table.rows && table.rows == old(table.rows)[num := table.rows[num]]
      invariant LeafRow(cs, cubes[..k], cof, rp, table.rows[num])
    {
      ghost var row := table.rows[num];
      if cubes[k].redund && FullRow(cs, cubes[k].parts, cof) {
        InsertInto(table, num, cubes[k].size);
      }
      LeafRowStep(cs, cubes, k, cof, rp, row, table.rows[num]);
    }
    assert cubes[..|cubes|] == cubes;
  }

  /** A new row: the current cube, then the redundant cubes that cover the leaf. */
  method InsertLeaf(cs: Shape, T: CubeList, table: SmMatrix, rp: nat) returns (ghost rownum: nat)
    requires table.Valid()
    modifies table
    ensures table.Valid() && rownum !in old(table.rows)
    ensures rownum in table.rows && LeafRow(cs, T.cubes, T.cof, rp, table.rows[rownum])
    ensures table.rows == old(table.rows)[rownum := table.rows[rownum]]
  {
    var num := if table.rowNums == [] then 0 else table.rowNums[|table.rowNums| - 1] + 1;
    rownum := num;
    assert num !in table.rowNums;
    InsertInto(table, num, rp);
    InsertRedundant(cs, T.cubes, T.cof, table, num, rp);
  }

  lemma LeafDemand(cs: Shape, cubes: seq<Cube>, cof: set<nat>, cd: CData, rp: nat, before: Rows, num: nat,
                   row: seq<nat>)
    requires CountsOf(cs, cubes, cof, cd) && cd.varsUnate == cd.varsActive
    requires num !in before && LeafRow(cs, cubes, cof, rp, row)
    requires forall c :: c in cubes && !c.redund ==> !FullRow(cs, c.parts, cof)
    ensures RowsDemand(cs, cubes, cof, rp, before, before[num := row])
    ensures ColumnsFrom(cubes, rp, before, before[num := row])
  {
    var after := before[num := row];
    forall S ensures IsCover(after, S) <==> IsCover(before, S) && Demand(cs, cubes, cof, rp, S) {
      UnateLeaf(cs, cubes, cof, cd, Only(S));
      assert Hit(row, S) <==> Demand(cs, cubes, cof, rp, S);
      AddedRow(before, num, row, S);
    }
  }

  lemma AddedRow(before: Rows, num: nat, row: seq<nat>, S: set<nat>)
    requires num !in before
    ensures IsCover(before[num := row], S) <==> IsCover(before, S) && Hit(row, S)
  {
    var after := before[num := row];
    if IsCover(after, S) {
      assert Hit(after[num], S);
      forall r | r in before ensures Hit(before[r], S) {
        assert Hit(after[r], S);
      }
    }
    if IsCover(before, S) && Hit(row, S) {
      forall r | r in after ensures Hit(after[r], S) {
        assert r != num ==> Hit(before[r], S);
      }
    }
  }

  lemma CoveredAlready(cs: Shape, cubes: seq<Cube>, cof: set<nat>, rp: nat, rows: Rows, c: Cube)
    requires c in cubes && !c.redund && FullRow(cs, c.parts, cof)
    ensures RowsDemand(cs, cubes, cof, rp, rows, rows) && ColumnsFrom(cubes, rp, rows, rows)
  {
    forall S ensures Demand(cs, cubes, cof, rp, S) {
      assert Uses(Only(S), c);
      FullRowCovers(cs, cubes, cof, Only(S));
    }
  }

  lemma DemandSplit(cs: Shape, cubes: seq<Cube>, cof: set<nat>, v: nat, cl: set<nat>, cr: set<nat>, rp: nat,
                    a: Rows, b: Rows, c: Rows)
    requires v < cs.numVars && SplitCubes(cs, cof, v, cl, cr) && Half(cs, cof, v, cl) && Half(cs, cof, v, cr)
    requires RowsDemand(cs, MeetingIn(cs, cubes, cl, v), cof + (cs.fullset - cl), rp, a, b)
    requires RowsDemand(cs, MeetingIn(cs, cubes, cr, v), cof + (cs.fullset - cr), rp, b, c)
    requires ColumnsFrom(MeetingIn(cs, cubes, cl, v), rp, a, b) && ColumnsFrom(MeetingIn(cs, cubes, cr, v), rp, b, c)
    ensures RowsDemand(cs, cubes, cof, rp, a, c) && ColumnsFrom(cubes, rp, a, c)
  {
    forall S ensures IsCover(c, S) <==> IsCover(a, S) && Demand(cs, cubes, cof, rp, S) {
      SplitTautology(cs, cubes, cof, v, cl, cr, Only(S));
    }
    forall x | x in ColsOf(c)
      ensures x in ColsOf(a) || x == rp || exists y :: y in cubes && y.redund && y.size == x
    {
    }
  }

  lemma DemandReduced(cs: Shape, cubes: seq<Cube>, cof: set<nat>, cd: CData, reduced: seq<Cube>, rp: nat, S: set<nat>)
    requires CountsOf(cs, cubes, cof, cd)
    requires forall c :: c in reduced <==> c in cubes && FullInUnate(cs, cd, c.parts + cof)
    ensures Demand(cs, cubes, cof, rp, S) <==> Demand(cs, reduced, cof, rp, S)
  {
    UnateReduction(cs, cubes, cof, cd, reduced, Only(S));
  }

  lemma DemandTransfer(cs: Shape, s: seq<Cube>, r: seq<Cube>, cof: set<nat>, rp: nat, a: Rows, b: Rows)
    requires RowsDemand(cs, r, cof, rp, a, b) && ColumnsFrom(r, rp, a, b)
    requires forall c :: c in r ==> c in s
    requires forall S :: Demand(cs, r, cof, rp, S) <==> Demand(cs, s, cof, rp, S)
    ensures RowsDemand(cs, s, cof, rp, a, b) && ColumnsFrom(s, rp, a, b)
  {
    forall S ensures IsCover(b, S) <==> IsCover(a, S) && Demand(cs, s, cof, rp, S) {
      assert Demand(cs, r, cof, rp, S) <==> Demand(cs, s, cof, rp, S);
    }
  }

  /** ftautology -- add to the table the ways to make T a tautology. */
  method FTautology(cs: Shape, T: CubeList, table: SmMatrix, rp: nat)
    requires table.Valid()
    modifies T, table
    ensures table.Valid()
    ensures RowsDemand(cs, old(T.cubes), old(T.cof), rp, old(table.rows), table.rows)
    ensures ColumnsFrom(old(T.cubes), rp, old(table.rows), table.rows)
    decreases FreeParts(cs, T.cof), 2
  {
    ghost var s, a := T.cubes, table.rows;
    var answer, cd := FTautSpecialCases(cs, T, table, rp);
    if answer == Maybe {
      FTautologySplit(cs, T, table, rp, cd, T.cubes, T.cof);
      DemandTransfer(cs, s, T.cubes, T.cof, rp, a, table.rows);
    }
  }

  /** The rows for the half h of variable v. */
  method HalfTable(cs: Shape, T: CubeList, table: SmMatrix, rp: nat, h: set<nat>, v: nat, ghost s: seq<Cube>,
                   ghost cof: set<nat>)
    requires table.Valid() && s == T.cubes && cof == T.cof && v < cs.numVars && h <= cs.fullset
    requires FreeParts(cs, cof + (cs.fullset - h)) < FreeParts(cs, cof)
    modifies table
    ensures table.Valid() && unchanged(T)
    ensures RowsDemand(cs, MeetingIn(cs, s, h, v), cof + (cs.fullset - h), rp, old(table.rows), table.rows)
    ensures ColumnsFrom(MeetingIn(cs, s, h, v), rp, old(table.rows), table.rows)
    decreases FreeParts(cs, T.cof), 0
  {
    var half := Scofactor(cs, T, h, v);
    FTautology(cs, half, table, rp);
  }

  /** The split of ftautology on the variable chosen. */
  method FTautologySplit(cs: Shape, T: CubeList, table: SmMatrix, rp: nat, cd: CData, ghost s: seq<Cube>,
                         ghost cof: set<nat>)
    requires table.Valid() && s == T.cubes && cof == T.cof
    requires CountsOf(cs, s, cof, cd) && cd.varsUnate != cd.varsActive
    modifies table
    ensures table.Valid()
    ensures RowsDemand(cs, s, cof, rp, old(table.rows), table.rows) && ColumnsFrom(s, rp, old(table.rows), table.rows)
    decreases FreeParts(cs, T.cof), 1
  {
    ghost var a := table.rows;
    BinateChoice(cs, s, cof, cd);
    var cl, cr := BinateSplitSelect(cs, T.cof, cd.best);
    HalvesOf(cs, cof, cd.best, cl, cr);
    SplitShrinks(cs, cof, cd.best, cl, cr);
    HalfTable(cs, T, table, rp, cl, cd.best, s, cof);
    ghost var b := table.rows;
    HalfTable(cs, T, table, rp, cr, cd.best, s, cof);
    DemandSplit(cs, s, cof, cd.best, cl, cr, rp, a, b, table.rows);
  }

  /** ftaut_special_cases -- Maybe leaves the table alone and T equivalent. */
  method FTautSpecialCases(cs: Shape, T: CubeList, table: SmMatrix, rp: nat) returns (answer: Answer, cd: CData)
    requires table.Valid()
    modifies T, table
    ensures table.Valid() && T.cof == old(T.cof)
    ensures answer != Maybe ==> RowsDemand(cs, old(T.cubes), T.cof, rp, old(table.rows), table.rows)
    ensures answer != Maybe ==> ColumnsFrom(old(T.cubes), rp, old(table.rows), table.rows)
    ensures answer == Maybe ==> table.rows == old(table.rows) && (forall c :: c in T.cubes ==> c in old(T.cubes))
    ensures answer == Maybe ==> forall S :: Demand(cs, T.cubes, T.cof, rp, S) <==>
      Demand(cs, old(T.cubes), T.cof, rp, S)
    ensures answer == Maybe ==> CountsOf(cs, T.cubes, T.cof, cd) && cd.varsUnate != cd.varsActive
  {
    for k := 0 to |T.cubes|
      invariant unchanged(T) && unchanged(table)
      invariant forall j :: 0 <= j < k ==> T.cubes[j].redund || !FullRow(cs, T.cubes[j].parts, T.cof)
    {
      if !T.cubes[k].redund && FullRow(cs, T.cubes[k].parts, T.cof) {
        CoveredAlready(cs, T.cubes, T.cof, rp, table.rows, T.cubes[k]);
        return True, NO_COUNTS;
      }
    }
    while true
      invariant T.cof == old(T.cof) && unchanged(table)
      invariant forall c :: c in T.cubes ==> c in old(T.cubes) && (c.redund || !FullRow(cs, c.parts, T.cof))
      invariant forall S :: Demand(cs, T.cubes, T.cof, rp, S) <==> Demand(cs, old(T.cubes), T.cof, rp, S)
      decreases |T.cubes|
    {
      cd := MassiveCount(cs, T);
      if cd.varsUnate == cd.varsActive {
        ghost var a := table.rows;
        ghost var num := InsertLeaf(cs, T, table, rp);
        LeafDemand(cs, T.cubes, T.cof, cd, rp, a, num, table.rows[num]);
        return True, cd;
      } else if cd.varsUnate != 0 {
        ghost var s := T.cubes;
        UnateReduce(cs, T, cd);
        forall S ensures Demand(cs, s, T.cof, rp, S) <==> Demand(cs, T.cubes, T.cof, rp, S) {
          DemandReduced(cs, s, T.cof, cd, T.cubes, rp, S);
        }
      } else {
        return Maybe, cd;
      }
    }
  }

  // ---------- the table of a whole cover ----------

  /** Minterm m is covered by D, E or a chosen cube of Rp. */
  ghost predicate Chosen(m: seq<nat>, D: seq<Cube>, E: seq<Cube>, Rp: seq<Cube>, S: set<nat>) {
    Covered(m, D) || Covered(m, E) || exists c :: c in Rp && c.size in S && In(m, c.parts)
  }

  ghost predicate AllChosen(cs: Shape, p: set<nat>, D: seq<Cube>, E: seq<Cube>, Rp: seq<Cube>, S: set<nat>) {
    forall m :: cs.Minterm(m) && In(m, p) ==> Chosen(m, D, E, Rp, S)
  }

  /** The first n cubes of Rp are covered by D, E and the chosen cubes. */
  ghost predicate Complete(cs: Shape, D: seq<Cube>, E: seq<Cube>, Rp: seq<Cube>, S: set<nat>, n: nat)
    requires n <= |Rp|
  {
    forall j :: 0 <= j < n ==> AllChosen(cs, Rp[j].parts, D, E, Rp, S)
  }

  function Flag(s: seq<Cube>, redund: bool): seq<Cube> {
    seq(|s|, k requires 0 <= k < |s| => s[k].(redund := redund))
  }

  /** The cubelist while cube i of Rp is processed: the cubes before it no longer count as redundant. */
  ghost function Listed(D: seq<Cube>, E: seq<Cube>, Rp: seq<Cube>, i: nat): seq<Cube> {
    Flag(D, false) + Flag(E, false) + seq(|Rp|, j requires 0 <= j < |Rp| => Rp[j].(redund := j >= i))
  }

  /** What a participating cube of the list other than cube i tells about a minterm it holds. */
  lemma ListedHolds(D: seq<Cube>, E: seq<Cube>, Rp: seq<Cube>, i: nat, S: set<nat>, k: nat, m: seq<nat>)
    requires i < |Rp| && k < |D| + |E| + |Rp| && k != |D| + |E| + i
    requires var c := Listed(D, E, Rp, i)[k]; Uses(Only(S), c) && In(m, c.parts)
    ensures Chosen(m, D, E, Rp, S) || exists j :: 0 <= j < i && In(m, Rp[j].parts)
  {
    var c := Listed(D, E, Rp, i)[k];
    if k < |D| {
      assert D[k] in D && In(m, D[k].parts);
    } else if k < |D| + |E| {
      assert E[k - |D|] in E && In(m, E[k - |D|].parts);
    } else {
      var j := k - |D| - |E|;
      assert c == Rp[j].(redund := j >= i) && Rp[j] in Rp;
    }
  }

  /** A chosen minterm lies in a participating cube of the list other than an unchosen cube i. */
  lemma ChosenListed(D: seq<Cube>, E: seq<Cube>, Rp: seq<Cube>, i: nat, S: set<nat>, m: seq<nat>) returns (k: nat)
    requires i < |Rp| && Rp[i].size !in S && Chosen(m, D, E, Rp, S)
    ensures k < |D| + |E| + |Rp| && k != |D| + |E| + i
    ensures var c := Listed(D, E, Rp, i)[k]; Uses(Only(S), c) && In(m, c.parts)
  {
    if Covered(m, D) {
      var c :| c in D && In(m, c.parts);
      k :| 0 <= k < |D| && D[k] == c;
    } else if Covered(m, E) {
      var c :| c in E && In(m, c.parts);
      var j :| 0 <= j < |E| && E[j] == c;
      k := |D| + j;
    } else {
      var c :| c in Rp && c.size in S && In(m, c.parts);
      var j :| 0 <= j < |Rp| && Rp[j] == c;
      k := |D| + |E| + j;
    }
  }

  /** The rows made for cube i demand exactly that cube i be covered too. */
  lemma DemandOfCube(cs: Shape, D: seq<Cube>, E: seq<Cube>, Rp: seq<Cube>, i: nat, S: set<nat>)
    requires i < |Rp| && NonVoid(cs, Rp[i].parts) && Complete(cs, D, E, Rp, S, i)
    ensures Demand(cs, Meeting(cs, Listed(D, E, Rp, i), Rp[i].parts, |D| + |E| + i), {} + (cs.fullset - Rp[i].parts),
                   Rp[i].size, S)
            <==> AllChosen(cs, Rp[i].parts, D, E, Rp, S)
  {
    var list, self, p := Listed(D, E, Rp, i), |D| + |E| + i, Rp[i].parts;
    CofactorTautology(cs, list, self, p, Only(S));
    if Rp[i].size in S {
      forall m | cs.Minterm(m) && In(m, p) ensures Chosen(m, D, E, Rp, S) {
        assert Rp[i] in Rp;
      }
    } else {
      if CubeCovered(cs, list, self, p, Only(S)) {
        forall m | cs.Minterm(m) && In(m, p) ensures Chosen(m, D, E, Rp, S) {
          var k :| 0 <= k < |list| && k != self && Uses(Only(S), list[k]) && In(m, list[k].parts);
          ListedHolds(D, E, Rp, i, S, k, m);
        }
      }
      if AllChosen(cs, p, D, E, Rp, S) {
        forall m | cs.Minterm(m) && In(m, p)
          ensures exists k :: 0 <= k < |list| && k != self && Uses(Only(S), list[k]) && In(m, list[k].parts)
        {
          var k := ChosenListed(D, E, Rp, i, S, m);
        }
      }
    }
  }

  /** The table built from the first n cubes of Rp is exact for them. */
  ghost predicate Exact(cs: Shape, D: seq<Cube>, E: seq<Cube>, Rp: seq<Cube>, n: nat, rows: Rows)
    requires n <= |Rp|
  {
    && (forall S :: IsCover(rows, S) <==> Complete(cs, D, E, Rp, S, n))
    && (forall x :: x in ColsOf(rows) ==> exists c :: c in Rp && c.size == x)
  }

  lemma ListedRedundant(D: seq<Cube>, E: seq<Cube>, Rp: seq<Cube>, i: nat, c: Cube)
    requires c in Listed(D, E, Rp, i) && c.redund
    ensures exists d :: d in Rp && d.size == c.size
  {
    var list := Listed(D, E, Rp, i);
    var k :| 0 <= k < |list| && list[k] == c;
    if |D| + |E| <= k {
      assert Rp[k - |D| - |E|] in Rp;
    }
  }

  lemma ExactColumns(cs: Shape, D: seq<Cube>, E: seq<Cube>, Rp: seq<Cube>, i: nat, before: Rows, after: Rows)
    requires i < |Rp| && (forall x :: x in ColsOf(before) ==> exists c :: c in Rp && c.size == x)
    requires ColumnsFrom(Meeting(cs, Listed(D, E, Rp, i), Rp[i].parts, |D| + |E| + i), Rp[i].size, before, after)
    ensures forall x :: x in ColsOf(after) ==> exists c :: c in Rp && c.size == x
  {
    var list := Meeting(cs, Listed(D, E, Rp, i), Rp[i].parts, |D| + |E| + i);
    forall x | x in ColsOf(after) ensures exists c :: c in Rp && c.size == x {
      if x == Rp[i].size {
        assert Rp[i] in Rp;
      } else if x !in ColsOf(before) {
        var c :| c in list && c.redund && c.size == x;
        assert c in Listed(D, E, Rp, i);
        ListedRedundant(D, E, Rp, i, c);
      }
    }
  }

  lemma CompleteStep(cs: Shape, D: seq<Cube>, E: seq<Cube>, Rp: seq<Cube>, i: nat, S: set<nat>)
    requires i < |Rp| && NonVoid(cs, Rp[i].parts)
    ensures Complete(cs, D, E, Rp, S, i + 1) <==>
            && Complete(cs, D, E, Rp, S, i)
            && Demand(cs, Meeting(cs, Listed(D, E, Rp, i), Rp[i].parts, |D| + |E| + i), {} + (cs.fullset - Rp[i].parts),
                      Rp[i].size, S)
  {
    if Complete(cs, D, E, Rp, S, i) {
      DemandOfCube(cs, D, E, Rp, i, S);
    }
  }

  lemma ExactStep(cs: Shape, D: seq<Cube>, E: seq<Cube>, Rp: seq<Cube>, i: nat, before: Rows, after: Rows)
    requires i < |Rp| && NonVoid(cs, Rp[i].parts) && Exact(cs, D, E, Rp, i, before)
    requires var list := Meeting(cs, Listed(D, E, Rp, i), Rp[i].parts, |D| + |E| + i);
             && RowsDemand(cs, list, {} + (cs.fullset - Rp[i].parts), Rp[i].size, before, after)
             && ColumnsFrom(list, Rp[i].size, before, after)
    ensures Exact(cs, D, E, Rp, i + 1, after)
  {
    forall S ensures IsCover(after, S) <==> Complete(cs, D, E, Rp, S, i + 1) {
      CompleteStep(cs, D, E, Rp, i, S);
    }
    ExactColumns(cs, D, E, Rp, i, before, after);
  }

  lemma ExactDominance(cs: Shape, D: seq<Cube>, E: seq<Cube>, Rp: seq<Cube>, n: nat, before: Rows, after: Rows)
    requires n <= |Rp| && Exact(cs, D, E, Rp, n, before) && FewerRows(before, after)
    ensures Exact(cs, D, E, Rp, n, after)
  {
    FewerRowsSimplify(Unit, before, after);
  }

  lemma ListedNext(D: seq<Cube>, E: seq<Cube>, Rp: seq<Cube>, i: nat)
    requires i < |Rp|
    ensures var list, self := Listed(D, E, Rp, i), |D| + |E| + i;
            Listed(D, E, Rp, i + 1) == list[self := list[self].(redund := false)]
  {
  }

  lemma ListedFirst(D: seq<Cube>, E: seq<Cube>, Rp: seq<Cube>)
    ensures Listed(D, E, Rp, 0) == Flag(D, false) + Flag(E, false) + Flag(Rp, true)
  {
  }

  /** fcube_is_covered for cube i of Rp. */
  method AddRowsFor(cs: Shape, list: CubeList, table: SmMatrix, ghost D: seq<Cube>, ghost E: seq<Cube>, Rp: seq<Cube>,
                    i: nat, self: nat)
    requires i < |Rp| && NonVoid(cs, Rp[i].parts) && self == |D| + |E| + i
    requires table.Valid() && list.cof == {} && list.cubes == Listed(D, E, Rp, i)
    requires Exact(cs, D, E, Rp, i, table.rows)
    modifies table
    ensures table.Valid() && Exact(cs, D, E, Rp, i + 1, table.rows)
  {
    ghost var before := table.rows;
    var Tc := CofactorOf(cs, list, Rp[i].parts, self);
    FTautology(cs, Tc, table, Rp[i].size);
    ExactStep(cs, D, E, Rp, i, before, table.rows);
  }

  /** irred_derive_table */
  method IrredDeriveTable(cs: Shape, D: seq<Cube>, E: seq<Cube>, Rp: seq<Cube>) returns (table: SmMatrix)
    requires forall p :: p in Rp ==> NonVoid(cs, p.parts)
    ensures fresh(table) && table.Valid()
    ensures Exact(cs, D, E, Rp, |Rp|, table.rows)
  {
    hide NonVoid, Exact, FewerRows, Undominated;
    var list := new CubeList({}, Flag(D, false) + Flag(E, false) + Flag(Rp, true));
    table := new SmMatrix();
    var sizeLastDominance := 0;
    ListedFirst(D, E, Rp);
    EmptyTable(cs, D, E, Rp, table.rows);
    for i := 0 to |Rp|
      invariant fresh(table) && table.Valid() && fresh(list)
      invariant list.cof == {} && list.cubes == Listed(D, E, Rp, i)
      invariant Exact(cs, D, E, Rp, i, table.rows)
    {
      var self := |D| + |E| + i;
      assert Rp[i] in Rp;
      AddRowsFor(cs, list, table, D, E, Rp, i, self);
      ListedNext(D, E, Rp, i);
      list.cubes := list.cubes[self := list.cubes[self].(redund := false)];
      if |table.rowNums| - sizeLastDominance > 1000 {
        ghost var before := table.rows;
        var deleted := RowDominance(table);
        ExactDominance(cs, D, E, Rp, i + 1, before, table.rows);
        sizeLastDominance := |table.rowNums|;
      }
    }
  }

  lemma EmptyTable(cs: Shape, D: seq<Cube>, E: seq<Cube>, Rp: seq<Cube>, rows: Rows)
    requires rows == map[]
    ensures Exact(cs, D, E, Rp, 0, rows)
  {
  }
}
