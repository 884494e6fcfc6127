/** irred.c: irred_split_cover, mark_irredundant and irredundant. */
module Redundancy {
  import opened Cubes
  import opened Cofactor
  import opened Irred
  import opened SortedLists
  import opened SparseMatrix
  import opened Covering
  import opened CoveringTable
  import opened Mincov
  import opened Reductions

  /** Cube i of F is covered by the other cubes of F and D. */
  ghost predicate Redundant(cs: Shape, F: seq<Cube>, D: seq<Cube>, i: nat)
    requires i < |F|
  {
    NonVoid(cs, F[i].parts) && CubeCovered(cs, F + D, i, F[i].parts, All)
  }

  /** Cube c is covered by E and D alone. */
  ghost predicate TotallyRedundant(cs: Shape, D: seq<Cube>, E: seq<Cube>, c: Cube) {
    NonVoid(cs, c.parts) && CubeCovered(cs, E + D, -1, c.parts, All)
  }

  ghost predicate Numbered(F: seq<Cube>) {
    forall i :: 0 <= i < |F| ==> F[i].size == i
  }

  /** The cubes of r are cubes of the numbered cover F, in increasing order. */
  ghost predicate SubList(F: seq<Cube>, r: seq<Cube>) {
    && (forall k :: 0 <= k < |r| ==> r[k].size < |F| && F[r[k].size] == r[k])
    && (forall j, k :: 0 <= j < k < |r| ==> r[j].size < r[k].size)
  }

  /** E: relatively essential, Rt: totally redundant, Rp: partially redundant cubes of F. */
  ghost predicate SplitOf(cs: Shape, F: seq<Cube>, D: seq<Cube>, E: seq<Cube>, Rt: seq<Cube>, Rp: seq<Cube>) {
    && Numbered(F) && SubList(F, E) && SubList(F, Rt) && SubList(F, Rp)
    && forall i :: 0 <= i < |F| ==>
         && (F[i] in E <==> !Redundant(cs, F, D, i))
         && (F[i] in Rt <==> Redundant(cs, F, D, i) && TotallyRedundant(cs, D, E, F[i]))
         && (F[i] in Rp <==> Redundant(cs, F, D, i) && !TotallyRedundant(cs, D, E, F[i]))
  }

  /** F with the SIZE field of every cube set to its index. */
  ghost function WithNumbers(F: seq<Cube>): seq<Cube> {
    seq(|F|, i requires 0 <= i < |F| => F[i].(size := i))
  }

  method NumberCubes(F: Cover)
    modifies F
    ensures F.cubes == WithNumbers(old(F.cubes)) && F.activeCount == old(F.activeCount)
  {
    for i := 0 to |F.cubes|
      invariant |F.cubes| == |old(F.cubes)| && F.activeCount == old(F.activeCount)
      invariant forall k :: 0 <= k < i ==> F.cubes[k] == old(F.cubes)[k].(size := k)
      invariant forall k :: i <= k < |F.cubes| ==> F.cubes[k] == old(F.cubes)[k]
    {
      F.cubes := F.cubes[i := F.cubes[i].(size := i)];
    }
  }

  /** Split F into E and the redundant rest. */
  method SplitEssential(cs: Shape, F: seq<Cube>, D: seq<Cube>) returns (E: seq<Cube>, R: seq<Cube>)
    requires Numbered(F)
    ensures SubList(F, E) && SubList(F, R)
    ensures forall i :: 0 <= i < |F| ==> (F[i] in E <==> !Redundant(cs, F, D, i))
    ensures forall i :: 0 <= i < |F| ==> (F[i] in R <==> Redundant(cs, F, D, i))
  {
    hide NonVoid, CubeCovered;
    E, R := [], [];
    var FD := new CubeList({}, F + D);
    for i := 0 to |F|
      invariant FD.cof == {} && FD.cubes == F + D
      invariant SubList(F, E) && SubList(F, R)
      invariant forall c :: c in E || c in R ==> c.size < i
      invariant forall k :: 0 <= k < i ==> (F[k] in E <==> !Redundant(cs, F, D, k))
      invariant forall k :: 0 <= k < i ==> (F[k] in R <==> Redundant(cs, F, D, k))
    {
      var covered := CubeIsCovered(cs, FD, i, F[i].parts);
      if covered {
        R := R + [F[i]];
      } else {
        E := E + [F[i]];
      }
    }
  }

  lemma SubListAppend(F: seq<Cube>, r: seq<Cube>, c: Cube)
    requires SubList(F, r) && c.size < |F| && F[c.size] == c && forall x :: x in r ==> x.size < c.size
    ensures SubList(F, r + [c])
  {
  }

  /** Split the redundant cubes into those covered by E and D, and the others. */
  method SplitRedundant(cs: Shape, ghost F: seq<Cube>, D: seq<Cube>, E: seq<Cube>, R: seq<Cube>)
    returns (Rt: seq<Cube>, Rp: seq<Cube>)
    requires SubList(F, R)
    ensures SubList(F, Rt) && SubList(F, Rp)
    ensures forall c :: c in Rt <==> c in R && TotallyRedundant(cs, D, E, c)
    ensures forall c :: c in Rp <==> c in R && !TotallyRedundant(cs, D, E, c)
  {
    Rt, Rp := [], [];
    var ED := new CubeList({}, E + D);
    for j := 0 to |R|
      invariant ED.cof == {} && ED.cubes == E + D
      invariant SubList(F, Rt) && SubList(F, Rp)
      invariant forall c :: c in Rt <==> c in R[..j] && TotallyRedundant(cs, D, E, c)
      invariant forall c :: c in Rp <==> c in R[..j] && !TotallyRedundant(cs, D, E, c)
    {
      var p := R[j];
      assert R[..j + 1] == R[..j] + [p];
      assert forall c :: c in R[..j] ==> c.size < p.size;
      var covered := CubeIsCovered(cs, ED, -1, p.parts);
      if covered {
        SubListAppend(F, Rt, p);
        Rt := Rt + [p];
      } else {
        SubListAppend(F, Rp, p);
        Rp := Rp + [p];
      }
    }
    assert R[..|R|] == R;
  }

  /** irred_split_cover */
  method IrredSplitCover(cs: Shape, F: Cover, D: seq<Cube>) returns (E: seq<Cube>, Rt: seq<Cube>, Rp: seq<Cube>)
    modifies F
    ensures F.cubes == WithNumbers(old(F.cubes)) && F.activeCount == old(F.activeCount)
    ensures SplitOf(cs, F.cubes, D, E, Rt, Rp)
  {
    NumberCubes(F);
    var R;
    E, R := SplitEssential(cs, F.cubes, D);
    Rt, Rp := SplitRedundant(cs, F.cubes, D, E, R);
  }

  /** E, D and the cubes of Rp chosen by a cover of the table hold all of F. */
  lemma SplitCovers(cs: Shape, F: seq<Cube>, D: seq<Cube>, E: seq<Cube>, Rt: seq<Cube>, Rp: seq<Cube>, S: set<nat>,
                    m: seq<nat>)
    requires SplitOf(cs, F, D, E, Rt, Rp) && Complete(cs, D, E, Rp, S, |Rp|)
    requires cs.Minterm(m) && Covered(m, F)
    ensures Chosen(m, D, E, Rp, S)
  {
    var c :| c in F && In(m, c.parts);
    var i :| 0 <= i < |F| && F[i] == c;
    if c in Rt {
      var k :| 0 <= k < |E + D| && Uses(All, (E + D)[k]) && In(m, (E + D)[k].parts);
      assert (E + D)[k] in E || (E + D)[k] in D;
    } else if c in Rp {
      var j :| 0 <= j < |Rp| && Rp[j] == c;
      assert AllChosen(cs, Rp[j].parts, D, E, Rp, S);
    }
  }

  /** Cube i of the numbered cover F with the marks of mark_irredundant. */
  ghost function Mark(F: seq<Cube>, E: seq<Cube>, cover: seq<nat>, i: nat): Cube
    requires i < |F|
  {
    F[i].(active := F[i] in E || i in cover, relessen := F[i] in E)
  }

  method ResetMarks(F: Cover)
    modifies F
    ensures |F.cubes| == |old(F.cubes)| && F.activeCount == old(F.activeCount)
    ensures forall i :: 0 <= i < |F.cubes| ==> F.cubes[i] == old(F.cubes)[i].(active := false, relessen := false)
  {
    for i := 0 to |F.cubes|
      invariant |F.cubes| == |old(F.cubes)| && F.activeCount == old(F.activeCount)
      invariant forall k :: 0 <= k < i ==> F.cubes[k] == old(F.cubes)[k].(active := false, relessen := false)
      invariant forall k :: i <= k < |F.cubes| ==> F.cubes[k] == old(F.cubes)[k]
    {
      F.cubes := F.cubes[i := F.cubes[i].(active := false, relessen := false)];
    }
  }

  method MarkEssential(F: Cover, ghost F0: seq<Cube>, E: seq<Cube>)
    requires |F.cubes| == |F0| && Numbered(F0) && SubList(F0, E)
    requires forall i :: 0 <= i < |F0| ==> F.cubes[i] == F0[i].(active := false, relessen := false)
    modifies F
    ensures |F.cubes| == |F0| && F.activeCount == old(F.activeCount)
    ensures forall i :: 0 <= i < |F0| ==> F.cubes[i] == Mark(F0, E, [], i)
  {
    for k := 0 to |E|
      invariant |F.cubes| == |F0| && F.activeCount == old(F.activeCount)
      invariant forall i :: 0 <= i < |F0| ==> F.cubes[i] == Mark(F0, E[..k], [], i)
    {
      assert E[..k + 1] == E[..k] + [E[k]];
      var n := E[k].size;
      F.cubes := F.cubes[n := F.cubes[n].(active := true, relessen := true)];
    }
    assert E[..|E|] == E;
  }

  method MarkChosen(F: Cover, ghost F0: seq<Cube>, ghost E: seq<Cube>, cover: seq<nat>)
    requires |F.cubes| == |F0| && Numbered(F0) && forall x :: x in cover ==> x < |F0|
    requires forall i :: 0 <= i < |F0| ==> F.cubes[i] == Mark(F0, E, [], i)
    modifies F
    ensures |F.cubes| == |F0| && F.activeCount == old(F.activeCount)
    ensures forall i :: 0 <= i < |F0| ==> F.cubes[i] == Mark(F0, E, cover, i)
  {
    for k := 0 to |cover|
      invariant |F.cubes| == |F0| && F.activeCount == old(F.activeCount)
      invariant forall i :: 0 <= i < |F0| ==> F.cubes[i] == Mark(F0, E, cover[..k], i)
    {
      assert cover[..k + 1] == cover[..k] + [cover[k]];
      assert cover[k] in cover;
      F.cubes := F.cubes[cover[k] := F.cubes[cover[k]].(active := true)];
    }
    assert cover[..|cover|] == cover;
  }

  /** The parts of s and t agree, position by position. */
  ghost predicate SameParts(s: seq<Cube>, t: seq<Cube>) {
    |s| == |t| && forall i :: 0 <= i < |s| ==> s[i].parts == t[i].parts
  }

  lemma SamePartsCovered(s: seq<Cube>, t: seq<Cube>, m: seq<nat>)
    requires SameParts(s, t) && Covered(m, s)
    ensures Covered(m, t)
  {
    var c :| c in s && In(m, c.parts);
    var i :| 0 <= i < |s| && s[i] == c;
    assert t[i] in t;
  }

  /** The columns of the table are indices of F. */
  lemma CoverIndices(cs: Shape, F: seq<Cube>, D: seq<Cube>, E: seq<Cube>, Rp: seq<Cube>, rows: Rows, cover: seq<nat>)
    requires SubList(F, Rp) && Exact(cs, D, E, Rp, |Rp|, rows) && Elems(cover) <= ColsOf(rows)
    ensures forall x :: x in cover ==> x < |F| && F[x] in Rp
  {
    forall x | x in cover ensures x < |F| && F[x] in Rp {
      assert x in Elems(cover);
      var c :| c in Rp && c.size == x;
    }
  }

  /** The marked cubes and D hold what F and D hold. */
  lemma MarksCover(cs: Shape, F: seq<Cube>, D: seq<Cube>, E: seq<Cube>, Rt: seq<Cube>, Rp: seq<Cube>, cover: seq<nat>,
                   G: seq<Cube>)
    requires SplitOf(cs, F, D, E, Rt, Rp) && Complete(cs, D, E, Rp, Elems(cover), |Rp|)
    requires |G| == |F| && forall i :: 0 <= i < |F| ==> G[i] == Mark(F, E, cover, i)
    ensures SameUnion(cs, F, ActiveOnly(G), D)
  {
    forall m | cs.Minterm(m) ensures Covered(m, F) || Covered(m, D) <==> Covered(m, ActiveOnly(G)) || Covered(m, D) {
      if Covered(m, F) {
        HeldByMarked(cs, F, D, E, Rt, Rp, cover, G, m);
      }
      if Covered(m, ActiveOnly(G)) {
        MarkedHeld(F, E, cover, G, m);
      }
    }
  }

  lemma HeldByMarked(cs: Shape, F: seq<Cube>, D: seq<Cube>, E: seq<Cube>, Rt: seq<Cube>, Rp: seq<Cube>, cover: seq<nat>,
                     G: seq<Cube>, m: seq<nat>)
    requires SplitOf(cs, F, D, E, Rt, Rp) && Complete(cs, D, E, Rp, Elems(cover), |Rp|)
    requires |G| == |F| && forall i :: 0 <= i < |F| ==> G[i] == Mark(F, E, cover, i)
    requires cs.Minterm(m) && Covered(m, F)
    ensures Covered(m, ActiveOnly(G)) || Covered(m, D)
  {
    hide Complete, Redundant, TotallyRedundant;
    SplitCovers(cs, F, D, E, Rt, Rp, Elems(cover), m);
    if !Covered(m, D) {
      var c :| (c in E || (c in Rp && c.size in cover)) && In(m, c.parts);
      var i := c.size;
      assert G[i] in G && G[i].active && G[i].parts == c.parts;
      assert G[i] in ActiveOnly(G);
    }
  }

  lemma MarkedHeld(F: seq<Cube>, E: seq<Cube>, cover: seq<nat>, G: seq<Cube>, m: seq<nat>)
    requires |G| == |F| && forall i :: 0 <= i < |F| ==> G[i] == Mark(F, E, cover, i)
    requires Covered(m, ActiveOnly(G))
    ensures Covered(m, F)
  {
    var g :| g in ActiveOnly(G) && In(m, g.parts);
    var i :| 0 <= i < |G| && G[i] == g;
    assert F[i] in F && In(m, F[i].parts);
  }

  /** What mark_irredundant worked out: the numbered cover, its three parts, the table and the columns chosen. */
  datatype Work = Work(F: seq<Cube>, E: seq<Cube>, Rt: seq<Cube>, Rp: seq<Cube>, rows: Rows, cover: seq<nat>)

  /** What the heuristic solver returns for a table. */
  ghost predicate SolverCover(rows: Rows, cover: seq<nat>) {
    && Sorted(cover) && Elems(cover) <= ColsOf(rows) && IsCover(rows, Elems(cover))
    && (forall r :: r in rows ==> Sorted(rows[r]))
    && (Thick(rows) ==> Elems(cover) != ColsOf(rows)) && HeuristicRun(rows, Elems(cover))
  }

  /** G holds the marks that follow from the work. */
  ghost predicate MarkedBy(cs: Shape, D: seq<Cube>, w: Work, G: seq<Cube>) {
    && SplitOf(cs, w.F, D, w.E, w.Rt, w.Rp)
    && Exact(cs, D, w.E, w.Rp, |w.Rp|, w.rows)
    && SolverCover(w.rows, w.cover)
    && |G| == |w.F| && forall i :: 0 <= i < |w.F| ==> G[i] == Mark(w.F, w.E, w.cover, i)
  }

  /** The table, and a column cover of it. */
  method ChooseCover(cs: Shape, D: seq<Cube>, E: seq<Cube>, Rp: seq<Cube>) returns (cover: seq<nat>, ghost rows: Rows)
    requires forall p :: p in Rp ==> NonVoid(cs, p.parts)
    ensures Exact(cs, D, E, Rp, |Rp|, rows) && SolverCover(rows, cover)
  {
    var table := IrredDeriveTable(cs, D, E, Rp);
    cover := SmMinimumCover(table, Unit, true);
    rows := table.rows;
  }

  /** The marks of the result. */
  method SetMarks(F: Cover, E: seq<Cube>, cover: seq<nat>)
    requires Numbered(F.cubes) && SubList(F.cubes, E) && forall x :: x in cover ==> x < |F.cubes|
    modifies F
    ensures |F.cubes| == |old(F.cubes)| && F.activeCount == old(F.activeCount)
    ensures forall i :: 0 <= i < |F.cubes| ==> F.cubes[i] == Mark(old(F.cubes), E, cover, i)
  {
    ghost var F0 := F.cubes;
    ResetMarks(F);
    MarkEssential(F, F0, E);
    MarkChosen(F, F0, E, cover);
  }

  lemma RedundantNonVoid(cs: Shape, F: seq<Cube>, D: seq<Cube>, E: seq<Cube>, Rt: seq<Cube>, Rp: seq<Cube>)
    requires SplitOf(cs, F, D, E, Rt, Rp)
    ensures forall p :: p in Rp ==> NonVoid(cs, p.parts)
  {
    forall p | p in Rp ensures NonVoid(cs, p.parts) {
      var k :| 0 <= k < |Rp| && Rp[k] == p;
      assert Redundant(cs, F, D, p.size);
    }
  }

  /** The cubes marked active hold what the cover given held. */
  lemma MarkedUnion(cs: Shape, before: seq<Cube>, D: seq<Cube>, w: Work, G: seq<Cube>)
    requires w.F == WithNumbers(before) && MarkedBy(cs, D, w, G)
    ensures SameUnion(cs, before, ActiveOnly(G), D)
  {
    MarksCover(cs, w.F, D, w.E, w.Rt, w.Rp, w.cover, G);
    forall m | cs.Minterm(m) ensures Covered(m, before) <==> Covered(m, w.F) {
      if Covered(m, before) {
        SamePartsCovered(before, w.F, m);
      }
      if Covered(m, w.F) {
        SamePartsCovered(w.F, before, m);
      }
    }
  }

  /** mark_irredundant -- the cubes left active and D hold what F and D hold. */
  method MarkIrredundant(cs: Shape, F: Cover, D: seq<Cube>) returns (ghost work: Work)
    modifies F
    ensures work.F == WithNumbers(old(F.cubes)) && MarkedBy(cs, D, work, F.cubes)
    ensures SameParts(F.cubes, old(F.cubes)) && F.activeCount == old(F.activeCount)
    ensures SameUnion(cs, old(F.cubes), ActiveOnly(F.cubes), D)
  {
    ghost var before := F.cubes;
    var E, Rt, Rp := IrredSplitCover(cs, F, D);
    ghost var F0 := F.cubes;
    RedundantNonVoid(cs, F0, D, E, Rt, Rp);
    ghost var rows;
    var cover;
    cover, rows := ChooseCover(cs, D, E, Rp);
    CoverIndices(cs, F0, D, E, Rp, rows, cover);
    SetMarks(F, E, cover);
    work := Work(F0, E, Rt, Rp, rows, cover);
    MarkedUnion(cs, before, D, work, F.cubes);
  }

  /** irredundant -- a subset of F that, with D, holds what F and D held. */
  method Irredundant(cs: Shape, F: Cover, D: seq<Cube>) returns (ghost work: Work, ghost marked: seq<Cube>)
    modifies F
    ensures work.F == WithNumbers(old(F.cubes)) && MarkedBy(cs, D, work, marked) && F.cubes == ActiveOnly(marked)
    ensures SameUnion(cs, old(F.cubes), F.cubes, D)
    ensures |F.cubes| <= |old(F.cubes)|
    ensures forall c :: c in F.cubes ==> exists d :: d in old(F.cubes) && d.parts == c.parts
  {
    work := MarkIrredundant(cs, F, D);
    marked := F.cubes;
    SfInactive(F);
    forall c | c in F.cubes ensures exists d :: d in old(F.cubes) && d.parts == c.parts {
      var i :| 0 <= i < |marked| && marked[i] == c;
      assert old(F.cubes)[i] in old(F.cubes);
    }
  }

  // ---------- what irredundant leaves ----------

  /** Cube c of r has a minterm that no other cube of r, and none of D, holds. */
  ghost predicate OwnMinterm(cs: Shape, r: seq<Cube>, D: seq<Cube>, c: Cube) {
    exists m :: cs.Minterm(m) && In(m, c.parts) && HeldAlone(r, D, c, m)
  }

  ghost predicate HeldAlone(r: seq<Cube>, D: seq<Cube>, c: Cube, m: seq<nat>) {
    !Covered(m, D) && forall d :: d in r && d != c ==> !In(m, d.parts)
  }

  /** The column cover has no column to spare. */
  ghost predicate NoneSpare(rows: Rows, cover: seq<nat>) {
    forall x :: x in cover ==> !IsCover(rows, Elems(cover) - {x})
  }

  /** G marks the cubes of E and those of Rp that were chosen. */
  ghost predicate Kept(F: seq<Cube>, E: seq<Cube>, Rp: seq<Cube>, cover: seq<nat>, G: seq<Cube>) {
    && Numbered(F) && |G| == |F| && (forall i :: 0 <= i < |F| ==> G[i] == Mark(F, E, cover, i))
    && (forall x :: x in cover ==> x < |F| && F[x] in Rp)
    && (forall c :: c in E || c in Rp ==> c.size < |F| && F[c.size] == c)
    && (forall c :: c in Rp ==> c !in E)
  }

  lemma KeptBy(cs: Shape, D: seq<Cube>, w: Work, G: seq<Cube>)
    requires MarkedBy(cs, D, w, G)
    ensures Kept(w.F, w.E, w.Rp, w.cover, G)
    ensures forall i :: 0 <= i < |w.F| && w.F[i] in w.E ==> !Redundant(cs, w.F, D, i)
  {
    CoverIndices(cs, w.F, D, w.E, w.Rp, w.rows, w.cover);
    forall c | c in w.E || c in w.Rp ensures c.size < |w.F| && w.F[c.size] == c {
      if c in w.E {
        var k :| 0 <= k < |w.E| && w.E[k] == c;
      } else {
        var k :| 0 <= k < |w.Rp| && w.Rp[k] == c;
      }
    }
    forall c | c in w.Rp ensures c !in w.E {
      assert w.F[c.size] in w.Rp;
    }
  }

  lemma KeptCube(F: seq<Cube>, E: seq<Cube>, Rp: seq<Cube>, cover: seq<nat>, G: seq<Cube>, c: Cube)
    requires Kept(F, E, Rp, cover, G)
    ensures c in ActiveOnly(G) <==> c.size < |G| && c == G[c.size] && (F[c.size] in E || c.size in cover)
  {
    if c in ActiveOnly(G) {
      var i :| 0 <= i < |G| && G[i] == c;
      assert F[i].size == i;
    }
    if c.size < |G| && c == G[c.size] && c.active {
      assert G[c.size] in G;
    }
  }

  /** A relatively essential cube keeps a minterm of its own. */
  lemma EssentialOwn(cs: Shape, F: seq<Cube>, D: seq<Cube>, E: seq<Cube>, Rp: seq<Cube>, cover: seq<nat>, G: seq<Cube>,
                     i: nat)
    requires Kept(F, E, Rp, cover, G) && i < |G| && !Redundant(cs, F, D, i) && NonVoid(cs, F[i].parts)
    ensures OwnMinterm(cs, ActiveOnly(G), D, G[i])
  {
    hide NonVoid, ActiveOnly, In;
    var m :| cs.Minterm(m) && In(m, F[i].parts) &&
      !exists k :: 0 <= k < |F + D| && k != i && Uses(All, (F + D)[k]) && In(m, (F + D)[k].parts);
    forall k | 0 <= k < |F + D| && k != i ensures !In(m, (F + D)[k].parts) {
      assert Uses(All, (F + D)[k]);
    }
    forall d | d in ActiveOnly(G) && d != G[i] ensures !In(m, d.parts) {
      KeptCube(F, E, Rp, cover, G, d);
      assert (F + D)[d.size] == F[d.size];
    }
    forall d | d in D ensures !In(m, d.parts) {
      var k :| 0 <= k < |D| && D[k] == d;
      assert (F + D)[|F| + k] == d;
    }
    assert HeldAlone(ActiveOnly(G), D, G[i], m);
  }

  /** The cubes chosen without column i hold every minterm of Rp, unless cube i has one of its own. */
  lemma ChosenWithout(cs: Shape, F: seq<Cube>, D: seq<Cube>, E: seq<Cube>, Rp: seq<Cube>, cover: seq<nat>, G: seq<Cube>,
                      i: nat, m: seq<nat>)
    requires Kept(F, E, Rp, cover, G) && i in cover && i < |G| && !OwnMinterm(cs, ActiveOnly(G), D, G[i])
    requires cs.Minterm(m) && Chosen(m, D, E, Rp, Elems(cover))
    ensures Chosen(m, D, E, Rp, Elems(cover) - {i})
  {
    hide ActiveOnly, In;
    if !Covered(m, D) && !Covered(m, E) {
      var c :| c in Rp && c.size in Elems(cover) && In(m, c.parts);
      if c.size == i {
        assert F[i] == c && In(m, G[i].parts);
        assert !HeldAlone(ActiveOnly(G), D, G[i], m);
        var d :| d in ActiveOnly(G) && d != G[i] && In(m, d.parts);
        KeptCube(F, E, Rp, cover, G, d);
        var e := F[d.size];
        assert e in E ==> Covered(m, E);
        assert e in Rp && e.size in Elems(cover) - {i} && In(m, e.parts);
      }
    }
  }

  /** A chosen cube has a minterm of its own exactly if its column cannot be spared. */
  lemma ChosenOwn(cs: Shape, D: seq<Cube>, w: Work, G: seq<Cube>, i: nat)
    requires MarkedBy(cs, D, w, G) && i in w.cover && i < |G|
    ensures OwnMinterm(cs, ActiveOnly(G), D, G[i]) <==> !IsCover(w.rows, Elems(w.cover) - {i})
  {
    var S := Elems(w.cover) - {i};
    KeptBy(cs, D, w, G);
    if !OwnMinterm(cs, ActiveOnly(G), D, G[i]) {
      forall j | 0 <= j < |w.Rp| ensures AllChosen(cs, w.Rp[j].parts, D, w.E, w.Rp, S) {
        assert AllChosen(cs, w.Rp[j].parts, D, w.E, w.Rp, Elems(w.cover));
        forall m | cs.Minterm(m) && In(m, w.Rp[j].parts) ensures Chosen(m, D, w.E, w.Rp, S) {
          ChosenWithout(cs, w.F, D, w.E, w.Rp, w.cover, G, i, m);
        }
      }
      assert Complete(cs, D, w.E, w.Rp, S, |w.Rp|);
    }
    if IsCover(w.rows, S) {
      assert Complete(cs, D, w.E, w.Rp, S, |w.Rp|);
      NotAlone(cs, w.F, D, w.E, w.Rp, w.cover, G, i);
    }
  }

  lemma NotAlone(cs: Shape, F: seq<Cube>, D: seq<Cube>, E: seq<Cube>, Rp: seq<Cube>, cover: seq<nat>, G: seq<Cube>,
                 i: nat)
    requires Kept(F, E, Rp, cover, G) && i in cover && i < |G|
    requires Complete(cs, D, E, Rp, Elems(cover) - {i}, |Rp|)
    ensures !OwnMinterm(cs, ActiveOnly(G), D, G[i])
  {
    var j :| 0 <= j < |Rp| && Rp[j] == F[i];
    assert AllChosen(cs, Rp[j].parts, D, E, Rp, Elems(cover) - {i});
    forall m | cs.Minterm(m) && In(m, G[i].parts) ensures !HeldAlone(ActiveOnly(G), D, G[i], m) {
      assert Chosen(m, D, E, Rp, Elems(cover) - {i});
      if !Covered(m, D) {
        var c :| (c in E || (c in Rp && c.size in Elems(cover) - {i})) && In(m, c.parts);
        KeptCube(F, E, Rp, cover, G, G[c.size]);
        assert c.size != i;
        assert G[c.size] in ActiveOnly(G) && G[c.size] != G[i] && In(m, G[c.size].parts);
      }
    }
  }

  /** A cube that is left: if it is not a chosen one, it is relatively essential. */
  lemma OwnExactly(cs: Shape, D: seq<Cube>, w: Work, G: seq<Cube>, c: Cube)
    requires MarkedBy(cs, D, w, G) && c in ActiveOnly(G) && forall d :: d in w.F ==> NonVoid(cs, d.parts)
    ensures OwnMinterm(cs, ActiveOnly(G), D, c) <==> (c.size in w.cover ==> !IsCover(w.rows, Elems(w.cover) - {c.size}))
  {
    KeptBy(cs, D, w, G);
    KeptCube(w.F, w.E, w.Rp, w.cover, G, c);
    if c.size in w.cover {
      ChosenOwn(cs, D, w, G, c.size);
    } else {
      assert w.F[c.size] in w.F;
      EssentialOwn(cs, w.F, D, w.E, w.Rp, w.cover, G, c.size);
    }
  }

  lemma ChosenLeft(cs: Shape, D: seq<Cube>, w: Work, G: seq<Cube>, x: nat)
    requires MarkedBy(cs, D, w, G) && x in w.cover
    ensures x < |G| && G[x] in ActiveOnly(G) && G[x].size == x
  {
    KeptBy(cs, D, w, G);
    KeptCube(w.F, w.E, w.Rp, w.cover, G, G[x]);
  }

  ghost predicate AllOwn(cs: Shape, r: seq<Cube>, D: seq<Cube>) {
    forall c :: c in r ==> OwnMinterm(cs, r, D, c)
  }

  /**
   After irredundant every cube has a minterm of its own exactly if the column cover that was chosen has no
   column to spare -- which the heuristic solver does not promise.
   */
  lemma OwnMintermsExactly(cs: Shape, D: seq<Cube>, w: Work, G: seq<Cube>)
    requires MarkedBy(cs, D, w, G) && forall c :: c in w.F ==> NonVoid(cs, c.parts)
    ensures AllOwn(cs, ActiveOnly(G), D) <==> NoneSpare(w.rows, w.cover)
  {
    var r := ActiveOnly(G);
    if AllOwn(cs, r, D) {
      forall x | x in w.cover ensures !IsCover(w.rows, Elems(w.cover) - {x}) {
        ChosenLeft(cs, D, w, G, x);
        OwnExactly(cs, D, w, G, G[x]);
      }
    }
    if NoneSpare(w.rows, w.cover) {
      forall c | c in r ensures OwnMinterm(cs, r, D, c) {
        OwnExactly(cs, D, w, G, c);
      }
    }
  }

  // ---------- when irredundant drops nothing ----------

  lemma {:induction false} NoneInactive(s: seq<Cube>)
    requires |ActiveOnly(s)| == |s|
    ensures forall k :: 0 <= k < |s| ==> s[k].active
  {
    if s != [] {
      NoneInactive(s[..|s| - 1]);
    }
  }

  /** A redundant cube is held by the others: the partially redundant ones but it complete the essential ones. */
  lemma OthersComplete(cs: Shape, F: seq<Cube>, D: seq<Cube>, E: seq<Cube>, Rt: seq<Cube>, Rp: seq<Cube>, y: nat)
    requires SplitOf(cs, F, D, E, Rt, Rp) && y < |F| && Redundant(cs, F, D, y)
    ensures Complete(cs, D, E, Rp, (set c | c in Rp :: c.size) - {y}, |Rp|)
  {
    var S := (set c | c in Rp :: c.size) - {y};
    forall j, m | 0 <= j < |Rp| && cs.Minterm(m) && In(m, Rp[j].parts) ensures Chosen(m, D, E, Rp, S) {
      var p := Rp[j];
      assert p in Rp;
      if p.size == y {
        assert F[y] == p;
        OtherHolds(cs, F, D, E, Rt, Rp, y, m);
      }
    }
  }

  lemma OtherHolds(cs: Shape, F: seq<Cube>, D: seq<Cube>, E: seq<Cube>, Rt: seq<Cube>, Rp: seq<Cube>, y: nat,
                   m: seq<nat>)
    requires SplitOf(cs, F, D, E, Rt, Rp) && y < |F| && Redundant(cs, F, D, y) && cs.Minterm(m) && In(m, F[y].parts)
    ensures Chosen(m, D, E, Rp, (set c | c in Rp :: c.size) - {y})
  {
    var S := (set c | c in Rp :: c.size) - {y};
    var k :| 0 <= k < |F + D| && k != y && Uses(All, (F + D)[k]) && In(m, (F + D)[k].parts);
    if k < |F| {
      var c := F[k];
      assert (F + D)[k] == c && c.size == k;
      if c in Rt {
        var l :| 0 <= l < |E + D| && Uses(All, (E + D)[l]) && In(m, (E + D)[l].parts);
        assert (E + D)[l] in E || (E + D)[l] in D;
      } else if c in Rp {
        assert c.size in S;
      }
    } else {
      assert (F + D)[k] == D[k - |F|];
    }
  }

  /** So no row of the table is decided. */
  lemma NotDecided(cs: Shape, D: seq<Cube>, w: Work, y: nat)
    requires SplitOf(cs, w.F, D, w.E, w.Rt, w.Rp) && Exact(cs, D, w.E, w.Rp, |w.Rp|, w.rows)
    requires y < |w.F| && Redundant(cs, w.F, D, y)
    ensures forall r :: r in w.rows ==> w.rows[r] != [y]
  {
    var S := (set c | c in w.Rp :: c.size) - {y};
    OthersComplete(cs, w.F, D, w.E, w.Rt, w.Rp, y);
    assert IsCover(w.rows, S);
    forall r | r in w.rows ensures w.rows[r] != [y] {
      assert Hit(w.rows[r], S);
    }
  }

  lemma TableThick(cs: Shape, D: seq<Cube>, w: Work, G: seq<Cube>)
    requires MarkedBy(cs, D, w, G) && w.rows != map[]
    ensures Thick(w.rows)
  {
    KeptBy(cs, D, w, G);
    forall r | r in w.rows ensures |w.rows[r]| >= 2 {
      assert Hit(w.rows[r], Elems(w.cover));
      var y := w.rows[r][0];
      assert y in ColsOf(w.rows) by {
        assert y in w.rows[r];
      }
      var c :| c in w.Rp && c.size == y;
      assert w.F[y] == c;
      NotDecided(cs, D, w, y);
      assert w.rows[r] != [y];
    }
  }

  /** The solver never takes all columns: if every cube is kept there were none to choose from. */
  lemma NothingDropped(cs: Shape, D: seq<Cube>, w: Work, G: seq<Cube>)
    requires MarkedBy(cs, D, w, G) && |ActiveOnly(G)| == |G|
    ensures w.cover == [] && NoneSpare(w.rows, w.cover)
  {
    if w.cover != [] {
      assert w.cover[0] in Elems(w.cover);
      TableThick(cs, D, w, G);
      NoneInactive(G);
      KeptBy(cs, D, w, G);
      forall z | z in ColsOf(w.rows) ensures z in Elems(w.cover) {
        var c :| c in w.Rp && c.size == z;
        assert w.F[z] == c && G[z].active;
      }
    }
  }

  // ---------- when there is nothing to choose ----------

  /** Every redundant cube of F is held by D and the cubes of F that are not redundant. */
  ghost predicate Decided(cs: Shape, F: seq<Cube>, D: seq<Cube>) {
    forall i, m :: 0 <= i < |F| && Redundant(cs, F, D, i) && cs.Minterm(m) && In(m, F[i].parts) ==>
      Covered(m, D) || HeldByNeeded(cs, F, D, m)
  }

  ghost predicate HeldByNeeded(cs: Shape, F: seq<Cube>, D: seq<Cube>, m: seq<nat>) {
    exists k :: 0 <= k < |F| && !Redundant(cs, F, D, k) && In(m, F[k].parts)
  }

  /** Then irredundant leaves no cube that could be spared. */
  lemma NothingToChoose(cs: Shape, D: seq<Cube>, w: Work, G: seq<Cube>)
    requires MarkedBy(cs, D, w, G) && Decided(cs, w.F, D)
    ensures w.cover == [] && NoneSpare(w.rows, w.cover)
  {
    forall c ensures c !in w.Rp {
      if c in w.Rp {
        var k :| 0 <= k < |w.Rp| && w.Rp[k] == c;
        AllHeld(cs, D, w, c.size);
      }
    }
    assert forall x :: x !in ColsOf(w.rows);
    SortedLength(w.cover);
    assert Elems(w.cover) == {};
  }

  lemma AllHeld(cs: Shape, D: seq<Cube>, w: Work, i: nat)
    requires SplitOf(cs, w.F, D, w.E, w.Rt, w.Rp) && Decided(cs, w.F, D) && i < |w.F|
    ensures Redundant(cs, w.F, D, i) ==> TotallyRedundant(cs, D, w.E, w.F[i])
  {
    if Redundant(cs, w.F, D, i) {
      forall m | cs.Minterm(m) && In(m, w.F[i].parts)
        ensures exists k :: 0 <= k < |w.E + D| && k != -1 && Uses(All, (w.E + D)[k]) && In(m, (w.E + D)[k].parts)
      {
        var c := NeededHolder(cs, D, w, m);
        var k :| 0 <= k < |w.E + D| && (w.E + D)[k] == c;
        assert Uses(All, (w.E + D)[k]);
      }
    }
  }

  lemma NeededHolder(cs: Shape, D: seq<Cube>, w: Work, m: seq<nat>) returns (c: Cube)
    requires SplitOf(cs, w.F, D, w.E, w.Rt, w.Rp) && (Covered(m, D) || HeldByNeeded(cs, w.F, D, m))
    ensures c in w.E + D && In(m, c.parts)
  {
    if Covered(m, D) {
      c :| c in D && In(m, c.parts);
    } else {
      var k :| 0 <= k < |w.F| && !Redundant(cs, w.F, D, k) && In(m, w.F[k].parts);
      assert w.F[k] in w.E;
      c := w.F[k];
    }
  }
}
