# The two-level logic minimizer, modelled and proved

This project models the core of `espresso`, the two-level minimizer for multiple-valued logic, and proves
what its passes promise about minterms.  A function is given by three covers: the ON-set F, the
don't-care set D and the OFF-set R.  A cube is a set of *parts*, every part belongs to one variable, and a
minterm picks one part of every variable; a cube holds the minterms all of whose parts it has.  A
*cubelist* is a pair of a set of parts `cof` and some cubes, in which every cube p stands for p | cof.

The modules follow the program, roughly one for every source file:

| files | what they hold |
|---|---|
| Cubes, CubeSetup, PackedWords, PackedActive, SetOps | cubes and the cube structure, cubes packed into words, distance and consensus |
| Cofactor, Recursion, Partition | cofactors, column counts, splitting, and what they do to the minterms of a cubelist |
| Irred, CoveringTable, Redundancy | tautology, the covering table of the redundant cubes, irredundant covers |
| SortedLists, SparseMatrix, Covering, Dominance, Solution, Reductions, Gimpel, Indep, Blocks, Mincov | the sparse matrix and the branch-and-bound minimum cover solver |
| Containment, Primes, ExactMinimization | containment and unions of sorted families, all primes by recursive consensus, the exact minimizer |
| Compl, Unate, ReducePass, Sharp | complements, minimal transversals, maximal reduction, sharp products |
| Sets, Unravel, ExpandPass, Ordering, CoverCost, Sparse, Gasp, SuperGasp, EssentialPass, Espresso | the heuristic passes and the main loop |
| RedundantCube | a cover in which irredundant leaves a cube that could be spared |
| Commands | a minimizer followed by the check of its result, as the command line runs them |

The main results, each for all inputs:

* **Exact minimization.**  `ExactMinimization.DoMinimize` and `MinimizeExact` compose prime generation, the
  split into essential and redundant cubes, the covering table and the exact solver: the result is a cover
  of F up to D by implicants of F and D, and no such cover has fewer cubes.  Before make_sparse the second
  half needs that no void cube was generated: `MinimumIffNonVoid` says that it fails exactly then.
  `MinimumGuaranteed` gives a check on F and D that rules it out, and `NotMinimumExample` a run without
  that check, on two cubes, in which it fails.  For a single cube in F and D the result is minimum exactly
  when that cube is not void (`SingleCubeExactly`); for more cubes an exact condition in F and D alone is
  not given.
* **The covering solver.**  `Mincov.SmMincov` returns NIL exactly when the optimum is not below the bound,
  and an optimal solution otherwise, through essentials, both dominances, Gimpel's reduction, blocks and
  the independent-set bound; in heuristic mode it still covers every row, and in either mode it selects
  every column that the reductions are bound to select.
* **Tautology and reduction.**  The recursive engines decide or compute exactly what their definitions over
  all minterms say: `Irred.Tautology`, `ReducePass.ReduceCube`, `Primes.PrimesConsensus`,
  `Compl.Complement`, `Compl.SimpComp`, `Compl.Simplify`, `CoveringTable.IrredDeriveTable`.
* **The heuristic loop.**  Whenever `Espresso.Espresso` returns, its result misses the OFF-set, holds F
  together with D, and has no more cubes than F.  `Commands.RunEspresso` adds the check that follows it:
  with F, D and R a partition of the space, verify reports no error and the union is the same.
  `Commands.RunExact` does the same for the exact minimizer, where verify reports an error exactly when
  the result has a void cube.  `VoidCubesReported` is about any cover that misses the OFF-set and keeps the
  ON-set: verify reports an error exactly when a cube of it, or of the ON-set given, is void.
* **Unreachable errors.**  expand1 never finds ON-set and OFF-set overlapping and never runs out of free
  parts, verify_cover never fails, the stack of exact_minimum_cover never exceeds its 32 slots, and the
  column choice of unate_complement fails exactly when the smallest rows have more than 1025 columns.  The
  error of reduce_gasp for a cube without minterms of its own is out of reach too, although the heuristic
  cover may hold a column to spare: the inner loop only ends when irredundant has dropped nothing, and a
  table is never covered by all of its columns (`Mincov.Spares`, `Redundancy.NothingDropped`,
  `Espresso.InnerLoop`).

Where the program does less than its comments say, the exact condition is proved:

* exact_minimum_cover is to compute all minimal transversals, as unate_compl does.  It finds them except
  for the set of all columns, whose complement is empty, and returns nothing for a family without rows.  So
  it is complete, and agrees with unate_compl, exactly when there is a row and some column is not alone in a
  row or some row is empty (`Unate.AllColumnsMinimal`, `CompleteExactly`, `FamiliesAgree`; `AllColumnsLost`
  and `NoRowLost` are inputs on which it fails).
* all_primes is to generate all primes that contain a cube.  It does so exactly when some OFF-set cube meets
  the overexpanded cube, or nothing can be raised; otherwise the cube itself is returned, flagged as prime,
  while the only prime is the overexpanded cube (`SuperGasp.AllFoundExactly`, `OnlyPrime`).  `PrimeMissed`
  is such a run: above the cube {0,2} beside the OFF-set cube {1,2,3}.
* The column cover that mincov uses is to keep the raised cube clear of the OFF-set.  `CoversSafeExactly` is
  about all covers of the rows of an OFF-set cube: they are all safe exactly when the raised cube has a part
  of every binary variable in which that cube is full.  `MinCovVoid` is about the cover that the solver
  returns: if the raised cube is void in every variable in which it conflicts with the OFF-set cube, and all
  of these are full binary variables, the cube always ends up meeting it.  `VoidCubeExpanded` is such a cube
  in a space of three binary variables.
* mincov is to decide everything or to raise a part.  With no part free it decides everything exactly when at
  most 500 OFF-set cubes are still active, all of which are void; otherwise it asks for the most frequent part
  again and again (`StallsExactly`, `VoidCubesStall`).
* irredundant is to leave a cover in which every cube is needed.  The covering table is covered
  heuristically, and on the seven cubes of `RedundantCube.ExampleCover` every run leaves a cube that the
  others hold, which reduce_gasp would not accept (`RedundantCubeLeft`).  Nothing is left over when every
  redundant cube of F is held by D and the cubes of F that are not redundant, because then nothing has to be
  chosen (`Redundancy.NothingToChoose`).  In general all cubes left are needed, and reduce_gasp accepts them,
  exactly when no chosen column can be spared (`OwnMintermsExactly`, `Gasp.GivesUpExactly`).

Heuristic choices (orders, scores, the best feasible cube) are modelled as the source makes them where the
model needs them, with real numbers for the ratios of the column choice, and otherwise as any choice from the
candidates; nothing that is proved depends on the latter.

## Model

| member | source | states |
|---|---|---|
| Cubes.SfInactive | espresso/set.c:265-281 | the family keeps exactly its active sets, in order |
| CubeSetup.SetUp | espresso/cubestr.c:16-74 | the parts of the variables follow one another without gaps or overlap, two for each binary variable, which come first; each variable has the size asked for |
| CubeSetup.LayoutValid | espresso/cubestr.c:31-56 | the structure so filled satisfies every assumption that the other modules make about it, and every variable that is not binary is sparse |
| SetOps.Cdist01 | espresso/setc.c:102-142 | the number of conflicting variables if it is at most 1, else 2 |
| SetOps.DistanceZero | espresso/setc.c:59-94 | distance 0 is the same as sharing a part in every variable |
| SetOps.OneConflict | espresso/setc.c:102-142 | at distance 1 there is one conflicting variable and no other |
| SetOps.SingleConflict | espresso/setc.c:102-142 | a single conflicting variable means distance 1 |
| SetOps.Consensus | espresso/setc.c:245-287 | common parts, and all parts of both cubes in a conflicting variable |
| SetOps.ForceLower | espresso/setc.c:192-230 | exactly the parts of a in the variables in which a and b conflict are added |
| PackedWords.ConflictBit | espresso/setc.c:107-111 | a bit of the conflict word is set exactly for a binary variable in which the packed cubes conflict, also in the last word, which other parts share |
| PackedWords.WordDistance | espresso/setc.c:149-170 | the ones of that word count the conflicting variables of the word |
| PackedWords.Cdist | espresso/setc.c:149-186 | on packed words the result is the distance of the part sets, for any number of variables of either kind |
| PackedWords.Cdist0 | espresso/setc.c:59-94 | on packed words the result is whether every variable has a common part |
| PackedWords.Cdist01Packed | espresso/setc.c:102-142 | on packed words, with the last binary word tested first and early exits: the distance, or 2 if it exceeds 1 |
| PackedWords.ForceLowerPacked | espresso/setc.c:192-230 | bit by bit, the parts of a in conflicting variables are added and nothing else changes |
| PackedWords.ConsensusPacked | espresso/setc.c:245-287 | the packed result holds exactly the parts of the consensus, although words are first written with parts of other variables |
| PackedActive.FullRowPacked | espresso/setc.c:45-53 | comparing word after word with the full set decides whether p, or-ed with cof, has every part |
| PackedActive.CactivePacked | espresso/setc.c:294-339 | the only variable that is not full, or -1 when there are none or several |
| PackedActive.CCommonPacked | espresso/setc.c:346-390 | two packed cubes share a variable in which neither, or-ed with cof, is full |
| Cofactor.CofactorOf | espresso/cofactor.c:32-92 | the cubes other than c itself that meet c in every variable, and cof grows by what c lacks |
| Cofactor.Scofactor | espresso/cofactor.c:101-134 | the cubes that meet c in the one variable tested |
| Cofactor.MassiveCount | espresso/cofactor.c:136-294 | zeros per column and per variable, active parts, unate flags, the counts of active and unate variables; the variable chosen is the first one preferred by active parts, then zeros, then balance |
| Cofactor.BinateSplitSelect | espresso/cofactor.c:296-323 | the two cubes are full outside the variable and share out its parts that are not in cof, half of them each |
| Recursion.UnateReduction | espresso/irred.c:257-278 | keeping only the cubes full in all unate variables does not change the tautology question |
| Recursion.UnateLeaf | espresso/irred.c:245-248 | a unate list is a tautology exactly when some cube is a full row |
| Recursion.ZeroColumn | espresso/irred.c:231-240 | a column of zeros leaves a minterm uncovered |
| Recursion.SingleActiveVariable | espresso/irred.c:250-253 | one active variable and no zero column: every minterm is covered |
| Recursion.SplitTautology | espresso/irred.c:195-200 | a list is a tautology exactly when both halves of a split are |
| Recursion.SplitShrinks | espresso/irred.c:195-200 | each half has fewer parts outside its cof: the measure of the recursion |
| Recursion.ComponentTautology | espresso/irred.c:280-292 | lists without a common active variable are together a tautology exactly when one of them is |
| Recursion.BinateChoice | espresso/cofactor.c:296-323 | unless the list is unate the variable chosen has two free parts at least |
| Partition.CubelistPartition | espresso/cvrm.c:204-275 | a nonzero result divides the list into two parts with no active variable in common and is the size of the second; 0 means that all cubes are linked to the first one |
| Partition.MarkComponent | espresso/cvrm.c:231-246 | the closure by seed and flags marks exactly what is linked to the first cube |
| Irred.Tautology | espresso/irred.c:185-210 | terminates, and is TRUE exactly when every minterm lies in some p or-ed with cof |
| Irred.TautSpecialCases | espresso/irred.c:216-297 | an answer is right; MAYBE leaves a list, no longer, with the same answer, its counts made |
| Irred.UnateReduce | espresso/irred.c:256-272 | the list keeps exactly its cubes that are full in the unate variables, and loses at least one |
| Irred.CofactorTautology | espresso/irred.c:181-182 | the cofactor against a cube is a tautology exactly when the cube is not void and all its minterms are covered |
| Irred.CubeIsCovered | espresso/irred.c:181-182 | yes exactly when the cube is not void and the other cubes hold all its minterms |
| SortedLists.SortedInsert | espresso/sparse_int.h:23-60 | a sorted list with the value in its place, and whether it was new |
| SortedLists.ListContains | espresso/rows.c:135-152 | the two-pointer scan decides containment of sorted lists |
| SortedLists.ListIntersects | espresso/rows.c:157-178 | the two-pointer scan decides whether sorted lists share an element |
| SparseMatrix.SmMatrix.Insert | espresso/matrix.c:127-172 | one element more; rows and columns stay each other's mirror, sorted, and headers exist exactly for non-empty lists |
| SparseMatrix.SmMatrix.DelRow | espresso/matrix.c:232-261 | exactly row i goes from both views, columns left empty with it; the mutual recursion of the deletions ends |
| SparseMatrix.SmMatrix.DelCol | espresso/matrix.c:263-292 | exactly column i goes from both views, rows left empty with it |
| SparseMatrix.StripIsDropCol | espresso/matrix.c:232-261 | unlinking i along its own list takes it out of the whole other view |
| SparseMatrix.DropMirrored | espresso/matrix.c:232-292 | a row taken out of the rows and out of the columns keeps the two views mirrored |
| SparseMatrix.Dup | espresso/matrix.c:82-98 | a fresh matrix with the same elements |
| Dominance.RowDeleted | espresso/dominate.c:26-36 | without a row that contains another one the covers are the same |
| Dominance.RowDominance | espresso/dominate.c:4-40 | the covers stay the same; when nothing was deleted no row contains another, although only later rows of the least column are compared |
| Dominance.ColumnDeleted | espresso/dominate.c:59-79 | without a dominated column the covers stay covers and the minimum stays |
| Dominance.ColDominance | espresso/dominate.c:42-83 | the matrix is simplified to one with the same minimum; when nothing was deleted no column passes the tests against another |
| Solution.Accept | espresso/solution.c:37-53 | the column is selected and charged, and exactly the rows it covers are deleted |
| Solution.Sol.Add | espresso/solution.c:29-35 | one column more, charged its weight |
| Solution.ChooseBest | espresso/solution.c:62-83 | a cheapest of the two, NIL only if both are |
| Solution.AcceptEssential | espresso/mincov.c:310-347 | selecting the only column of a row keeps the cheapest way to finish |
| Solution.CoverWithout | espresso/solution.c:56-60 | a cover that does not use the rejected column covers what is left |
| Gimpel.FindPrimary | espresso/gimpel.c:33-54 | a row of two columns one of which has one more row, or none exists |
| Gimpel.Rewrite | espresso/gimpel.c:56-74 | primary and secondary row and both columns go, and the rest of the secondary row is merged into the rows of c2 |
| Gimpel.CoverExtends | espresso/gimpel.c:81-89 | c2, or else c1, completes a cover of the reduced matrix |
| Gimpel.CoverShrinks | espresso/gimpel.c:5-15 | every cover yields one of the reduced matrix with a column less |
| Gimpel.MinimumDrops | espresso/gimpel.c:76-79 | the minimum of the reduced matrix is exactly one less |
| Indep.BuildIntersectionMatrix | espresso/indep.c:87-121 | row r lists exactly the rows that meet row r |
| Indep.MaximalIndependentSet | espresso/indep.c:31-85 | pairwise disjoint rows to which no row can be added, and every cover costs at least the sum of their least weights |
| Indep.PaidMore | espresso/indep.c:53-73 | a disjoint row adds its least weight to what every cover pays |
| Blocks.VisitRow | espresso/part.c:16-40 | what is flagged is closed, and never leaves a part of the matrix that is apart from the rest |
| Blocks.VisitCol | espresso/part.c:42-66 | the same for columns |
| Blocks.BlockPartition | espresso/part.c:68-104 | two matrices without a common column that make up the whole, whenever the matrix can be divided at all |
| Reductions.SelectEssential | espresso/mincov.c:310-347 | the cheapest completion is kept; below the bound no row of one column and no row containing another is left |
| Mincov.SelectColumn | espresso/mincov.c:257-308 | a column of the matrix whenever the independent set is not empty, with the best ratio of value and weight among the columns of the independent rows, the first of several; the value adds 1 / (length - 1) over the rows of the column |
| Mincov.Branches | espresso/mincov.c:220-251 | a lower bound with the column and one without it are a lower bound |
| Mincov.BlockCosts | espresso/mincov.c:181-212 | lower bounds of two blocks add up |
| Mincov.RightDecides | espresso/mincov.c:201-212 | the second block, after the first has been solved, decides the whole |
| Mincov.LeftFails | espresso/mincov.c:202-204 | a block without a cover below the budget leaves none for the whole |
| Mincov.GimpelBest | espresso/gimpel.c:76-89 | the solution of the reduced matrix with the chosen column is right for the original one |
| Mincov.GimpelNil | espresso/gimpel.c:76-81 | with bound and lower bound one less, NIL carries over |
| Mincov.GimpelReduce | espresso/gimpel.c:17-96 | if it applies its outcome meets the promise of sm_mincov, otherwise nothing changes |
| Mincov.SmMincov | espresso/mincov.c:104-255 | branching, with a valid lower bound: NIL only if no solution beats the bound, otherwise an optimal one below it; always a completion of the selection, charged right, never NIL when all columns fit the budget, and never with all columns of a matrix in which every row has two |
| Mincov.SparesVia | espresso/mincov.c:120-138 | a column that the reductions left out stays unselected; if they left none, the matrix that remains still has two columns in every row |
| Mincov.AcceptSpares | espresso/mincov.c:216-237 | whichever column a branch accepts, some column stays unselected: one of the rest or, if nothing is left, one beside it in its row |
| Mincov.GimpelSpares | espresso/gimpel.c:81-89 | one of the two columns of the primary row stays unselected |
| Mincov.BoundAndBranch | espresso/mincov.c:138-254 | the same promise for the part after the reductions |
| Mincov.SolveBlocks | espresso/mincov.c:181-213 | the same promise when the matrix is divided |
| Mincov.Branch | espresso/mincov.c:216-252 | the same promise for the two branches, the lowered bound and the early returns |
| Mincov.VerifyCover | espresso/mincov.c:349-360 | true exactly for covers |
| Mincov.SmMinimumCover | espresso/mincov.c:25-93 | always a cover by columns of the matrix, so that verify_cover cannot fail; a cheapest one unless heuristic, and with equal weights also for a single row; not all columns if every row has two |
| Dominance.RowsKeepForced | espresso/mincov.c:323-327 | deleting rows that contain another row keeps every column that is bound to be selected bound |
| Reductions.NoneForced | espresso/mincov.c:310-347 | once no row has a single column and no dominated column is left, no column is bound to be selected |
| Mincov.RunVia | espresso/mincov.c:25-93 | what holds after the reductions holds before them: the columns bound to be selected are selected; in heuristic mode, where three columns in every row rule out the other reductions, a column of best ratio among disjoint rows is selected, and then all columns bound to be selected in what it leaves |
| Dominance.SingleRow | espresso/dominate.c:42-83 | once no column of a single row is dominated, the row has one column |
| CoveringTable.FTautology | espresso/irred.c:305-333 | the rows added are hit by a selection exactly when it has the current cube or makes the list a tautology |
| CoveringTable.FTautSpecialCases | espresso/irred.c:335-401 | a leaf adds one row with that meaning; MAYBE adds none and leaves a list with the same demand |
| CoveringTable.LeafDemand | espresso/irred.c:357-371 | the row of a unate leaf: the current cube and the redundant cubes that are full rows |
| CoveringTable.DemandSplit | espresso/irred.c:319-322 | the rows of both halves together make the demand of the whole |
| CoveringTable.DemandOfCube | espresso/irred.c:155-158 | with the earlier cubes taken as not redundant, the rows for a cube ask exactly that it be covered too |
| CoveringTable.ExactDominance | espresso/irred.c:165-167 | row dominance in between keeps the table exact |
| CoveringTable.IrredDeriveTable | espresso/irred.c:137-178 | a selection hits every row exactly when D, E and the selected cubes hold every minterm of the partially redundant cubes |
| Redundancy.IrredSplitCover | espresso/irred.c:76-129 | E, Rt and Rp hold exactly the cubes not covered by the others, those covered by D and E, and the rest |
| Redundancy.SplitCovers | espresso/irred.c:76-178 | D, E and a selection that hits the table hold all of F |
| Redundancy.MarkIrredundant | espresso/irred.c:26-66 | exactly the relatively essential cubes and those chosen by a column cover of the table are left active, and with D they hold what F and D held |
| Redundancy.OwnMintermsExactly | espresso/irred.c:36-55 | every cube left has a minterm of its own exactly when no column of the cover can be spared |
| Redundancy.NothingToChoose | espresso/irred.c:26-66 | if every redundant cube is held by D and the cubes that are not redundant, no column is chosen and no cube left can be spared |
| RedundantCube.SpareColumn | espresso/mincov.c:25-93 | on this table of six rows, whatever heuristic run it is, some chosen column could have been spared |
| RedundantCube.SpareCube | espresso/irred.c:26-66 | whatever run irredundant makes on these seven cubes, some cube left is held by the others, and has no minterm of its own for reduce_gasp |
| RedundantCube.RedundantCubeLeft | espresso/irred.c:16-20 | irredundant on the seven cubes keeps the union and leaves a cube that the others hold |
| Redundancy.TableThick | espresso/irred.c:137-178 | every row of the table has two columns at least |
| Redundancy.NothingDropped | espresso/irred.c:26-66 | if no cube is dropped there was none to choose: all of them are relatively essential |
| Redundancy.Irredundant | espresso/irred.c:16-20 | exactly the cubes left active, with the same union up to D |
| Containment.HigherTotal | espresso/setc.c:475-498 | of two different sets exactly one comes first in the order by which families are sorted |
| Containment.RmEqual | espresso/contain.c:166-180 | of a sorted array one set of each kind is kept, in strictly descending order |
| Containment.RmContain | espresso/contain.c:182-206 | of a strictly descending array exactly an antichain is kept that contains every set, although each set is only compared with the kept ones that are larger |
| Containment.SfContain | espresso/contain.c:25-37 | a subset in which no cube contains another, that still contains every cube, in descending order with the SIZE fields set |
| Containment.SfUnion | espresso/contain.c:102-115 | for any two families the result has cubes of theirs only, none more often than before, and every cube lies in one of it; two families as sf_contain leaves them give such a family |
| Containment.Rm2Equal | espresso/contain.c:235-265 | the walk of two pointers drops no cube and adds none; for families as sf_contain leaves them the three lists are in order and have no cube in common |
| Containment.Rm2Contain | espresso/contain.c:268-288 | a cube is only dropped when it lies in a larger one of the other family; for families as sf_contain leaves them exactly those are dropped |
| Containment.SfMerge | espresso/contain.c:358-411 | three lists become one with the same members, sorted if they were |
| Containment.SfDupl | espresso/contain.c:82-93 | one cube for each set of parts |
| Containment.Flush | espresso/primes.c:119-136 | a full buffer is contained and merged into the cubes saved before: every cube still lies in one of the result |
| Primes.PrimesConsensus | espresso/primes.c:11-32 | only implicants, and every implicant lies in one of them; when no variable has more than two parts no cube contains another; for one and two cubes also what exactly the run finds |
| Primes.PrimesSpecialCases | espresso/primes.c:34-104 | the same for each special case; MAYBE leaves the list alone |
| Primes.PrimesConsensusMerge | espresso/primes.c:106-138 | the same for the merge of two halves |
| Primes.MergeHalves | espresso/primes.c:106-138 | all cubes of both halves and all their distance-1 consensus lie within the result, which holds nothing else, with the buffer emptied whenever it is full |
| Primes.AndWithCofactor | espresso/primes.c:140-154 | exactly the intersections with the cofactor cube that are not void |
| Primes.UnateImplicant | espresso/primes.c:93-98 | in a unate list every implicant lies in a single cube |
| Primes.ZeroColumnGenerates | espresso/primes.c:65-82 | factoring out the zero columns loses no implicant |
| Primes.ConsensusHolds | espresso/primes.c:106-138 | the consensus at distance 1 holds only minterms of the two cubes |
| Primes.ConsensusContains | espresso/primes.c:106-138 | and contains every cube whose halves they contain |
| Primes.MergedContains | espresso/primes.c:106-138 | every implicant of the whole lies within a merged cube |
| Primes.SplitRun | espresso/primes.c:19-31 | two cubes that conflict only in the binary variable they are split on yield their consensus |
| Primes.FactoredRun | espresso/primes.c:65-82 | and, behind factored zero columns, that consensus cut down to the columns left |
| Primes.AllPrimesFound | espresso/primes.c:11-32 | every prime implicant of F is in the result |
| Primes.ExactlyThePrimes | espresso/primes.c:11-32 | if the variables of more than two parts are full in every cube, the result is exactly the set of primes |
| Primes.PrimesNonVoid | espresso/primes.c:65-82 | no void cube is generated if no input cube is void and every part of a wide variable is used |
| ExactMinimization.DoMinimize | espresso/exact.c:25-92 | a cover of F up to D by generated implicants; with exact_cover its nonvoid cubes are a minimum over all covers by implicants, or, weighted, it has fewest literals among selections of generated implicants |
| ExactMinimization.SelectionOf | espresso/exact.c:48-71 | every cover by implicants yields a selection of generated ones with no more cubes |
| ExactMinimization.EssentialSelected | espresso/exact.c:51-53 | every selection holds the relatively essential cubes |
| ExactMinimization.CheapestSelection | espresso/exact.c:51-85 | essential cubes and a minimum cover of the table cost no more than any selection, for any weights |
| ExactMinimization.ResultMinimum | espresso/exact.c:80-85 | no cover by implicants has fewer cubes than the nonvoid ones of the result |
| ExactMinimization.MinimumIffNonVoid | espresso/exact.c:80-85 | the result is minimum exactly when it holds no void cube |
| ExactMinimization.VoidCubesKept | espresso/exact.c:51-53 | a void cube is never found covered, so it is kept as essential |
| ExactMinimization.MinimumGuaranteed | espresso/exact.c:48-85 | minimum if no cube of F and D is void and every part of a wide variable is used |
| ExactMinimization.ExampleChoice | espresso/cofactor.c:236-290 | for the two cubes {0,2} and {1,3} with part 4 factored out, the ties make the binary variable the one to split on |
| ExactMinimization.SingleCubeExactly | espresso/exact.c:48-85 | with one cube in F and D the result is minimum exactly when that cube is not void |
| ExactMinimization.NotMinimumExample | espresso/exact.c:48-85 | whatever run prime generation and do_minimize make on these cubes, it generates the void cube {0,1}, and the result is not minimum |
| ExactMinimization.LiteralWeight | espresso/exact.c:59-66 | the zeros outside the output variable and the ones in it |
| ExactMinimization.ResultPrime | espresso/exact.c:48-85 | if the variables of more than two parts are full in every cube, the result consists of primes |
| ExactMinimization.MinimizeExact | espresso/exact.c:17-102 | always a cover by implicants; with make_sparse and all wide variables sparse it is a minimum cover without any condition on what was generated, and misses the OFF-set; without make_sparse it is as do_minimize leaves it |
| ExactMinimization.OrthogonalImplicant | espresso/exact.c:94-98 | what misses the complement of F and D is an implicant |
| ReducePass.Cactive | espresso/setc.c:294-339 | the only variable that is not full, or -1 |
| ReducePass.ScccCube | espresso/reduce.c:148-159 | in the only active variable of the cube its parts go, otherwise nothing changes |
| ReducePass.Sccc | espresso/reduce.c:97-120 | on the domain, exactly the smallest cube that holds every minterm the list misses |
| ReducePass.ScccSpecialCases | espresso/reduce.c:165-242 | the same for each special case |
| ReducePass.OneZeroColumn | espresso/reduce.c:201-216 | zero columns in one variable: the factored result is right |
| ReducePass.ManyZeroColumns | espresso/reduce.c:206-209 | zero columns in several variables: everything is missed |
| ReducePass.ComponentsSmallest | espresso/reduce.c:226-237 | for separate components the results intersect |
| ReducePass.SplitSmallest | espresso/reduce.c:122-133 | for two halves the restricted results unite |
| ReducePass.ReduceCube | espresso/reduce.c:88-94 | part i stays exactly when some minterm of p through i lies in no other cube |
| ReducePass.ReductionSmallest | espresso/reduce.c:87-94 | the reduction lies in every cube that holds these minterms, and is empty exactly when there are none |
| ReducePass.ReductionKeeps | espresso/reduce.c:72 | replacing a cube by its reduction keeps every minterm of the union |
| ReducePass.ReduceAll | espresso/reduce.c:60-80 | every cube is reduced against those reduced before it and those still to come, and F with D holds the same minterms |
| ReducePass.Reduce | espresso/reduce.c:47-85 | the same union up to D, every cube within an old one, empty ones deleted |
| Compl.Complement | espresso/compl.c:45-82 | unless the column choice for a unate leaf gives up, on the domain the result holds a minterm exactly when the list does not; it cannot give up with at most 1025 variables |
| Compl.Simplify | espresso/compl.c:548-590 | on the domain the result holds exactly what the list holds, and no cube of it is void there |
| Compl.SimpComp | espresso/compl.c:410-456 | both at once, with the same failure |
| Compl.ComplMerge | espresso/compl.c:167-252 | for either lifting, the merge of the results for two halves is the result for the whole |
| Compl.D1Merge | espresso/compl.c:364-383 | over the sorted arrays, a cube of the left list takes over the parts of exactly the right cubes equal to it outside the variable, which are marked, as two pointers find them; no other cube changes |
| Compl.MergedPair | espresso/compl.c:364-383 | the union of two cubes equal outside one variable holds exactly their minterms |
| Compl.ComplLift | espresso/compl.c:260-286 | a lift contained in a cube of the other branch adds only wanted minterms |
| Compl.ComplLiftOnset | espresso/compl.c:294-320 | a lift that meets no ON-set cube adds only minterms of the complement |
| Compl.ComplCube | espresso/compl.c:386-407 | De Morgan for a single cube |
| Compl.UnateLeafCompl | espresso/compl.c:137-144 | the complement of a unate list by way of the unate matrix, unless that gives up |
| Compl.MapCoverToUnate | espresso/unate.c:12-51 | row k holds the columns with zeros that cube k lacks |
| Compl.MapUnateToCover | espresso/unate.c:53-100 | in each unate variable of the set only the unate part is left |
| Compl.ListMisses | espresso/unate.c:12-51 | the list misses a minterm exactly when the columns it uses meet every row |
| Compl.CubeUses | espresso/unate.c:53-100 | the cube made from a set holds a minterm exactly when it uses all columns of the set |
| Compl.FactoredComplement | espresso/compl.c:114-125 | the complement with zero columns factored out |
| Compl.ComplementOfCover | espresso/compl.c:410-456 | at the top level the two results divide the space |
| Unate.UnateComplement | espresso/unate.c:130-213 | every set of the result meets all rows, and every set that meets all rows contains one of them; it can only give up if some row has more than 1025 columns |
| Unate.SplitTransversals | espresso/unate.c:185-207 | splitting on a column gives all transversals |
| Unate.EssentialTransversals | espresso/unate.c:177-183 | columns alone in a row belong to every transversal |
| Unate.SelectRestricted | espresso/unate.c:409-433 | a column of greatest weight among the smallest rows; the failure -1 happens exactly when these have more than 1025 columns |
| Unate.UnateCompl | espresso/unate.c:106-124 | exactly the minimal sets that meet every set of A, each once, unless some row has more than 1025 columns and the column choice gives up |
| Unate.SfRevContain | espresso/contain.c:44-56 | a subset without containment, in which every set of the family contains one, in order of size |
| Unate.UnateIntersect | espresso/unate.c:294-353 | the maximal nonempty pairwise intersections, each once, or with largest_only exactly those of the largest size, with the buffer of 500 sets emptied whenever it is full |
| Unate.IntersectionStands | espresso/unate.c:224-270 | so two families that stand for some rows give one that stands for the rows of both |
| Unate.IntersectAll | espresso/unate.c:236-273 | the leveled intersection of all sets, with never more than 32 slots in use |
| Unate.Depth | espresso/unate.c:224-270 | d slots below level m stand for at least (2^d - 1) 2^(lev - m) sets |
| Unate.RoomOnStack | espresso/unate.c:224-270 | so one more slot is free while fewer than 2^31 sets have been pushed |
| Unate.ComplementMinimal | espresso/unate.c:273-284 | the complements of the maximal sets are the minimal transversals but the set of all columns |
| Unate.ExactMinimumCover | espresso/unate.c:215-284 | the minimal transversals other than the set of all columns, each once, and none without a row; all of them exactly when there is a row and not every column is alone in a row, with no row empty |
| Unate.AllColumnsMinimal | espresso/unate.c:314 | the set of all columns is a minimal transversal exactly when no row is empty and every column is alone in some row |
| Unate.CompleteExactly | espresso/unate.c:215-284 | a family as returned is complete exactly under that condition |
| Unate.FamiliesAgree | espresso/unate.c:106-124 | it has the same sets as the family of unate_compl exactly under that condition |
| Unate.UnusedColumn | espresso/unate.c:215-284 | with a row, and a column in no row, the two families are the same |
| Unate.AllColumnsLost | espresso/unate.c:314 | on the single row {0} of one column unate_compl has {0} and exact_minimum_cover nothing |
| Unate.NoRowLost | espresso/unate.c:236-284 | without a row unate_compl has the empty set and exact_minimum_cover nothing |
| Sharp.Dsharp | espresso/sharp.c:139-176 | pairwise disjoint cubes that hold exactly the minterms of a outside b |
| Sharp.Cb1Dsharp | espresso/sharp.c:106-115 | exactly what a disjoint cover holds outside a cube, disjoint again |
| Sharp.CbDsharp | espresso/sharp.c:118-136 | exactly what a cube holds outside a cover, as disjoint cubes |
| Sharp.MakeDisjoint | espresso/sharp.c:81-92 | pairwise disjoint cubes with the same union, also where sf_union is given families that are not sorted |
| Sharp.CvDsharp | espresso/sharp.c:95-103 | exactly what A holds outside B |
| Sharp.SharpCubes | espresso/sharp.c:61-79 | exactly what a holds outside b |
| Sharp.CbRecurSharp | espresso/sharp.c:35-58 | exactly what a cube holds outside the cubes first to last |
| Sharp.CbSharp | espresso/sharp.c:22-32 | exactly what a cube holds outside a cover |
| Sharp.CvSharp | espresso/sharp.c:11-19 | exactly what A holds outside B |
| Sharp.CvIntersect | espresso/sharp.c:182-214 | exactly the minterms in both covers, with containment whenever 500 cubes have been saved |
| Unravel.CbUnravel | espresso/cvrm.c:12-61 | row r of the new rows is the base with the parts of choice number r, and there are as many rows as the product of the sizes |
| Unravel.InsertPart | espresso/cvrm.c:48-58 | the two inner loops insert part i in exactly the rows whose choice picks it |
| Unravel.ChoiceNumber | espresso/cvrm.c:42-60 | every choice of one part per unravelled variable has a number below the product |
| Unravel.ChoiceUnique | espresso/cvrm.c:42-60 | and only one |
| Unravel.UnravelFrom | espresso/cvrm.c:63-97 | the result holds the rows of every cube and no others |
| Unravel.HittingTakesAll | espresso/expand.c:647-651 | a set that hits all rows of a cube has all its parts in some unravelled variable, or one of its parts elsewhere |
| Unravel.RowOf | espresso/cvrm.c:12-61 | every minterm of the cube lies in a row |
| Unravel.RowNonVoid | espresso/cvrm.c:12-61 | rows of a nonvoid cube are nonvoid and lie in it |
| Unravel.DoSmMinimumCover | espresso/sminterf.c:4-29 | a set of elements of the family that hits every nonempty set of it, and a single element for a single nonempty set |
| ExpandPass.EssenParts | espresso/expand.c:197-260 | afterwards active OFF-set cubes are at distance 2 or more and meet the overexpanded cube, inactive ones miss it; distance 0 cannot occur |
| ExpandPass.ElimLowering | espresso/expand.c:296-357 | exactly the blocking cubes that meet RAISE or-ed with FREESET and the covering cubes inside it stay active |
| ExpandPass.EssenRaising | espresso/expand.c:270-285 | raising what no active blocking cube has changes no distance |
| ExpandPass.LoweredBlocked | espresso/expand.c:184-195 | no cube above RAISE that misses the OFF-set has a part that was lowered |
| ExpandPass.FeasiblyCovered | espresso/expand.c:541-593 | yes: raising the cube keeps the OFF-set at distance 1 or more; no: some OFF-set cube meets every cube above both |
| ExpandPass.SelectFeasible | espresso/expand.c:428-531 | terminates; cubes newly covered lie in RAISE, and no cube left active can ever be covered |
| ExpandPass.MostFrequent | espresso/expand.c:367-392 | a free part that most active cubes have; -1 exactly when no part is free |
| ExpandPass.FreeForCovering | espresso/expand.c:166-172 | some part is free while a covering cube is active, so -1 is never inserted |
| ExpandPass.MinCov | espresso/expand.c:604-669 | either everything is decided and the raised cube misses the OFF-set, or one more part was raised, for any OFF-set with at most 500 void cubes |
| ExpandPass.FreeLeft | espresso/expand.c:631-668 | with at most 500 void OFF-set cubes a part is free whenever the sets to lower are too many |
| ExpandPass.StallsExactly | espresso/expand.c:631-668 | with no part free, all active OFF-set cubes are void, and the sets to lower are too many exactly when these are more than 500 |
| ExpandPass.VoidCubesStall | espresso/expand.c:631-668 | more than 500 void OFF-set cubes and the full cube: too many sets and no free part |
| ExpandPass.CoverClears | espresso/expand.c:647-653 | raising all free parts outside a cover of the unravelled sets keeps clear of the whole OFF-set |
| ExpandPass.CoversSafeExactly | espresso/expand.c:647-651 | every cover is safe for an OFF-set cube exactly when the raised cube has a part of each binary variable in which that cube is full |
| ExpandPass.BinaryPairFails | espresso/expand.c:647-651 | otherwise a cover exists that lets the raised cube meet it |
| ExpandPass.MinCovVoid | espresso/expand.c:604-669 | a cube void in every variable in which it conflicts with the one OFF-set cube, all of them full there: with the cover that the solver returns it is raised into that cube |
| ExpandPass.VoidCubeExpanded | espresso/expand.c:604-669 | such a run: the cube {4} and the OFF-set cube {0,1,2,3,4} of three binary variables |
| ExpandPass.Expand1 | espresso/expand.c:123-182 | terminates with a cube that contains the given one and misses the whole OFF-set; newly covered cubes lie in it; the cube may be void in a wide variable, and up to 500 OFF-set cubes void |
| ExpandPass.Expand | espresso/expand.c:42-118 | every old cube lies in a new one, all of which are marked prime and miss the OFF-set; there are no more cubes, and without the sparse variables no more literals |
| Ordering.MiniSort | espresso/cvrm.c:116-143 | a permutation ordered by the inner products with the column sums |
| Ordering.SortReduce | espresso/cvrm.c:146-168 | a permutation ordered by nearness to a largest cube, then size |
| CoverCost.CoverCostOf | espresso/cvrmisc.c:5-41 | cost.total, computed from column counts, is the number of literals summed over the cubes |
| CoverCost.CountBothWays | espresso/cvrmisc.c:5-41 | literals counted by variables and counted by cubes agree |
| CoverCost.TotalPermuted | espresso/cvrmisc.c:5-41 | the order of the cubes does not matter |
| CoverCost.CubeNoDearer | espresso/cvrmisc.c:5-41 | raising binary parts or dropping sparse ones adds no literal |
| Sparse.MvReducePart | espresso/sparse.c:64-114 | removing one part where its slice is redundant keeps the union with D |
| Sparse.MvReduce | espresso/sparse.c:50-135 | the same union with D, no more literals, and no cube void in a sparse variable |
| Sparse.MakeSparse | espresso/sparse.c:15-34 | terminates; no cube of the result meets the OFF-set, with D it holds what F held, and has no more literals; if F had no void cube, or all wide variables are sparse, neither has the result |
| Sparse.MvReducedOnSet | espresso/sparse.c:118-134 | if F had no void cube, or all wide variables are sparse, no void cube is left |
| Gasp.ReduceGasp | espresso/gasp.c:32-60 | every cube replaced by its maximal reduction in F and D; it gives up exactly when some cube has no minterm of its own |
| Gasp.EssentialEither | espresso/gasp.c:143-153 | what c2 alone holds once c1 is reduced lies in c1 or in the reduction of c2 |
| Gasp.EssentialStaysInside | espresso/gasp.c:143-158 | so c2essential lies in the overexpanded cube |
| Gasp.AddedOnCube | espresso/gasp.c:157-161 | so the cube added misses every OFF-set cube, although only active ones are tested |
| Gasp.Expand1Gasp | espresso/gasp.c:91-171 | only cubes that miss the OFF-set are added |
| Gasp.ExpandGasp | espresso/gasp.c:70-86 | the new cubes miss the OFF-set |
| Gasp.IrredGasp | espresso/gasp.c:174-181 | with D the result holds what F held, and misses the OFF-set |
| Gasp.GivesUpExactly | espresso/gasp.c:32-60 | on what irredundant left, it gives up exactly when a chosen column could have been spared |
| Gasp.LastGasp | espresso/gasp.c:184-194 | the same for the whole pass; it gives up, changing nothing, exactly when some cube has no minterm of its own |
| SuperGasp.FindAllPrimes | espresso/expand.c:675-701 | cubes flagged prime that miss the OFF-set: all primes within RAISE or-ed with FREESET if an OFF-set cube is active, else RAISE itself; it gives up where unravel does |
| SuperGasp.FoundTight | espresso/expand.c:684-699 | no cube of a transversal can be raised by a free part, unless a lowered part of an OFF-set cube is in the way |
| SuperGasp.PrimesOfCube | espresso/expand.c:721-729 | cubes flagged prime that contain the given one and miss the OFF-set, all primes above it exactly under the condition of the next row |
| SuperGasp.AllFoundExactly | espresso/expand.c:682-687 | all primes above a cube are found exactly when an OFF-set cube meets the overexpanded cube, or that is the cube itself |
| SuperGasp.OnlyPrime | espresso/expand.c:682-687 | with no OFF-set cube in the way the overexpanded cube is the only prime |
| SuperGasp.PrimeMissed | espresso/expand.c:682-687 | the run above {0,2} with the OFF-set cube {1,2,3}: {0,2} is returned, flagged prime, and the prime {0,2,3} is missed |
| SuperGasp.AllPrimes | espresso/expand.c:708-737 | for every cube of F, itself if flagged prime or else what was found above it; everything misses the OFF-set |
| SuperGasp.SuperGasp | espresso/gasp.c:196-208 | with D the result holds what F held, and misses the OFF-set, unless the pass gives up |
| EssentialPass.Essential | espresso/essen.c:28-60 | every cube of F stays or is moved to E, whatever the test says, and D grows by E |
| EssentialPass.EssentialKeeps | espresso/essen.c:28-60 | so F, up to the larger D, loses no minterm |
| Espresso.InnerLoop | espresso/espresso.c:79-85 | terminates, because it repeats only while the number of cubes drops; F misses R and with D holds the original; irredundant dropped nothing last, and every cube has a minterm of its own |
| Espresso.Recompute | espresso/espresso.c:52-57 | recompute_onset keeps all minterms, and brings in no void cube and none that meets R |
| Espresso.OuterLoop | espresso/espresso.c:77-98 | the same for the loop around it, with either pass at its end; with super_gasp as many rounds as there are cubes are enough, and with last_gasp it never gives up |
| Espresso.Unwrap | espresso/espresso.c:59-62 | unravelling the last variable keeps all minterms and misses R |
| Espresso.OneRun | espresso/espresso.c:48-112 | the same for a run from the label to the check of the size, for all settings of recompute_onset, unwrap_onset, remove_essential, single_expand, use_super_gasp, skip_make_sparse and force_irredundant |
| Espresso.Espresso | espresso/espresso.c:42-129 | a result that is returned misses the OFF-set, with D1 holds the original F, and has no more cubes; without super_gasp it never gives up |
| Espresso.Verify | espresso/verify.c:11-41 | an error exactly when some cube of one cover is void or not held by the other and D |
| Espresso.ResultVerifies | espresso/verify.c:11-41 | with F, D and R a partition of the space, what espresso promises passes |
| Espresso.VerifiedMeans | espresso/verify.c:11-41 | no error means that F and Fold are equal up to D |
| Commands.VoidCubesReported | espresso/verify.c:11-41 | for a cover that misses the OFF-set and keeps the ON-set given, verify passes exactly when no cube of either is void |
| Commands.RunEspresso | espresso/main.c:201-212 | with F, D and R a partition of the space, verify never reports an error on what espresso returns; the union up to D is the same, with no more cubes; without super_gasp it never gives up |
| Commands.ImplicantsVerify | espresso/main.c:286-293 | a cover by implicants passes verify exactly when none of its cubes is void |
| Commands.RunExact | espresso/main.c:283-294 | verify reports an error exactly when the result of minimize_exact has a void cube, and the original cover is put back; otherwise the union is the same and, with exact_cover, no cover by implicants is smaller; with make_sparse and all wide variables sparse there is no error |

## Left out

- Espresso.Espresso: rounds of the outer loop and restarts are cut off by a fuel parameter (result `OutOfFuel`), because with last_gasp the cost compared at the end of a round may rise again in the next inner loop; nothing is claimed about such a run.
- Espresso.OuterLoop: bounded by the same fuel, which is enough with super_gasp; with super_gasp unravel may give up.
- ExactMinimization.MinimumGuaranteed: a condition on F and D that suffices; the exact one (`MinimumIffNonVoid`) is about the generated cubes, and only for a single cube is it given in F and D (`SingleCubeExactly`).
- ExactMinimization.MinimizeExact: that the result is minimum is claimed with make_sparse only where all wide variables are sparse, as cube_setup leaves them; raise_in does not remove void cubes of the paired variables.
- ExpandPass.Expand1: does not claim that the raised cube is prime, because the cover used by mincov is heuristic and may be redundant.
- ExpandPass.Expand: requires cubes of F that are not void in a binary variable, because others may be raised into the OFF-set (`CoversSafeExactly`, `MinCovVoid`), and at most 500 void cubes in the OFF-set, because more may stop mincov from ending (`VoidCubesStall`).
- Redundancy.NothingToChoose: a condition on F and D that suffices; the exact one (`OwnMintermsExactly`) is about the columns chosen.
- Commands.RunEspresso: requires an ON-set without void cubes, which expand needs (see ExpandPass.Expand); for a cover however made, `VoidCubesReported` says when verify reports an error.
- EssentialPass.Essential: essen_cube is carried out, but nothing is claimed about its answer.
- Unate.ExactMinimumCover: for at most 2147483647 sets, the range of the counter; the lexicographic order of its result is not modelled.
- SuperGasp.FindAllPrimes: gives up where the sizes of unravelled sets exceed the range of the source's integers, which the source does not test.
- SuperGasp.AllFoundExactly: for an OFF-set without void cubes; with them the cubes found still miss the OFF-set.
- Primes.ExactlyThePrimes: only where wide variables are full in every cube; otherwise a zero column in one may leave a cube that is not prime.
- Mincov.SelectColumn: the ratio is over real numbers, without the rounding of floating point.
- Ordering.MiniSort: ties are broken arbitrarily, as by the library sort; sort keys are computed and not stored in the SIZE field; random_order is left out.
- Compl.D1Merge: the order among cubes that differ only in the merged variable is arbitrary.
- SparseMatrix.SmMatrix.Insert: rows and columns are sorted lists in maps; the pointers of the linked elements, the header arrays and their growth are not modelled.
- Integer widths: counts and costs are unbounded; the clamp of the size at 127 in sort_reduce and the bounds named above are kept.
- The flags and marks that only order or skip work (NONESSEN, RELESSEN, PRIME, COVERED) are kept, but what is proved of espresso does not depend on them; all_primes passes over cubes flagged PRIME.
- cdata is returned as a value instead of being a global record.
- Bit pairing: that paired variables are not sparse is allowed for, but pair.c itself is not part of this model.
- sf_ind_contain, dist_merge and d1_rm_equal: variants of the containment routines that the modelled passes do not need.
- PLA input and output, options, check_consistency, output phase assignment, symbolic covers, statistics, timing and debug output.
- nova, jedi, sred and the other programs of the repository: annealing, file and shell plumbing, line parsing.
