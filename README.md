# Binary constraint satisfaction by backtracking, and the n-queens instance

This project models two things:

- The generic engine of `csp.py`. It works on a constraint graph (`GrafoRestriccion`), which holds three things:
  - the current candidate values of each variable;
  - each variable's neighbour set;
  - a counter of exhausted search frames.

  The engine's search (`asignacion_grafo_restriccion`) grows a partial assignment one variable at a time. For each step it:
  1. picks the variable (`selecciona_variable`);
  2. orders its values (`ordena_valores`);
  3. asks a consistency level (`consistencia`) for a reduction, that is, the values to strike from the neighbours' candidate lists;
  4. removes those values in place, recurses, and appends them back.
- The n-queens instance of `nreinasCSP.py` (`Nreinas`). Row `i` is a variable and its value is a column. Every row neighbours every other row. Two queens are compatible when they share neither a column nor a diagonal.

Module `Domains` (`domains.dfy`) covers what happens to one variable's candidate list: list removal, the per-neighbour reduction of forward checking, and the insertion step of the value sort. Module `Csp` (`csp.dfy`) covers the rest of the engine:
- the graph is a class whose fields the search updates;
- the partial assignment is a class holding one map, which the search assigns and deletes in place;
- the constraint is a function injected when the graph is created.

Module `NQueens` (`nqueens.dfy`) covers the instance.

Candidate lists are sequences, so the model keeps Python list semantics: `remove` drops the first occurrence and `+=` appends. Because of that, restoration is stated per variable as equality of contents with multiplicities (`SameContents`), not of order. The search, the two consistency levels and the heuristics are methods with loops. Each method is proved against a ghost specification function or predicate:
- `ForwardReduction` and `Wipeout` specify forward checking;
- `ClashesWithAssigned` specifies the level-0 check;
- `ConflictCount` specifies the conflict counts;
- `Pruned` and `Restored` specify how the candidate lists change.

Level 2 (arc consistency) exists in the source only as a `raise NotImplementedError`. It is modelled as the `NotImplemented` outcome of `Result`. No state changes before it is raised.

Validity of a returned assignment holds from a "sound start" (`SoundStart`):
- the instance is symmetric;
- the partial assignment is consistent;
- at level 1, the candidate lists of its unassigned neighbours are already pruned against it.

On a symmetric instance at levels 0 and 1, an empty partial assignment is a sound start (`EmptyStartSound`). So there `Solve`, and `SolveQueens` with it, return only solutions.

The search is also complete at levels 0 and 1, with no symmetry needed. It reports failure only when no solution extends the partial assignment with values from the candidate lists (`HasCompletion`). Each way a branch can be cut off loses no solution:
- a level-0 clash (`CompletionAvoidsClash`);
- a level-1 wipe-out (`CompletionAvoidsWipeout`);
- the pruning itself (`PrunedKeepsCompletion`);
- running out of values (`CompletionPicksValue`).

So on the queens board the search at levels 0 and 1 finds a placement exactly when one exists, and it finds one for four queens.

## Model

| member | source | states |
|---|---|---|
| Domains.RemoveFirst | csp.py:87 | list.remove takes exactly one occurrence of the value out of the list: contents minus that value, length one less |
| Domains.Incompatible | csp.py:135-138 | the list forward checking builds for one neighbour is never longer than the neighbour's candidate list |
| Domains.IncompatibleMultiplicity | csp.py:136-138 | a value the constraint rejects occurs in the reduction exactly as often as in the candidate list; an accepted value does not occur in it |
| Domains.IncompatibleWithin | csp.py:136-138 | a neighbour's reduction is a sub-multiset of its candidate list, so every remove at line 87 finds its value |
| Domains.SurvivorsAccepted | csp.py:136-138 | after the reduction is removed, a value remains exactly when it was a candidate and the constraint accepts it |
| Domains.WipeoutIffAllRejected | csp.py:139-140 | the reduction has the length of the whole list exactly when the constraint rejects every value in the list |
| Domains.InsertByKey | csp.py:121 | inserting a value into the sorted list adds exactly that value to its contents |
| Domains.InsertKeepsSorted | csp.py:121 | inserting into a list sorted by non-increasing key keeps it sorted |
| Csp.ConstraintGraph.constructor | csp.py:28-35 | a new graph has no variables, no neighbours, a zero counter, and the given constraint |
| Csp.Assignment.constructor | csp.py:55 | a new partial assignment is empty |
| Csp.SumIncompatibleSplit | csp.py:115-119 | the conflict total does not depend on the order in which the neighbour set is traversed |
| Csp.SumIncompatibleZero | csp.py:113-120 | the conflict total is zero exactly when every neighbour's reduction is empty |
| Csp.NoConflictsIffAllAccepted | csp.py:113-120 | for an unassigned variable, a value has zero conflicts exactly when every neighbour, assigned or not, accepts all of its values |
| Csp.Conflicts | csp.py:113-120 | the accumulated count equals the conflict count: zero when xi is assigned (the test is on xi), otherwise the number of (neighbour, value) pairs that reject xi = vi, over assigned neighbours too |
| Csp.CountRejected | csp.py:117-119 | the inner count equals the number of the neighbour's values that reject xi = vi |
| Csp.SelectVariable | csp.py:105-109 | returns an unassigned variable. With nothing assigned, no variable's neighbour set strictly contains the chosen one's (max keyed by sets). Otherwise no unassigned variable has fewer remaining values |
| Csp.MaximalNeighbors | csp.py:107 | the pairwise max over set keys ends at a variable whose neighbour set no other variable's strictly contains |
| Csp.FewestValues | csp.py:108-109 | the min over unassigned variables ends at one with the fewest remaining values |
| Csp.OrderValues | csp.py:112-121 | the result is a permutation of xi's candidate list, ordered by non-increasing conflict count |
| Csp.CheckAssigned | csp.py:125-129 | level 0 returns no reduction exactly when some assigned neighbour rejects xi = vi; otherwise it returns the empty reduction |
| Csp.ForwardCheck | csp.py:131-141 | level 1 returns no reduction exactly when some unassigned neighbour would lose all its values. Otherwise it returns, for each unassigned neighbour and no other variable, exactly that neighbour's rejected values in list order |
| Csp.Rejected | csp.py:135-138 | the list built by appends is exactly the neighbour's rejected values, in order |
| Csp.Consistency | csp.py:124-147 | dispatch on the level: level 0 as CheckAssigned, level 1 as ForwardCheck, level 2 raises, any other level gives None |
| Csp.ForwardReductionWithin | csp.py:131-141 | every list in a forward-checking reduction is a sub-multiset of that neighbour's current candidates |
| Csp.WipeoutMeansNoSupport | csp.py:139-140 | a wipe-out happens exactly when some unassigned neighbour has no value compatible with xi = vi |
| Csp.RemoveReduction | csp.py:85-87 | after the removals each listed variable holds its old contents minus the listed values; every other variable is unchanged |
| Csp.RemoveValues | csp.py:86-87 | removing one variable's listed values one at a time leaves its old contents minus those values and touches no other variable |
| Csp.RestoreReduction | csp.py:95-96 | each listed variable's list becomes the old list with the reduction appended; every other variable is unchanged |
| Csp.RestoreContents | csp.py:84-98 | remove, then a deeper search that preserves contents, then re-append gives back the starting contents of every variable |
| Csp.ForwardCheckedSameContents | csp.py:95-96 | the forward-checking invariant depends only on the contents of the candidate lists, not on their order after re-appending |
| Csp.CheckedStepConsistent | csp.py:82-88 | at level 0, assigning a value that clashes with no assigned neighbour keeps the assignment consistent on a symmetric instance |
| Csp.ForwardStepSound | csp.py:82-88 | at level 1, assigning a candidate value and removing its reduction keeps the assignment consistent and the remaining candidates of unassigned neighbours compatible with it |
| Csp.StepSound | csp.py:82-93 | at either level, one committed step takes a sound start to a sound start for the deeper call, whatever order the pruning leaves |
| Csp.PrunedWithin | csp.py:85-87 | pruning only takes values away |
| Csp.UnassignedShrinks | csp.py:88-93 | assigning the selected variable strictly shrinks the set of unassigned variables (the recursion's measure) |
| Csp.UndoAssign | csp.py:88-100 | the del at line 100 undoes the assignment at line 88 |
| Csp.CompletionSameContents | csp.py:95-96 | whether a solution extends an assignment depends only on the contents of the candidate lists, not on their order after re-appending |
| Csp.CompletionAvoidsClash | csp.py:125-129 | a solution that gives x the value v never clashes with an assigned neighbour, so a level-0 None at line 84 skips no solution |
| Csp.CompletionAvoidsWipeout | csp.py:131-141 | a solution that gives x the value v leaves every unassigned neighbour a compatible value, so a level-1 None skips no solution |
| Csp.PrunedKeepsCompletion | csp.py:85-93 | removing the step's own reduction keeps every solution that gives x the value v within the pruned candidates |
| Csp.CompletionPicksValue | csp.py:80 | a solution extending ap gives the selected variable one of the ordered values, so trying them all covers every solution |
| Csp.Search | csp.py:55-102 | a complete ap is returned as-is. Every return leaves the same contents in every candidate list and the neighbours unchanged. Failure leaves ap unchanged and raises the counter. At levels 0 and 1 failure means no solution extends ap with values from the entry candidates (the "None if no assignment is possible" of lines 69-70). Success covers every variable, extends ap with values from the entry candidates, is what ap then holds, and is consistent from a sound start. Level 2 raises before any change when there is a value to try. Unknown levels fail |
| Csp.TryValues | csp.py:80-102 | the loop over ordered values: same guarantees as the search. Failure leaves ap unchanged, and at levels 0 and 1 it means no solution extends ap with x set to any of the tried values |
| Csp.TryValue | csp.py:82-100 | one value: the consistency call decides whether to descend, and level 2 raises there with nothing changed. At levels 0 and 1 a failure means no solution extends ap with x = v |
| Csp.Descend | csp.py:85-100 | removal, deeper search and re-append preserve contents. Success extends ap with x = v. Failure deletes x again, and it means no solution extends ap with x = v within the pruned candidates |
| Csp.Recurse | csp.py:88-93 | after assigning x = v, the recursive call's guarantees hold for the extended assignment; failure means no solution extends it |
| Csp.EmptyStartSound | csp.py:55 | the default empty ap is a sound start at levels 0 and 1 on a symmetric instance |
| Csp.Solve | csp.py:55-102 | a top-level search from an empty ap. A returned assignment is complete and drawn from the candidates, and at levels 0 and 1 on a symmetric instance it is a solution. At levels 0 and 1 failure means the instance has no solution. Failure raises the counter. An empty graph gives the empty assignment |
| NQueens.Abs | nreinasCSP.py:61 | abs returns k or -k and is non-negative |
| NQueens.Admissible | nreinasCSP.py:59-61 | restriccion is true exactly when the two queens share no column and no rising or falling diagonal |
| NQueens.SameColumnConflicts | nreinasCSP.py:61 | two queens in one column are incompatible |
| NQueens.SameDiagonalConflicts | nreinasCSP.py:61 | two queens with equal column and row distance are incompatible |
| NQueens.AdmissibleSymmetric | nreinasCSP.py:61 | the predicate does not depend on argument order |
| NQueens.Range | nreinasCSP.py:37-38 | range(n) is 0..n-1 in order, and empty for n <= 0 |
| NQueens.Rivals | nreinasCSP.py:39 | the neighbour set of row i is exactly the other rows 0..n-1 |
| NQueens.QueenDomains | nreinasCSP.py:37-38 | exactly rows 0..n-1 have candidates, and each holds exactly the columns 0..n-1 |
| NQueens.QueenNeighbors | nreinasCSP.py:37-39 | exactly rows 0..n-1 have neighbours; row i's are the other rows |
| NQueens.NewQueens | nreinasCSP.py:26-39 | the row-by-row loop builds exactly those domains and neighbour sets on a fresh graph with a zero counter and the queens predicate |
| NQueens.QueensWellFormed | nreinasCSP.py:37-39 | every neighbour of a row is itself a variable |
| NQueens.QueensSymmetric | nreinasCSP.py:39-61 | the neighbour relation is irreflexive and symmetric and the predicate is symmetric |
| NQueens.ConsistentIffSolution | nreinasCSP.py:46-61 | a complete placement with in-range columns satisfies the predicate on every neighbour pair exactly when no two queens attack |
| NQueens.CompletionIffSolution | nreinasCSP.py:37-61 | the solutions the engine looks for on the board Nreinas(n) builds are exactly the n-queens placements |
| NQueens.SmallBoardClash | nreinasCSP.py:20-22 | on 2 or 3 columns the first rows always contain an attacking pair |
| NQueens.NoSolutionTwoOrThree | nreinasCSP.py:20-22 | there is no solution for two or three queens |
| NQueens.FourQueens | nreinasCSP.py:20-22 | four queens have a solution (rows 0..3 on columns 1, 3, 0, 2), so a solution exists for n = 4 |
| NQueens.SolveQueens | nreinasCSP.py:81-84 | building the board and searching from an empty ap at levels 0 and 1 returns a placement exactly when an n-queens solution exists, and that placement is a solution. So it fails for 2 or 3 queens and succeeds for 4. Level 2 raises exactly on a non-empty board. n <= 0 gives the empty placement |

## Left out

- The engine calls `restricción` (with the accent, csp.py:37, 118, 127, 137), but `Nreinas` defines `restriccion` (no accent, nreinasCSP.py:41). As written, the override is never reached, and the first constraint evaluation raises NotImplementedError from the abstract method. The model injects the constraint as one function when the graph is built, so the search works with the predicate of nreinasCSP.py:61.
- `Nreinas` builds its candidate lists as Python sets (nreinasCSP.py:38). As written, the re-append with `+=` at csp.py:96 raises TypeError on a set. The model keeps lists everywhere, as the search evidently intends, and `NewQueens` builds lists.
- The abstract `restricción` (csp.py:37-52) is left out: its body only raises. Its role is taken by the injected `constraint` field.
- Arc consistency (csp.py:142-147) is unimplemented in the source. It is modelled only as the NotImplementedError outcome.
- `min_conflictos` and `minimos_conflictos` (csp.py:150-163) are left out. The worker is an unimplemented stub, and the intended algorithm is randomised.
- The tracing output (csp.py:90-91), `Nreinas.muestra_asignacion` (nreinasCSP.py:63-78) and the printing in `prueba_reinas` and `__main__` (nreinasCSP.py:81-120) are console I/O. They are left out.
- cuadrado_magico_4.py is an empty exercise stub. It is not part of this model.
- The mutable default `ap={}` (csp.py:55) is shared between calls in Python. After a success it keeps the full assignment, which `Search` states. `Solve` starts each top-level call from a fresh empty assignment instead.
- Dictionary and set iteration order is left unspecified. Wherever the source iterates a dict or a set, the model picks an arbitrary remaining element.
- Level 0 calls `ap.iteritems()` (csp.py:126), which exists only in Python 2. csp.py itself only parses under Python 3, because of the accented identifier at csp.py:37. As written, every level-0 consistency call therefore raises AttributeError. This includes `Nreinas(1)` at level 0. The model iterates over the assignment, as the call evidently intends.
- Csp.SelectVariable: ties are broken by dictionary order in the source. The model only states that the chosen variable is maximal or minimal.
- Csp.OrderValues: it states the permutation and the non-increasing order of conflict counts. The stability of Python's sort among equal counts is not proved.
- Csp.Search: on failure it states that the counter grows by at least one. It does not give the exact number of exhausted frames.
- Csp.Search: a partial assignment with variables outside the graph is excluded by its precondition. In the source such an assignment never passes the completeness test at csp.py:74. Once every graph variable is assigned, the min at csp.py:108 raises ValueError on an empty list.
- Csp.Search: the model requires a well-formed graph (`Valid`): every variable has a neighbour set, and every neighbour is a variable. The source accepts any graph. On a malformed one it raises KeyError: at csp.py:107 or csp.py:115 for a variable with no entry in `vecinos`, and at csp.py:117 or csp.py:136 for a neighbour that has no candidate list. That KeyError path is not modelled.
- Csp.Search: validity of a result needs a sound start. Level 1 does not re-check neighbours that are already assigned (csp.py:133-134), so a non-empty ap must already be forward-checked.
