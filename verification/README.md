# CaDiCaL, a model and its proofs

CaDiCaL decides the satisfiability of propositional formulas.  It rewrites its set of clauses all
the time: it learns clauses from conflicts, eliminates variables, removes blocked, covered and
globally blocked clauses, substitutes equivalent literals, and it certifies what it does with
proofs that built-in checkers verify.  This project models these parts and proves that they keep
the meaning of the formula.

Literals are non-zero integers.  Clauses are stored as sequences, whose order changes constantly,
and mean the set of their literals (`Cnf`).  An assignment of all variables is the set of the true
ones.  Objects with fields updated in place are classes here too; arrays indexed by literals are
maps or sets, clause pointers are indices into a sequence of clauses, and watch and occurrence lists
are maps from literals to sequences of such indices.

Most classes carry a large invariant.  It is written as predicates on values, usually hidden behind
the trivial predicate `Cnf.Look`, which has to be mentioned (`assert Look(0)`) before the verifier looks
inside.  This keeps the proofs small.  Lemmas about values do the work, the methods call them.

| modules | what they model |
|---|---|
| `Cnf`, `Reconstruction`, `Runs`, `Inprocessing` | clauses and their meaning; the redundancy arguments behind the extension stack; runs of any mix of techniques; the procedures below as steps of a run |
| `Extension` | the flat extension stack, its traversals, and extending an assignment |
| `BinaryGraph`, `Tarjan`, `Decompose`, `Substitution`, `Substituter` | strongly connected components of the binary implication graph, and substitution by representatives |
| `Watching`, `Checker` | two watched literals, and the DRUP proof checker |
| `LratSpec`, `LratChecker` | the LRAT proof checker |
| `LratChains`, `LratState`, `LratPropagator`, `LratClauses`, `LratBuilder`, `LratProof` | the builder of LRAT chains, and builder and checker in step |
| `Analysis`, `Minimization`, `Removal`, `Analyzer`, `DrivingClause` | conflict analysis, clause minimization and their LRAT chain |
| `CoveredClauses`, `Covering`, `Cover` | covered clause elimination |
| `Condition` | globally blocked clauses |
| `Block` | blocked clause elimination |
| `PivotElimination`, `Resolving`, `Eliminating`, `Spanning`, `Elim`, `Gating`, `XorGates`, `Gates`, `Misleading` | bounded variable elimination, with and without gates |
| `Backtrack`, `Trails` | backtracking on unordered trails, and why conflicts can be analyzed afterwards |
| `Heap`, `Flip`, `Compact` | the indexed heap, flipping literals of a model, renumbering variables |

The main result across modules is `Runs.RunReconstructs`: over every run, one backward pass over the
extension stack turns a model of the current irredundant clauses into a model of the original ones,
and all current clauses, learned ones included, follow from the original ones.  Redundant clauses are
kept apart: they survive the removal of clauses they follow from (`Runs.LearnedOutlives`), and more is
derived from them.  Each class of an inprocessing technique proves what its actual loops do, with their
marks, watches, units found on the way and early exits; `Inprocessing` calls these classes and shows
that each call is a step of a run, and `Inprocessing.ExtendRun` extends an assignment at the end of a
run over the flat stack.

Where the code and its documentation disagree, or where the code does not do what one would expect:

- The 64-bit clause id on the extension stack loses its high word (`Extension.HighWordLost`), so ids
  are only recovered if they fit into 31 bits (`Extension.TraversalsRecover` states exactly when).
- Searching for if-then-else and XOR gates skips true literals just like false ones, so a clause that
  is satisfied, but not yet garbage, can be taken for a gate clause.  This is possible since units
  found while adding resolvents are not propagated until the end of elimination.  The clauses found
  define the pivot exactly if none of them is satisfied (`Gating.IteGated`, `XorGates.XorGated`), and
  eliminating a variable is reconstructed whenever no live clause with it contains a fixed true literal
  before the call (`Gates.GateFinder.TryToEliminateVariable`).  The converse does not hold: a satisfied
  clause need not become part of a gate.  `Misleading.Run` follows the code on six concrete clauses where
  one is satisfied, and a model is lost.
- An if-then-else gate is only found if the condition comes first among the other literals of the
  clauses (`Gates.GateFinder.FindIfThenElse` states exactly when).
- When the LRAT builder is inconsistent because of an empty clause and a reason is deleted, the flag is
  reset, since the empty clause is never propagated again.  After that, clauses are refused although
  naive unit propagation implies them, exactly as long as there is a live empty clause
  (`LratBuilder.LratBuilder.BuildChainIfPossible`, `LratClauses.FlagMeaning`).
  `LratBuilder.RefuseEmptyClause` reaches such a state.
- Minimization aborts early at literals that come before all kept literals of their level, and at those that
  are the only ones of their level.  Nothing is lost by that: a literal is kept exactly if reasons lead from it
  back to a decision or to the conflict level without passing a kept or a fixed literal, unless a chain of
  reasons is longer than the recursion limit (`Analyzer.Minimal`, `Removal.FirstExposed`, `Removal.LonelyExposed`).
- A purely asymmetric success in covered clause elimination does not remove the clause.
- While frozen counters are mapped, the counter of a variable that is not mapped itself would stay in its
  place and be added to the counter of the variable that gets its number (`Compact.FrozenConserved`
  states exactly when counters are conserved).  This needs a frozen variable that is neither active nor
  fixed; freezing makes a variable active again, so no counter is lost (`Compact.FrozenKept`).

## Model

| member | source | states |
|---|---|---|
| `BinaryGraph.ReachSkew` | cadical-master/src/decompose.cpp:216-246 | the binary implication graph is skew-symmetric: every path gives the path between the negated literals in the other direction |
| `BinaryGraph.ClashSpreads` | cadical-master/src/decompose.cpp:316-346 | testing only the negation of the component's entry suffices: if any literal of a component is equivalent to its negation then so is every other |
| `BinaryGraph.ReachImplies` | cadical-master/src/decompose.cpp:216-246 | a path from one literal to another means that the implication follows from the clauses |
| `BinaryGraph.ClashUnsatisfiable` | cadical-master/src/decompose.cpp:319-335 | a literal and its negation in one component make the clauses unsatisfiable, so learning the empty clause is sound |
| `BinaryGraph.SameRepresentative` | cadical-master/src/decompose.cpp:348-375 | two non-frozen literals have the same representative exactly when they reach each other |
| `BinaryGraph.RepresentativeIdempotent` | cadical-master/src/decompose.cpp:348-375 | representatives represent themselves |
| `BinaryGraph.RepresentativeOfNegation` | cadical-master/src/decompose.cpp:420-495 | the representative of the negation is the negation of the representative |
| `BinaryGraph.EquivalenceEntailed` | cadical-master/src/decompose.cpp:444-495 | both binary clauses of an equivalence follow from the clauses |
| `Decompose.Decomposer.PreFix` | cadical-master/src/decompose.cpp:391-410 | pre-fix visit of a literal: the search invariant is kept and one more literal is visited |
| `Decompose.Decomposer.PushChildren` | cadical-master/src/decompose.cpp:400-410 | exactly the unvisited children are pushed on the work stack |
| `Decompose.Decomposer.MinimumOfChildren` | cadical-master/src/decompose.cpp:235-246 | the new minimum is the smallest index among the literal and its children |
| `Decompose.Decomposer.PostFix` | cadical-master/src/decompose.cpp:228-389 | post-fix visit: either the invariant is kept or the literal is equivalent to its negation |
| `Decompose.Decomposer.ScanComponent` | cadical-master/src/decompose.cpp:310-343 | the part of the stack above the entry is scanned for the negated entry and for the literal with the smallest variable |
| `Decompose.Decomposer.CloseComponent` | cadical-master/src/decompose.cpp:350-375 | popping a complete component assigns its representative and keeps the search invariant |
| `Decompose.Decomposer.SearchFrom` | cadical-master/src/decompose.cpp:200-410 | the explicit-stack search from one root terminates with an empty work stack, every visited literal traversed, or a clash |
| `Decompose.Decomposer.DetectComponents` | cadical-master/src/decompose.cpp:194-418 | the empty clause is learned exactly if some literal and its negation reach each other; otherwise every literal has the representative of its component, and the number of substituted variables is exact |
| `Extension.HighWordLost` | cadical-master/src/extend.cpp:10-17 | the high word of an id pushed on the extension stack is always zero |
| `Extension.IdRoundTrip` | cadical-master/src/extend.cpp:10-17 | an id is read back exactly if it fits into 31 bits (or into the topmost range that sign extension restores) |
| `Extension.External.PushClauseAndWitness` | cadical-master/src/extend.cpp:79-100 | pushing a clause with its witness appends exactly one entry to the flat stack |
| `Extension.External.PushBinaryClause` | cadical-master/src/extend.cpp:63-77 | pushing a binary clause appends exactly one entry with the pivot as witness |
| `Extension.External.TraverseBackward` | cadical-master/src/extend.cpp:201-230 | the backward traversal of the flat stack shows the pushed entries in reverse order, up to the first one that is not accepted |
| `Extension.External.TraverseForward` | cadical-master/src/extend.cpp:232-262 | the forward traversal shows the same entries in their order |
| `Extension.TraversalsRecover` | cadical-master/src/extend.cpp:201-262 | the traversals recover all entries with their ids exactly if every id survives the 32-bit words |
| `Extension.External.MapInternalValues` | cadical-master/src/extend.cpp:126-139 | the external values become those of the internal literals they are mapped to |
| `Extension.External.FlipWitness` | cadical-master/src/extend.cpp:176-188 | all literals of a witness become true, and nothing else changes |
| `Extension.External.ExtendAssignment` | cadical-master/src/extend.cpp:114-197 | the pass over the flat stack computes the repair of the assignment entry by entry, from the last to the first |
| `Reconstruction.ReconstructsTransitive` | cadical-master/src/extend.cpp:148-191 | backward passes over two stacks compose to one pass over both |
| `Reconstruction.PivotStep` | cadical-master/src/extend.cpp:148-191 | flipping a literal of a falsified clause repairs it if all its resolvents on the literal follow |
| `Reconstruction.BlockedResolvents` | cadical-master/src/block.cpp:43-145 | all resolvents of a blocked clause follow, since they are tautological |
| `Reconstruction.AutarkyStep` | cadical-master/src/condition.cpp:728-756 | making a whole conditional autarky true repairs a falsified clause and keeps all other clauses |
| `PivotElimination.EliminationReconstructs` | cadical-master/src/elim.cpp:601-656 | with all resolvents in place the entries of the positive and then the negative clauses of a pivot reconstruct all of them |
| `PivotElimination.ResolventSound` | cadical-master/src/elim.cpp:264-462 | a resolvent follows from its antecedents |
| `PivotElimination.GateEliminationReconstructs` | cadical-master/src/elim.cpp:577-638 | if gate clauses define the pivot, only resolvents of a gate clause with another clause are needed and only gate clauses have to be pushed |
| `PivotElimination.NonGateEntailed` | cadical-master/src/elim.cpp:577-618 | a clause outside the gate follows from the gate clauses and its resolvents with them |
| `CoveredClauses.CoveredReconstructs` | cadical-master/src/cover.cpp:49-77 | the entries pushed during covered literal addition reconstruct the first covered set if the last one is blocked or follows |
| `CoveredClauses.CoverStep` | cadical-master/src/cover.cpp:64-77 | one covered literal addition: replacing the covered set by the larger one is undone by one entry |
| `CoveredClauses.BlockedStep` | cadical-master/src/cover.cpp:232-262 | a covered set blocked up to literals implied false is undone by one entry |
| `Substitution.PassRepairs` | cadical-master/src/decompose.cpp:444-495 | the pass over the two binary clauses pushed per equivalence gives every substituted variable the value of its representative and changes nothing else |
| `Substitution.SubstitutionReconstructs` | cadical-master/src/decompose.cpp:506-664 | that pass turns every model of the substituted clauses into one of the original clauses |
| `Substitution.ImageEntailed` | cadical-master/src/decompose.cpp:506-600 | the substituted clauses follow from the original ones |
| `Runs.TechniqueReconstructs` | cadical-master/src/extend.cpp:114-197 | each technique that removes irredundant clauses pushes what it takes to reconstruct them, and looks at irredundant clauses only |
| `Runs.RunReconstructs` | cadical-master/src/extend.cpp:114-197 | after any run mixing learning, promoting, forgetting, blocking, covering, conditioning, elimination (also with gates), substitution and whole rounds, one backward pass turns every model of the current irredundant clauses into one of the original ones, and all current clauses follow from the original ones |
| `Runs.RunEquisatisfiable` | cadical-master/src/extend.cpp:114-197 | the original clauses are satisfiable exactly if the current irredundant ones are, and exactly if all current clauses together are |
| `Checker.Checker.Propagate` | cadical-master/src/checker.cpp:382-441 | two-watched propagation: on success no live clause is falsified or unit under the trail, on failure the assumptions contradict the clauses added |
| `Checker.Checker.Check` | cadical-master/src/checker.cpp:445-455 | an accepted clause follows from the original clauses ever added, a rejected one is not implied by naive unit propagation over the live clauses; trail and values are restored |
| `Checker.Checker.Backtrack` | cadical-master/src/checker.cpp:360-376 | the trail, the values and the propagation position are those of the earlier state |
| `Checker.Checker.Simplify` | cadical-master/src/checker.cpp:267-286 | sorting, duplicate removal and the test for tautological and satisfied clauses |
| `Checker.Checker.Insert` | cadical-master/src/checker.cpp:332-340 | a new clause is stored and watched, and the invariant is kept |
| `Checker.Checker.AddClause` | cadical-master/src/checker.cpp:459-494 | a falsified clause makes the checker inconsistent, the open literal of a unit is assigned and propagated, any other clause is stored live; nothing else changes |
| `Checker.Checker.AddOriginalClause` | cadical-master/src/checker.cpp:496-511 | tautological and satisfied clauses change nothing, any other clause is recorded exactly and a stored one carries the hash of its identifier; it joins the clauses everything else has to follow from |
| `Checker.Checker.AddDerivedClause` | cadical-master/src/checker.cpp:515-539 | a derived clause is accepted only if it follows from the original clauses, and rejected only if naive unit propagation does not imply it; accepted clauses are recorded exactly with the hash of their identifier, rejected ones change no clause and no value |
| `Checker.Checker.Find` | cadical-master/src/checker.cpp:308-330 | the clause found in the hash table has exactly the searched literals |
| `Checker.Checker.DeleteClause` | cadical-master/src/checker.cpp:543-577 | exactly one live clause with the identifier's hash and the literals is removed, and with garbage collection the satisfied ones too; otherwise there is none and deletion fails |
| `Checker.Checker.CollectGarbage` | cadical-master/src/checker.cpp:119-166 | exactly the satisfied clauses are removed, and the watches of garbage clauses are flushed |
| `LratSpec.LookupExact` | cadical-master/src/lratchecker.cpp:207-219 | the chained hash table finds an id exactly if a stored clause has it |
| `LratSpec.ScanMeaning` | cadical-master/src/lratchecker.cpp:313-345 | scanning a hint tells exactly whether all its literals are checked false or one is left |
| `LratSpec.FollowRefutes` | cadical-master/src/lratchecker.cpp:296-367 | a chain that leads to a falsified clause refutes its assumptions in every model of the table's clauses |
| `LratSpec.AcceptedEntailed` | cadical-master/src/lratchecker.cpp:296-367 | a clause with an accepted chain follows from whatever the table's clauses follow from |
| `LratChecker.LratChecker.Find` | cadical-master/src/lratchecker.cpp:207-219 | lookup in the chained hash table |
| `LratChecker.LratChecker.EnlargeClauses` | cadical-master/src/lratchecker.cpp:74-96 | doubling the hash table rehashes all chains and loses nothing |
| `LratChecker.LratChecker.Insert` | cadical-master/src/lratchecker.cpp:221-230 | exactly the new clause is added to the table |
| `LratChecker.LratChecker.ScanClause` | cadical-master/src/lratchecker.cpp:313-345 | the loop over the literals of a hint computes its status |
| `LratChecker.LratChecker.Check` | cadical-master/src/lratchecker.cpp:296-367 | the loop over the hints decides exactly the acceptance relation, including unknown ids, hints used twice and hints that are neither unit nor falsified |
| `LratChecker.LratChecker.AddOriginalClause` | cadical-master/src/lratchecker.cpp:371-398 | original clauses and restored clauses: exact table, ids and reconstruction map, and which calls are rejected |
| `LratChecker.LratChecker.RestoreClause` | cadical-master/src/lratchecker.cpp:623-664 | a restored clause is accepted exactly if it is a permutation of the clause weakened under its id, which follows from the originals |
| `LratChecker.LratChecker.AddDerivedClause` | cadical-master/src/lratchecker.cpp:400-433 | a derived clause is added exactly if its chain is accepted and its id is new |
| `LratChecker.LratChecker.DeleteClause` | cadical-master/src/lratchecker.cpp:531-582 | exactly the clause with the id is removed if the literals match |
| `LratChecker.LratChecker.WeakenMinus` | cadical-master/src/lratchecker.cpp:584-621 | weakening succeeds exactly if the clause stored under the id has no other literals; then exactly the given literals are remembered under it, sorted, and all other ids keep theirs |
| `LratChecker.LratChecker.ConcludeConflict` | cadical-master/src/lratchecker.cpp:474-489 | an accepted conclusion means that the original clauses are unsatisfiable |
| `LratChains.DerivationFollowed` | cadical-master/src/lratbuilder.cpp:539-582 | a derivation whose hints are all usable is followed by the checker hint by hint, whatever it used before |
| `LratChains.JustifyPosition` | cadical-master/src/lratbuilder.cpp:549-573 | justifying the literal at one trail position by its reason moves the derivation one position back |
| `LratBuilder.LratBuilder.UnitPropagate` | cadical-master/src/lratbuilder.cpp:437-465 | all unit clauses are true afterwards and reasons are recorded, or one of them is falsified |
| `LratBuilder.LratBuilder.Propagate` | cadical-master/src/lratbuilder.cpp:467-537 | propagation alternating between unit clauses and watches: nothing is left to propagate or a conflict clause is falsified, and every literal on the trail has a reason |
| `LratBuilder.LratBuilder.Backtrack` | cadical-master/src/lratbuilder.cpp:420-435 | trail, values and reasons of the earlier state |
| `LratBuilder.LratBuilder.MarkReason` | cadical-master/src/lratbuilder.cpp:549-573 | all variables of a reason are scheduled for justification and the counter stays exact |
| `LratBuilder.LratBuilder.ConstructChain` | cadical-master/src/lratbuilder.cpp:539-582 | the chain built backwards over the trail is a derivation of its goal from the assumptions |
| `LratBuilder.LratBuilder.ProofSatisfiedLiteral` | cadical-master/src/lratbuilder.cpp:589-594 | the chain for a satisfied literal derives that literal |
| `LratBuilder.LratBuilder.ProofInconsistentClause` | cadical-master/src/lratbuilder.cpp:596-618 | the chain for an inconsistent state derives the falsified clause and is cached |
| `LratBuilder.LratBuilder.ProofClause` | cadical-master/src/lratbuilder.cpp:620-634 | the chain for a conflict derives the conflict clause from the negated literals |
| `LratBuilder.LratBuilder.BuildChainIfPossible` | cadical-master/src/lratbuilder.cpp:636-682 | a chain is refused exactly if propagation runs into no clause with literals; a refused clause is nevertheless implied by naive unit propagation exactly if there is a live empty clause; every chain built is accepted for the clause; the state is restored |
| `LratBuilder.LratBuilder.Tautological` | cadical-master/src/lratbuilder.cpp:319-335 | sorting, duplicate removal and tautology test |
| `LratBuilder.LratBuilder.AddClause` | cadical-master/src/lratbuilder.cpp:693-754 | exactly the clause is added, and the invariant of trail, reasons, units and watches is re-established in all cases |
| `LratBuilder.LratBuilder.AddClauseGetProof` | cadical-master/src/lratbuilder.cpp:775-800 | a clause added with a proof has a chain that the checker accepts on the clauses before; a refused clause is implied by naive unit propagation over all live clauses exactly if there is a live empty clause |
| `LratBuilder.LratBuilder.FindReason` | cadical-master/src/lratbuilder.cpp:830-846 | the literal a clause is the reason for, if there is one |
| `LratBuilder.LratBuilder.Unwind` | cadical-master/src/lratbuilder.cpp:871-884 | the trail is unwound to the literal whose reason is deleted |
| `LratBuilder.LratBuilder.Repropagate` | cadical-master/src/lratbuilder.cpp:885-902 | after unwinding everything is propagated again and the invariant holds |
| `LratBuilder.LratBuilder.DeleteClause` | cadical-master/src/lratbuilder.cpp:817-906 | deleting a clause, also one that is a reason or the conflict, removes exactly that clause and keeps the invariant |
| `LratProof.Proof.AddOriginalClause` | cadical-master/src/proof.cpp:492-503 | builder and checker add the same original clause and stay in step |
| `LratProof.Proof.AddDerivedClause` | cadical-master/src/proof.cpp:505-518 | whenever the builder finds a chain the checker accepts it, and the clause follows from the originals; both stay in step |
| `LratProof.Proof.DeleteClause` | cadical-master/src/proof.cpp:520-529 | builder and checker delete the same clause and stay in step |
| `Analysis.Resolved` | cadical-master/src/analyze.cpp:295-306 | resolving with a reason replaces its literal on the trail by the other literals of the reason |
| `Analysis.DerivationEntails` | cadical-master/src/analyze.cpp:980-1065 | a clause derived from a conflict by reasons follows from the clauses |
| `Analyzer.Analyzer.AnalyzeLiteral` | cadical-master/src/analyze.cpp:252-291 | a literal is seen once: root-level literals go to the unit chain, literals of the conflict level are counted open, all others join the clause; the resolvent size stays the sum of both |
| `Analyzer.Analyzer.AnalyzeReason` | cadical-master/src/analyze.cpp:295-306 | all literals of a reason but the one resolved are seen, and the id joins the chain |
| `Analyzer.Analyzer.NextUip` | cadical-master/src/analyze.cpp:1008-1030 | the next seen literal of the conflict level on the trail, skipping literals of other levels, exists |
| `Analyzer.Analyzer.DeriveFirstUip` | cadical-master/src/analyze.cpp:980-1065 | the resolution loop ends with exactly one literal of the conflict level, and the chain so far derives the conflict |
| `Analyzer.Analyzer.ResolveReason` | cadical-master/src/analyze.cpp:1008-1065 | one resolution keeps the analysis invariant: the open counter is the number of seen literals of the conflict level left on the trail, and the resolvent size is open plus the clause size |
| `Analyzer.Analyzer.MinimizeLiteral` | cadical-master/src/minimize.cpp:17-72 | a literal found removable is implied false by kept literals, also through cached marks, and not exposed; one found not removable is exposed (reasons lead back to a decision or the conflict level past all kept and fixed literals), unless a chain of reasons exceeds the limit; the recursion over reasons terminates |
| `Analyzer.Analyzer.CalculateMinimizeChain` | cadical-master/src/minimize.cpp:139-172 | the reasons collected for a removed literal, each after those it needs, force it |
| `Analyzer.Analyzer.MinimizeClause` | cadical-master/src/minimize.cpp:99-137 | the minimized clause is a subset with the UIP; every literal removed is covered by the collected reasons and units; exactly the literals exposed by the other literals of the result are kept, unless a chain of reasons exceeds the limit |
| `Analyzer.Analyzer.Analyze` | cadical-master/src/analyze.cpp:860-1121 | the learned clause has exactly one literal of the conflict level, all its literals are false and not fixed, and the reversed chain derives it; it is the first UIP clause, minimized exactly as far as reasons allow |
| `Minimization.FinalChain` | cadical-master/src/analyze.cpp:1115-1121 | the reversed chain is: units, minimization reasons, resolved reasons, conflict |
| `Minimization.LearnedEntailed` | cadical-master/src/analyze.cpp:860-1121 | the learned clause follows from the clauses |
| `Minimization.LearnedAccepted` | cadical-master/src/analyze.cpp:1096-1121 | the chain of the learned clause is accepted by the LRAT checker on the same clauses |
| `DrivingClause.NewDrivingClause` | cadical-master/src/analyze.cpp:444-482 | the clause is ordered with the UIP first and a literal of the jump level second; the jump level is the second highest level |
| `DrivingClause.FindConflictLevel` | cadical-master/src/analyze.cpp:513-545 | the highest level of the conflict, and the literal forced if it is the only one of that level |
| `DrivingClause.MoveHighestToFront` | cadical-master/src/analyze.cpp:546-586 | the two literals of highest level come first; the clause is permuted |
| `DrivingClause.DetermineActualBacktrackLevel` | cadical-master/src/analyze.cpp:590-665 | the actual backtrack level in all cases: disabled, forced, close, below the assumptions, above the level limit; when reusing the trail the highest level that keeps the best variable |
| `Cover.Coveror.CoverPropagateAsymmetric` | cadical-master/src/cover.cpp:100-177 | asymmetric literal addition adds only literals implied false by the covered set; a falsified clause means the covered set follows |
| `Cover.Coveror.Candidates` | cadical-master/src/cover.cpp:181-262 | all clauses are blocked, or the literals are unassigned literals common to all clauses that are not blocked, and none of these is missing |
| `Cover.Coveror.IntersectWith` | cadical-master/src/cover.cpp:236-262 | exactly the literals shared with one more clause |
| `Cover.Coveror.CoverPushExtension` | cadical-master/src/cover.cpp:49-62 | the blocking literal and the covered set are pushed on the private flat stack |
| `Cover.Coveror.CoverPropagateCovered` | cadical-master/src/cover.cpp:181-319 | the covered set is blocked exactly if the literal is not frozen and every clause with its negation has another true literal; otherwise the set grows by exactly the unassigned literals that the remaining clauses with the negation share, with one more justified entry, and nothing changes only if the literal is frozen or they share none |
| `Cover.Coveror.CopyExtension` | cadical-master/src/cover.cpp:383-448 | copying the private flat stack with its separators gives the well-formed entries on the extension stack, each with the missing literals |
| `Cover.Coveror.Backtrack` | cadical-master/src/cover.cpp:449-463 | trail, values and all private stacks are reset |
| `Cover.Coveror.CoverClause` | cadical-master/src/cover.cpp:323-463 | a clause is removed exactly if it is satisfied at the root or entries were pushed, and these reconstruct it from the remaining clauses; it stays if the success was purely asymmetric, and then it follows from the others, and else only at a fix-point: every covered literal is frozen or has resolution candidates that share no unassigned literal, and, if all fixed literals had been propagated, no other clause is falsified or unit under the negated extended clause |
| `Condition.Conditioner.PrepareAssignment` | cadical-master/src/condition.cpp:177-209 | every variable in use that is not frozen has a value, and apart from the root level no other one |
| `Condition.Conditioner.GatherClause` | cadical-master/src/condition.cpp:287-396 | satisfied clauses become garbage, clauses with true and false literals are watched by a true literal with the fewest watches, and clauses with only false literals make these conditional |
| `Condition.Conditioner.Gather` | cadical-master/src/condition.cpp:287-396 | afterwards every clause touched by the autarky part is watched by a true literal, initial conditional literals are negated in clauses without true literals, and clauses with true literals are candidates |
| `Condition.Conditioner.VisitWatch` | cadical-master/src/condition.cpp:615-692 | a watched clause gets a true literal as replacement, or its false autarky literals become conditional |
| `Condition.Conditioner.MarkClause` | cadical-master/src/condition.cpp:653-691 | the false autarky literals of a clause become conditional, replacing the watched autarky literal of the candidate |
| `Condition.Conditioner.PropagateUnassigned` | cadical-master/src/condition.cpp:591-704 | all unassigned literals are processed, so that every touched clause still has a true literal |
| `Condition.Conditioner.RefineNext` | cadical-master/src/condition.cpp:570-589 | a conditional literal not negated in the candidate is unassigned |
| `Condition.Conditioner.Refine` | cadical-master/src/condition.cpp:565-705 | at the fix-point every remaining conditional literal is negated in the candidate |
| `Condition.FixpointAutarky` | cadical-master/src/condition.cpp:707-756 | the remaining autarky literals form a conditional autarky of all other clauses under the negated candidate |
| `Condition.Conditioner.PushAutarky` | cadical-master/src/condition.cpp:787-793 | the autarky literals in trail order and the clause are pushed as one entry |
| `Condition.Conditioner.ConditionClause` | cadical-master/src/condition.cpp:489-834 | a candidate is removed only with a conditional autarky that contains one of its literals, and kept, unless the propagation limit is hit, only if no conditional autarky within the assignment does; values, conditional literals and marks are those of before |
| `Condition.Conditioner.TryCandidates` | cadical-master/src/condition.cpp:489-834 | over all candidates the entries pushed reconstruct all clauses removed; unless the limit is hit every candidate left is a reason or hopeless |
| `Condition.Conditioner.RestoreAssignment` | cadical-master/src/condition.cpp:854-882 | the assignment and the trail are restored |
| `Condition.Conditioner.ConditionRound` | cadical-master/src/condition.cpp:155-890 | a round leaves trail, values and marks as they were, and every model of the remaining clauses extends to one of all clauses; unless the limit is hit every clause left is a reason, or no part of the prepared assignment that is a conditional autarky of all clauses under the negated clause contains one of its literals |
| `Resolving.KeptTransitive` | cadical-master/src/elim.cpp:264-462 | what single steps keep (new clauses follow, removed clauses follow without the pivot) holds for sequences of steps |
| `Resolving.KeptBackward` | cadical-master/src/elim.cpp:142-202 | the models before and after such steps are the same |
| `Resolving.OpenResolvent` | cadical-master/src/elim.cpp:289-391 | the literals left after removing false ones are an entailed subset of the resolvent without duplicates |
| `Resolving.SubsumedAntecedent` | cadical-master/src/elim.cpp:421-455 | the counts of actual literals compared with the resolvent size tell whether the resolvent subsumes an antecedent |
| `Elim.Eliminator.ElimPropagate` | cadical-master/src/elim.cpp:142-202 | propagation over occurrence lists terminates and has the same models afterwards; only satisfied clauses become garbage, and unless there is a conflict no live clause is left with a literal that became true |
| `Elim.Eliminator.SelfSubsume` | cadical-master/src/elim.cpp:209-230 | the clause is replaced by a copy without the pivot and without false literals, which follows |
| `Elim.Eliminator.FirstAntecedent` | cadical-master/src/elim.cpp:289-327 | the unassigned literals of the first antecedent are collected and marked unless it is satisfied |
| `Elim.Eliminator.SecondAntecedent` | cadical-master/src/elim.cpp:329-365 | the new unassigned literals of the second antecedent are added unless it is satisfied or clashes |
| `Elim.Eliminator.ComputeResolvent` | cadical-master/src/elim.cpp:289-391 | a satisfied antecedent becomes garbage, a tautological resolvent is dropped, all marks are cleared |
| `Elim.Eliminator.LearnResolvent` | cadical-master/src/elim.cpp:393-412 | empty and unit resolvents are learned; the pivot stays unassigned unless units are propagated eagerly |
| `Elim.Eliminator.Strengthen` | cadical-master/src/elim.cpp:421-455 | single and double self-subsuming resolution replaces the subsumed antecedents |
| `Elim.Eliminator.ResolveClauses` | cadical-master/src/elim.cpp:264-462 | in all cases the resolvent is either left to be added, or it follows from the clauses without the pivot, or an antecedent is gone |
| `Elim.Eliminator.ResolventsBounded` | cadical-master/src/elim.cpp:473-540 | a positive answer means that at most the allowed number of pairs are left to be resolved, of which none is too long; a negative one a conflict, an assigned pivot, or too many or too long pairs; models are kept |
| `Elim.Eliminator.AddResolvents` | cadical-master/src/elim.cpp:547-595 | afterwards every required pair of clauses is resolved, although clauses are replaced, removed and units found on the way |
| `Elim.Eliminator.MarkEliminatedClauses` | cadical-master/src/elim.cpp:601-656 | the clauses of the pivot are pushed and removed; without gates, or if the gate clauses define the pivot, the entries reconstruct them |
| `Elim.Eliminator.Eliminate` | cadical-master/src/elim.cpp:704-714 | elimination of one variable: no model is lost, what is left has exactly the models of the clauses without the pivot and the resolvents, and without gates or if they define the pivot every model extends to one of all clauses before; it succeeds only within the bounds, and fails only with a conflict, an assigned pivot, or too many or too long resolvents |
| `Eliminating.ResolutionReconstructs` | cadical-master/src/elim.cpp:601-656 | the clauses listed for the pivot are exactly those its entries reconstruct from the rest |
| `Eliminating.GateReconstructs` | cadical-master/src/elim.cpp:577-638 | the same with only the gate clauses pushed |
| `Eliminating.GatedKept` | cadical-master/src/elim.cpp:577-638 | gate clauses strengthened or satisfied while resolving do not spoil the definition of the pivot |
| `Gates.GateFinder.SecondLiteral` | cadical-master/src/gates.cpp:20-53 | the only other unassigned literal of a clause, exactly if there is one; satisfied clauses become garbage |
| `Gates.GateFinder.MarkBinaryLiterals` | cadical-master/src/gates.cpp:106-186 | every marked literal has its binary clause with the pivot; duplicates are removed and hyper unary resolvents learned |
| `Gates.GateFinder.FindEquivalence` | cadical-master/src/gates.cpp:201-301 | an equivalence found defines the pivot, and none is found only if there is none, unless units were found; these keep the models |
| `Gates.GateFinder.FindAndGate` | cadical-master/src/gates.cpp:309-445 | the base clause and the binary clauses of all its inputs define the pivot; no gate is found only if no live clause has all its other literals implied by the pivot through binary clauses, unless units were found |
| `Gates.GateFinder.FlagSides` | cadical-master/src/gates.cpp:415-432 | exactly the binary clauses of inputs of the base clause are flagged |
| `Gates.GateFinder.GetTernaryClause` | cadical-master/src/gates.cpp:451-472 | the three unassigned literals in their order, exactly if there are three; true literals are skipped like false ones |
| `Gates.GateFinder.FindTernaryClause` | cadical-master/src/gates.cpp:489-500 | a clause whose unassigned literals are the given three, exactly if there is one |
| `Gates.GateFinder.FindIfThenElse` | cadical-master/src/gates.cpp:504-575 | a gate is found exactly if two ternary clauses with the condition as first other literal can be completed; the clauses define the pivot exactly if none is satisfied by a fixed literal |
| `Gates.GateFinder.FlipSigns` | cadical-master/src/gates.cpp:666-671 | flipping the literals whose bits changed leads from one sign pattern to the next |
| `Gates.GateFinder.NextSigns` | cadical-master/src/gates.cpp:663-665 | the loop over parity reaches the next number of even parity and skips none |
| `Gates.GateFinder.FindPatterns` | cadical-master/src/gates.cpp:659-676 | a clause is found for every sign pattern with an even number of negations, each pattern tried exactly once |
| `Gates.GateFinder.FindXorGate` | cadical-master/src/gates.cpp:628-722 | the clauses found as an XOR gate define the pivot exactly if none is satisfied by a fixed literal; no gate is found only if every base clause within the arity limit misses a sign pattern |
| `Gates.GateFinder.FindGateClauses` | cadical-master/src/gates.cpp:731-747 | at most one gate is found, its clauses are flagged, and the models stay the same; none is found only if there is no gate of any kind, unless units were found |
| `Gates.GateFinder.TryToEliminateVariable` | cadical-master/src/elim.cpp:664-718 | gates, bound, resolvents and removal together: no model is lost; every model of the result extends to one of the clauses before if no live clause with the pivot contained a literal fixed to true before the call; the variable is eliminated only if it was in use, its live clauses do not exceed the limit and the resolvents are within the bounds, and it stays only if it was not in use, occurs too often, there is a conflict, it got a value, or the clauses before were too many or too long |
| `Gating.IteGated` | cadical-master/src/gates.cpp:504-575 | four if-then-else clauses define the pivot exactly if none is satisfied |
| `Gating.AndGated` | cadical-master/src/gates.cpp:309-445 | an AND gate defines its output |
| `Gating.EquivalenceGated` | cadical-master/src/gates.cpp:201-301 | the two clauses of an equivalence define the pivot |
| `XorGates.NextEven` | cadical-master/src/gates.cpp:663-665 | between two consecutive numbers of even parity all numbers have odd parity |
| `XorGates.EvenPosition` | cadical-master/src/gates.cpp:659-676 | the numbers of even parity are enumerated completely, each at its half |
| `XorGates.XorGated` | cadical-master/src/gates.cpp:628-722 | all even sign patterns define each of their variables exactly if none of the clauses is satisfied |
| `Substituter.Substituter.PushEquivalences` | cadical-master/src/decompose.cpp:444-495 | for every substituted variable both binary clauses are pushed, and the list of equivalences describes the representatives |
| `Substituter.Substituter.CopyClause` | cadical-master/src/decompose.cpp:535-601 | the representatives of the literals without duplicates and false literals, or the clause is satisfied or tautological after substitution |
| `Substituter.Substituter.Replace` | cadical-master/src/decompose.cpp:602-664 | empty clause, unit, new clause or shrinking in place: in all cases the image of the old clause is implied, and what is new follows from the original clauses |
| `Substituter.Substituter.SubstituteClause` | cadical-master/src/decompose.cpp:506-664 | one clause is dealt with: it stays if all its literals represent themselves, is postponed if its image is satisfied or tautological, and is shortened to its image otherwise; the empty clause is learned only if all literals of the image are false |
| `Substituter.Substituter.MarkPostponed` | cadical-master/src/decompose.cpp:691-696 | exactly the postponed clauses become garbage, and nothing else changes |
| `Substituter.Substituter.Substitute` | cadical-master/src/decompose.cpp:420-696 | the whole substitution loses no model, and the entries pushed extend every model of the rewritten irredundant clauses to the original irredundant ones, and likewise for all clauses; unless the empty clause is learned, every literal of a live clause represents itself, and every old clause stayed, is gone since its image is satisfied or tautological, or was shortened to its image without duplicates and false literals |
| `Substituter.ComponentsSuffice` | cadical-master/src/decompose.cpp:348-375 | the representatives found by the component search are idempotent, commute with negation and are entailed equivalences |
| `Block.Blocker.FindClash` | cadical-master/src/block.cpp:92-128 | the first literal whose negation is marked is moved to the front of the clause; without one the order is restored exactly |
| `Block.Blocker.SearchList` | cadical-master/src/block.cpp:69-142 | a clause whose resolvent is not tautological is moved to the front of the occurrence list; otherwise the list is restored exactly |
| `Block.Blocker.IsBlockedClause` | cadical-master/src/block.cpp:43-145 | true exactly if all resolvents on the literal are tautological; literals are only permuted, and the occurrence list is unchanged if the clause is blocked |
| `Block.Blocker.BlockPureLiteral` | cadical-master/src/block.cpp:249-290 | all clauses of a pure literal are pushed and removed unless it is frozen |
| `Block.Blocker.BlockWithOneNegative` | cadical-master/src/block.cpp:298-428 | with one negative clause exactly the clauses of admissible size with a tautological resolvent are removed |
| `Block.Blocker.BlockCandidates` | cadical-master/src/block.cpp:435-493 | exactly the live clauses of admissible size with a literal that occurs negated in a negative clause become candidates |
| `Block.CandidatesSuffice` | cadical-master/src/block.cpp:435-493 | every blocked clause of admissible size is a candidate |
| `Block.Blocker.BlockImpossible` | cadical-master/src/block.cpp:500-539 | if a negative clause clashes with no candidate then no candidate is blocked |
| `Block.Blocker.BlockWithManyNegative` | cadical-master/src/block.cpp:545-641 | exactly the clauses of admissible size all of whose resolvents are tautological are removed, unless some negative clause is too large, and then nothing changes |
| `Block.Blocker.BlockLiteral` | cadical-master/src/block.cpp:690-733 | over all cases: exactly the blocked clauses are removed, nothing is removed if the literal is frozen, occurs negated too often, or a negative clause is too large, and the entries pushed, one for each clause removed with its literals and identifier, reconstruct them |
| `Block.BlockedMeaning` | cadical-master/src/block.cpp:43-145 | the test against the occurrence list is blockedness with respect to all clauses |
| `Heap.Heap.Exchange` | cadical-master/src/heap.hpp:65-69 | two elements and their positions are exchanged; both tables stay inverse to each other |
| `Heap.Heap.Up` | cadical-master/src/heap.hpp:73-77 | bubbling up leaves at most the children of the element out of order |
| `Heap.Heap.Down` | cadical-master/src/heap.hpp:81-93 | bubbling down restores the order |
| `Heap.UpStep` | cadical-master/src/heap.hpp:73-77 | one exchange with the parent: only the element may be out of place, and all below it is fine |
| `Heap.DownStep` | cadical-master/src/heap.hpp:81-93 | one exchange with the larger child: only the new children may be out of order |
| `Heap.FrontMaximal` | cadical-master/src/heap.hpp:156-159 | the first element is a maximum |
| `Heap.Heap.PushBack` | cadical-master/src/heap.hpp:143-152 | exactly the new element is added |
| `Heap.Heap.PopFront` | cadical-master/src/heap.hpp:163-174 | exactly the maximum is removed |
| `Heap.Heap.Update` | cadical-master/src/heap.hpp:178-183 | after an arbitrary change of the order for one element the heap is repaired and keeps its elements |
| `Heap.ChangedOrder` | cadical-master/src/heap.hpp:178-183 | after such a change only that element can be out of place |
| `Backtrack.Solver.Unassign` | cadical-master/src/backtrack.cpp:10-30 | an unassigned variable can be found again by both decision heuristics; the queue moves forward exactly if the variable was bumped later |
| `Backtrack.Solver.Backtrack` | cadical-master/src/backtrack.cpp:76-162 | exactly the literals of at most the target level stay on the trail, in their order, with positions, values and counters in agreement, also if levels are out of order; propagation starts again at the first literal moved or removed, the decision queue at the variable bumped last among those unassigned, and nothing changes at the same level |
| `Backtrack.BacktrackSound` | cadical-master/src/backtrack.cpp:112-139 | reasons stay explained: their other literals are false, earlier on the trail and of no higher level; decision levels keep their starts |
| `Flip.Flipper.FindTrue` | cadical-master/src/flip.cpp:76-95 | the search from the saved position finds a true literal exactly if there is one |
| `Flip.Flipper.MoveWatch` | cadical-master/src/flip.cpp:71-102 | the watch moves to a true literal, or the literal is the only true one |
| `Flip.Flipper.Rewatch` | cadical-master/src/flip.cpp:53-112 | all watched clauses of the literal get another true watch, or flipping is impossible |
| `Flip.Flipper.Flip` | cadical-master/src/flip.cpp:5-151 | flipping succeeds exactly if the literal is not the only true literal of a clause; then one value and one trail entry change, all clauses stay satisfied and watched; otherwise no value changes |
| `Flip.Flipper.Flippable` | cadical-master/src/flip.cpp:153-245 | the answer is true exactly if the literal can be flipped; no value and no clause changes, and watches keep their clauses and sizes |
| `Flip.AllSettled` | cadical-master/src/flip.cpp:120-136 | true partners for all watches of the literal suffice to keep the watch invariant and all clauses satisfied after flipping |
| `Compact.Compacter.BuildTable` | cadical-master/src/compact.cpp:49-67 | the active variables and the first fixed one are numbered in ascending order without gaps |
| `Compact.Compacter.MapVector` | cadical-master/src/compact.cpp:106-117 | moving entries in ascending order, in place, keeps exactly the entries of mapped variables at their new positions |
| `Compact.CompactedUnique` | cadical-master/src/compact.cpp:106-117 | that determines the mapped vector completely |
| `Compact.ValueKept` | cadical-master/src/compact.cpp:87-101 | a literal that is still mapped keeps its value, also if it collapses into the first fixed variable |
| `Compact.FixedCollapse` | cadical-master/src/compact.cpp:87-101 | all true fixed literals become the same literal |
| `Compact.Compacter.MapExternal` | cadical-master/src/compact.cpp:210-231 | every external variable is mapped with its literal |
| `Compact.Compacter.MapClauses` | cadical-master/src/compact.cpp:269-280 | all literals of all clauses are mapped |
| `Compact.ClauseRenamed` | cadical-master/src/compact.cpp:269-280 | renaming keeps the meaning of clauses over active variables |
| `Compact.Compacter.RelinkQueue` | cadical-master/src/compact.cpp:290-313 | the links of the active variables are mapped in place, all other variables are skipped |
| `Compact.Compacter.MapQueue` | cadical-master/src/compact.cpp:290-313 | after mapping the table of links the decision queue is the image of its active variables in their order |
| `Compact.Compacter.MapTrail` | cadical-master/src/compact.cpp:140-154 | literals of unmapped variables are flushed, the others mapped with their sign |
| `Compact.TrailCollapses` | cadical-master/src/compact.cpp:319-327 | only the first fixed literal stays on the trail, with its value |
| `Compact.Compacter.MapFrozen` | cadical-master/src/compact.cpp:351-362 | counters of variables that become the same variable are added up in place |
| `Compact.FrozenConserved` | cadical-master/src/compact.cpp:351-362 | the new counters are the sums of the old ones exactly if no unmapped variable in the new range is frozen, since its counter would stay |
| `Compact.Compacter.MapValues` | cadical-master/src/compact.cpp:402-414 | the new table of values |
| `Compact.Compacter.CompactAll` | cadical-master/src/compact.cpp:162-460 | all tables are mapped consistently: external variables, clauses, queue, trail, values and summed counters |
| `Runs.TechniqueStep` | cadical-master/src/elim.cpp:264-462 | every technique, also learning, promoting and forgetting redundant clauses, is a step: models of the irredundant clauses extend backward, and all clauses follow from all clauses before |
| `Runs.LearnedOutlives` | cadical-master/src/block.cpp:165-181 | a concrete run: a learned clause survives blocking although it does not follow from the irredundant clauses any more, and the second blocking is only possible since it is ignored |
| `Inprocessing.BlockStep` | cadical-master/src/block.cpp:690-733 | blocking on one literal is a step of a run, also next to fixed literals and redundant clauses |
| `Inprocessing.CoverStep` | cadical-master/src/cover.cpp:323-463 | one candidate of covered clause elimination is a step of a run |
| `Inprocessing.ConditionStep` | cadical-master/src/condition.cpp:155-890 | a round of globally blocked clause elimination is a step of a run |
| `Inprocessing.EliminateStep` | cadical-master/src/elim.cpp:664-718 | eliminating a variable is a step of a run if no live clause with it contains a literal fixed to true |
| `Inprocessing.SubstituteStep` | cadical-master/src/decompose.cpp:420-696 | substitution is a step of a run; it rewrites irredundant and redundant clauses |
| `Inprocessing.ExtendRun` | cadical-master/src/extend.cpp:114-197 | extending internal values that satisfy the current irredundant clauses over the flat stack of a whole run gives values that satisfy the original clauses |
| `LratClauses.FlagMeaning` | cadical-master/src/lratbuilder.cpp:885-902 | the clauses are refuted by naive unit propagation exactly if the builder is inconsistent or has a live empty clause |
| `LratClauses.RecheckedMeaning` | cadical-master/src/lratbuilder.cpp:885-902 | after a reason or the inconsistent clause is deleted, the flag is set exactly if a clause with literals is refuted |
| `LratBuilder.ForgetEmptyClause` | cadical-master/src/lratbuilder.cpp:871-902 | adding a unit and the empty clause and deleting the unit leads to a consistent builder with a live empty clause |
| `LratBuilder.RefuseEmptyClause` | cadical-master/src/lratbuilder.cpp:636-682 | in that state the builder refuses the empty clause although it is there |
| `LratState.ConflictRefutes` | cadical-master/src/lratbuilder.cpp:467-537 | a conflict with its recorded reasons is a refutation by naive unit propagation |
| `DrivingClause.BestPosition` | cadical-master/src/analyze.cpp:617-640 | the position of a maximal variable among those that would be unassigned |
| `Spanning.ExactResult` | cadical-master/src/elim.cpp:547-595 | after resolving, the clauses without the pivot are equivalent to those before together with the resolvents of the pairs, with gates only those of a gate clause with another clause |
| `Spanning.PairSpans` | cadical-master/src/elim.cpp:264-462 | whatever one resolution leaves (units, strengthened copies, new clauses) follows without the pivot from the clauses without it and the resolvent |
| `Gates.TidyKept` | cadical-master/src/gates.cpp:731-747 | looking for gates, with all units learned on the way, leaves no true literal in a live clause with the pivot if there was none |
| `Misleading.Run` | cadical-master/src/elim.cpp:664-718 | the gate search and the elimination on six concrete clauses, one of them satisfied: the variable is eliminated, and afterwards a model of the result cannot be extended |
| `Misleading.GateOnly` | cadical-master/src/gates.cpp:504-575 | the only gate found there consists of the four clauses, including the satisfied one |
| `Flip.AskAndFlip` | cadical-master/src/flip.cpp:153-245 | asking and then flipping gives the same answer twice, and all clauses stay satisfied |
| `Flip.WatchedSatisfied` | cadical-master/src/flip.cpp:104-147 | on a watched model every clause that counts is satisfied |
| `Compact.FrozenKept` | cadical-master/src/compact.cpp:351-362 | no counter is lost if every frozen variable is active or fixed, as it is after freezing |
| `Trails.AnalysisReady` | cadical-master/src/analyze.cpp:980-1065 | a trail as backtracking keeps it is one that conflicts can be analyzed on, if its reasons and root units are live clauses |
| `Trails.BacktrackForAnalysis` | cadical-master/src/backtrack.cpp:76-162 | after backtracking the next conflict can be analyzed |
| `Checker.Checker.AddAndDelete` | cadical-master/src/checker.cpp:496-577 | a clause is stored exactly if it is neither ignored, falsified nor unit; deleting it afterwards under its identifier succeeds whatever the order of its literals, and removes exactly that clause if it was not there before |
| `Checker.OthersStay` | cadical-master/src/checker.cpp:302-330 | deleting a clause leaves clauses stored under other identifiers with the same nonce alone |
| `LratSpec.HashInjective` | cadical-master/src/lratchecker.cpp:200-205 | since nonces are odd, different identifiers that use the same nonce have different hashes modulo 2^64 |
| `LratSpec.FollowMeaning` | cadical-master/src/lratchecker.cpp:296-367 | a chain is followed exactly if some prefix of it refutes: its hints are known, pairwise different and not tautological, each but the last one forces one new literal in turn, and the last one is falsified |
| `LratSpec.RefutationFollowed` | cadical-master/src/lratchecker.cpp:296-367 | a refutation stays one when hints are appended: the checker stops at the falsified clause |
| `LratChecker.SortCanonical` | cadical-master/src/lratchecker.cpp:614-621 | two clauses agree after sorting exactly if one is a permutation of the other |
| `LratChecker.LratChecker.WeakenAndRestore` | cadical-master/src/lratchecker.cpp:584-664 | a clause weakened, deleted and restored in any order of its literals is accepted exactly if it is a permutation of the weakened one, and the table is as before |
| `Cover.ExhaustedIntro` | cadical-master/src/cover.cpp:357-367 | when both stacks are processed without success, the covered set is extended by literals that follow, and neither asymmetric nor covered literal addition is possible |
| `Cover.AsymmetricEntailed` | cadical-master/src/cover.cpp:369-373 | a purely asymmetric success means that the clause follows from the remaining clauses |
| `Condition.MaximalMark` | cadical-master/src/condition.cpp:656-672 | every part of the assignment that satisfies all clauses it touches lies in the autarky part: a literal negated in a clause without true literals is in no such part |
| `Condition.HopelessIntro` | cadical-master/src/condition.cpp:684-702 | without an autarky literal in the candidate, no conditional autarky within the assignment contains one of its literals |
| `Elim.CrowdedBefore` | cadical-master/src/elim.cpp:473-540 | too many clauses or too long ones in the flushed lists mean the same on the clauses before the gate search |
| `Elim.SortedCounted` | cadical-master/src/elim.cpp:664-700 | flushed and sorted occurrence lists hold exactly the live clauses with the literal, each once |
| `Gates.NoBinaryGateKept` | cadical-master/src/gates.cpp:731-747 | clauses that became garbage while looking for one kind of gate do not make another kind appear |
| `Gates.NoXorIntro` | cadical-master/src/gates.cpp:628-722 | a base clause of which one sign pattern has no clause is no XOR gate |
| `Substituter.ResultIntro` | cadical-master/src/decompose.cpp:506-696 | after marking the postponed clauses all old clauses are dealt with, and no literal of a live clause is substituted |
| `Substituter.NotSatisfied` | cadical-master/src/decompose.cpp:506-600 | a clause of which literals are left has an image that is neither satisfied nor tautological |
| `Compact.LostLiterals` | cadical-master/src/compact.cpp:87-101 | exactly the literals of variables that are neither active nor fixed are not mapped |
| `Removal.FirstExposed` | cadical-master/src/minimize.cpp:29-30 | aborting at a literal before all seen literals of its level loses nothing: it is exposed anyway |
| `Removal.LonelyExposed` | cadical-master/src/minimize.cpp:27-28 | aborting at the only seen literal of a level loses nothing |
| `Removal.NoneKept` | cadical-master/src/minimize.cpp:25-45 | a literal without kept literals of its level at or before it is exposed |
| `Removal.CachedKeep` | cadical-master/src/minimize.cpp:42-46 | cached successes and failures stay right when the next literal in trail order is kept |
| `Removal.ExposedMore` | cadical-master/src/minimize.cpp:34-41 | whether a literal is exposed depends only on kept literals that are not later on the trail |

## Left out

- Schedules, limits that only end a round early, scores, restarts, statistics, messages, options and everything with floating point: they do not affect the meaning of clauses.
- The remaining inprocessing techniques (subsumption, vivification, probing, ternary resolution, transitive reduction, lucky phases, instantiation, restoring clauses incrementally) and the main search loop; `backward.cpp` keeps two variables across iterations and is not modelled.
- LRAT chains inside elimination, gate extraction and decomposition: the ids they push are not modelled, chains are modelled in the builder, the checker, analysis and minimization.
- The external variable mapping is the identity when entries are pushed; the arena, moving clauses, and memory management are not modelled, so clauses never move.
- LratChecker: assumption and constraint conclusions, finalization and reports are not modelled; the counter of clauses does not wrap at 64 bit; the outcome of the additional resolution check is a parameter.
- Checker: the garbage collection threshold is a parameter; literals of unknown variables are not imported separately.
- LratBuilder: the hash chain is a search over the clause list; garbage clauses stay in the list and their watches are dropped during propagation; ids are assumed to be new when clauses are added, as the LRAT checker demands.
- Analyzer: on-the-fly strengthening, shrinking, bumping and the glue are not modelled; propagation of watches in `find_conflict_level` is left out.
- Cover: `cover_round`, which schedules the clauses, and the proof calls are not modelled.
- Condition: the counters of the remaining assignment are statistics; asynchronous termination is not modelled.
- Elim: the score heap and the counters of occurrences only determine the order of candidates; backward subsumption after each candidate is not modelled.
- Gates: the options that switch off single gate kinds; the arity limit keeps the sign numbers far below 32 bits, so they are unbounded here.
- `Gates.GateFinder.TryToEliminateVariable`: reconstruction is stated under the condition that no live clause with the pivot contains a fixed true literal, see above; it goes one way, since satisfied clauses can be harmless.
- `Inprocessing.EliminateStep`: the same condition is required.
- Inprocessing: the external variable mapping is the identity for entries pushed, and clauses added or restored between runs are not modelled.
- Block: the schedule and the counters of occurrences; how many clauses contain a literal is a parameter of `BlockLiteral`, and blocked clauses are not rescheduled.
- Heap: positions are natural numbers, with the same value for elements not contained; a strict total order is assumed, as the heap demands.
- Backtrack: notifying external propagators, saving best phases and tainted literals are not modelled; the decision heap is the set of its elements here.
- Flip: `propergate`, which brings the watches in order before, is a precondition; garbage clauses are those that are neither live nor binary.
- Compact: remapping assumptions, constraints, unit clause ids, the relevance counters and the score heap; vectors of other types are mapped by the same procedure.
- Substituter: propagating the units found at the end, LRAT chains, and the flags of substituted variables.
- `Analyzer.Analyzer.MinimizeLiteral`: if a chain of reasons is longer than the recursion limit a literal may be kept needlessly; which ones then depends on the order of the attempts, since failures are cached, and is not stated.  That the level of a propagated literal is one of those of its reason, as `propagate.cpp` computes it, is an assumption of the exact statement.
