# Sceptical acceptance under preferred semantics: a verified model

An abstract argumentation framework is a directed graph of arguments and attacks. The program decides whether a query
argument lies in every preferred extension, that is, in every maximal admissible set. It rejects self-attackers, accepts
unattacked queries, restricts the framework to the backward cone of the query, peels off the grounded extension, and
then runs a task-parallel search: each task forms the reduct by the extension built so far, encodes "non-empty
admissible set" as clauses, enumerates models while blocking every found set with its supersets, and rejects, prunes or
creates a task. The clauses are solved by the vendored solver CaDiCaL.

The project has two parts.

**The decision procedure**, from end to end. `Semantics` states conflict-free, admissible, preferred and sceptically
accepted over finite sets and proves what the procedure rests on: modularisation over reducts, directionality, and that
peeling keeps the answer. `VectorBitSets`, `Framework`, `Reducts`, `SatSolvers`, `Encodings`, `Cones`, `PreProcessor`
and `ScepticalChecks` follow the source files of these names; their methods are proved against the set-level
definitions. `TaskPool` is the search as a step relation over a pool of tasks, the shared flag and the written
extension, and `TaskBounds` bounds every schedule. `Search` is the code of a task cut at its looks at shared data,
`Solvers` runs it under an arbitrary scheduler. The main theorem is the contract of `Solvers.Solve`. Two modules state
where the program does less than its documentation says, each with the exact condition. `Shortcomings`: three branches
reject without writing an extension (the query attacks itself, a peeled-off argument attacks it, the first answer of a
task is "no set"), and a rejection is sure to come with one exactly when none of them can be taken, read off from the
whole framework. `SecondQueries`: a later query on the same framework may meet marks of the first; the answer is right
for the part that the search then finds, it is right for every attack relation exactly when no argument but the query is
marked, and a method that asks twice is proved to return rejected for a second query that is accepted.

**Kernels of the solver**, each on its own data:

- `Tarjan`, `Decompose`: strongly connected components of the binary implication graph, with duplicates on the work
  stack.
- `Extensions`, `Reconstruction`, `Internals`: the flat reconstruction stack, its backward pass, its two traversals, and
  the state the simplifications share. The invariant of that state is that every model of what remains extends to one of
  the given clauses. The traversals put the identity of a clause together from two signed words, which yields the identity
  that was pushed exactly when it is below 2^31 or at least 2^64 - 2^31.
- `Blocking`, `BlockedElimination`, `EliminationPropagation`, `Elimination`, `VariableElimination`, `Equivalences`,
  `Substitution`: the simplifications, each keeping the invariant. `Inprocessing` composes them: any run of passes in
  any order, with the effect of each step.
- `CheckerWatches`, `CheckerStages`, `CheckerClauses`, `Checkers`: the proof checker with two watched literals and
  blocking literals. `CheckerRuns`: whole runs of additions and deletions.
- `Heaps`: the indexed binary heap. `FirstUip`: conflict analysis.
- `LratChain`, `LratTrail`, `LratSteps`, `LratClauses`, `LratBuilders`: the builder of antecedent chains, with its own
  propagation over unit and watched clauses. Every literal of its trail has a recorded cause, and the trail stays in
  topological order under every operation; a chain that is returned passes the check of a proof checker, and when none
  is, a propagated assignment falsifies the clause. A live empty clause can be forgotten by a deletion; when exactly is
  stated.

`Sets`, `Graphs`, `Cnf` and `Wrappers` hold what the others share. `dafny verify dfyconfig.toml` checks everything.

Conventions of the model. Classes with fields follow the source's objects; vectors, lists, watch lists and clauses that
the source changes in place are fields of sequence type that the methods reassign, and the distance marks, counters and
search tables are arrays. A thrown exception is the value `Exception`. A clause of the solver is named by its index, and
literals of the solver are non-zero integers as in the source. Preconditions are those the source asserts or relies on.
Where a method has no counterpart of its own in the source it is a loop or branch of the cited function.

## Model

| member | source | states |
|---|---|---|
| `Solvers.Solve` | src/logic/Solver_DS_PR.cpp:352-376 | for every framework, query, schedule of the tasks, choice of models by the solver, and marks left by earlier searches: the answer is right for the part of the framework that the search finds; it is the outcome of some run of the pool, or an early one; a rejection writes an extension whenever the query does not attack itself, nothing peeled off attacks it and each preferred extension without it attacks it; what is written attacks the query and is admissible with the peeled-off part. When no mark hides a member of the cone, all of this holds for the whole framework |
| `Solvers.AnswersWhole` | src/logic/Solver_DS_PR.cpp:352-376 | an answer for the cone is the answer for the framework, what was peeled off is the grounded extension of the cone, and the condition for a written extension is that on the preferred extensions of the framework |
| `Solvers.CheckRejectionParallel` | src/logic/Solver_DS_PR.cpp:290-347 | whatever order the scheduler runs the tasks in, the loop ends, the steps taken are a legal run of the pool with this flag and this output, and the flag is set exactly when the query is not sceptically accepted on the active arguments; what is written is an admissible set that attacks the query, and something is written for a rejection when each preferred extension without the query attacks it |
| `Solvers.StepPool` | src/logic/Solver_DS_PR.cpp:290-347 | a piece of code of one worker is one enabled step of the abstract pool: the workers and the shared objects keep standing for the pool |
| `Solvers.StepWorker` | src/logic/Solver_DS_PR.cpp:18-285 | each piece of a task between two looks at shared data is the step of the abstract task, including the flag it sets, the extension it writes and the task it creates |
| `Solvers.WitnessProvesRejection` | src/logic/ScepticalCheck.cpp:3-16 | an extension found after preprocessing, with the grounded part added, is admissible in the original framework and attacks the query |
| `Semantics.Modularisation` | src/logic/Reduct.cpp:3-55 | inside the reduct of an admissible E the admissible sets are exactly those whose union with E is admissible |
| `Semantics.PreferredModularisation` | src/logic/Solver_DS_PR.cpp:43-55 | the preferred extensions above an admissible E are exactly E plus a preferred extension of its reduct, both directions |
| `Semantics.Directionality` | src/logic/PreProcessor_DS_PR.cpp:3-37 | the preferred extensions of an attacker-closed part are exactly the intersections of the framework's preferred extensions with it |
| `Semantics.ConeDecides` | src/logic/PreProcessor_DS_PR.cpp:114-135 | restricting the framework to an attacker-closed part keeps the answer for every argument in it, both directions |
| `Semantics.PeelingPreservesAcceptance` | src/logic/PreProcessor_DS_PR.cpp:43-109 | taking away an admissible set that is part of every set closed under defence keeps the answer for every argument that is left |
| `Semantics.SelfAttackerRejected` | src/logic/PreProcessor_DS_PR.cpp:117-120 | a query that attacks itself is in no preferred extension, so the early rejection is right |
| `Semantics.UnattackedAccepted` | src/logic/PreProcessor_DS_PR.cpp:122-125 | an unattacked query is in every preferred extension, so the early acceptance is right |
| `Semantics.AttackingSetRejects` | src/logic/ScepticalCheck.cpp:3-16 | an admissible set that attacks the query is enough to reject it |
| `VectorBitSets.VectorBitSet.Copy` | include/util/VectorBitSet.h:27-43 | one loop over the table copies both halves; the copy equals the original exactly when the list is no longer than the table |
| `VectorBitSets.ValidSetsCopyWhole` | include/util/VectorBitSet.h:27-43 | the sets the program builds always fit their tables, so copying loses nothing |
| `Framework.AF.FinishInitialization` | src/logic/AF.cpp:26-79 | both indexes hold exactly the attackers and the victims of every argument, in whatever order the attacks come; the self-attack table and the symmetric attacks are exact |
| `Framework.AF.AddAttack` | src/logic/AF.cpp:5-14 | adds the attack and answers whether it was new |
| `Framework.AF.Initialize` | src/logic/AF.cpp:16-24 | tables for arguments 0 to n, and the only place where the distance marks are cleared |
| `Reducts.GetReduct` | src/logic/Reduct.cpp:3-21 | list and table of the result hold exactly the active arguments that are neither the argument nor attacked by it |
| `Reducts.GetReductSet` | src/logic/Reduct.cpp:26-55 | the fold with its early exits yields the reduct by the whole set for every order of the list; the exception is thrown exactly for the empty list |
| `Reducts.ReductOfUnion` | src/logic/Reduct.cpp:40-52 | reducing step by step is reducing by the union |
| `SatSolvers.SatSolver.Solve` | include/logic/SatSolver.h:37-41 | the oracle: true exactly when some assignment satisfies the clauses, and then the stored model is one |
| `SatSolvers.OccurringVariablesDecide` | include/logic/SatSolver.h:30-41 | restricting a model to the variables that occur keeps it a model |
| `Encodings.EncodingExact` | src/logic/Encoding.cpp:6-143 | the models of the clauses restricted to the accept-variables are precisely the non-empty admissible sets of the active arguments |
| `Encodings.EncodedSetIsAdmissible` | src/logic/Encoding.cpp:6-143 | every model yields a non-empty admissible set, and its reject-variables are true exactly for the arguments that set attacks |
| `Encodings.AdmissibleSetIsEncoded` | src/logic/Encoding.cpp:6-143 | every non-empty admissible set has a model that is read back as that set |
| `Encodings.AddClausesNonemptyAdmissibleSet` | src/logic/Encoding.cpp:128-143 | the clauses added are satisfied by exactly the assignments that meet the constraints of all active arguments and accept at least one |
| `Encodings.AddAdmissible` | src/logic/Encoding.cpp:102-123 | the clauses for one argument mean exactly its constraint: not accepted and rejected, rejected exactly when an active attacker is accepted, conflict-free and defended |
| `Encodings.AddConflictFreePerAttacker` | src/logic/Encoding.cpp:60-76 | the clause pushed, with the unit clause for a self-attack |
| `Encodings.AddDefensePerAttacker` | src/logic/Encoding.cpp:81-97 | the clause pushed, and none for a self-attack |
| `Encodings.AddRejectedClausesPerAttacker` | src/logic/Encoding.cpp:42-55 | the clause pushed and the literal added to the clause of reasons |
| `Encodings.AddComplementClause` | src/logic/Encoding.cpp:148-168 | afterwards exactly the models that contain the set of the current model, and so all its supersets, are excluded |
| `Encodings.GetSetFromSolver` | src/logic/Decoding.cpp:6-18 | the list read off the model holds exactly the active arguments that are true, each once |
| `Cones.CalculateConeInfluence` | src/logic/PreProcessor_DS_PR.cpp:3-37 | the search finds exactly the arguments from which a chain of attacks the marks do not hide leads to the query; its marks are shortest distances below the number of arguments, and no other mark changes |
| `Cones.StaleMarksHideCone` | src/logic/AF.cpp:22-23 | the search finds the whole cone exactly when no mark left by an earlier search is on another member of the cone |
| `Cones.ConeIsAttackerClosed` | src/logic/PreProcessor_DS_PR.cpp:3-37 | no argument outside the cone attacks into it |
| `Cones.CalculatePriority` | src/logic/Prioritizer.cpp:4-21 | the priority is the largest 32-bit difference of any listed argument; when all distances are below the number of arguments the subtraction does not wrap and belongs to the closest argument; the exception is thrown exactly for the empty list |
| `PreProcessor.ReduceByGrounded` | src/logic/PreProcessor_DS_PR.cpp:43-109 | the counter worklist on whatever part the search has found, also when attackers are missing from it: an accepting answer means that the query is peeled off, a rejecting one that something peeled off attacks it, and otherwise the output is the reduct by what is peeled off and holds the query |
| `PreProcessor.PeeledOffIsGrounded` | src/logic/PreProcessor_DS_PR.cpp:43-109 | what is peeled off is the least set that has every member all of whose attackers are found and attacked by it; when no attacker is missing that is the grounded extension, both directions |
| `PreProcessor.PeeledOffExists` | src/logic/PreProcessor_DS_PR.cpp:43-109 | there is such a set, and it is admissible in the part |
| `PreProcessor.PeelingStep` | src/logic/PreProcessor_DS_PR.cpp:63-106 | one round keeps the invariant: accepted so far is admissible and inside every set that has all members it answers for, every entry of the queue has all its attackers rejected, and no argument is queued twice |
| `PreProcessor.PeelingEnds` | src/logic/PreProcessor_DS_PR.cpp:63-106 | when the queue is used up it is exactly what is to be peeled off |
| `PreProcessor.DecrementVictims` | src/logic/PreProcessor_DS_PR.cpp:86-101 | the counters stay exact when one more argument is rejected, never underflow, and exactly the arguments whose counter reaches zero join the queue |
| `PreProcessor.InitializeCounters` | src/logic/PreProcessor_DS_PR.cpp:45-57 | the counters start as numbers of attackers, and the queue as the unattacked arguments |
| `PreProcessor.PeelingVerdictDecides` | src/logic/PreProcessor_DS_PR.cpp:43-109 | accepted and rejected answers are right for the preferred semantics of the part, and for an unknown one the reduct gives the same answer |
| `PreProcessor.Process` | src/logic/PreProcessor_DS_PR.cpp:114-135 | the report is right for the part that the search finds with the marks there are: rejected for a self-attacker, otherwise the verdict of the peeling; and the marks afterwards are the distances of what was found, the old marks elsewhere |
| `ScepticalChecks.CheckRejection` | src/logic/ScepticalCheck.cpp:3-16 | true exactly when a member of the list attacks the argument |
| `ScepticalChecks.CheckTerminateExtensionBuild` | src/logic/ScepticalCheck.cpp:21-34 | true exactly when the argument is in the list |
| `ScepticalChecks.ExtendExtension` | src/logic/Solver_DS_PR.cpp:4-13 | the merged list holds the entries of both lists with their multiplicities, in no promised order |
| `TaskPool.EveryScheduleDecides` | src/logic/Solver_DS_PR.cpp:18-347 | in every run: once all tasks have returned the flag is set exactly when the query is not sceptically accepted; a set flag is right at any time; whatever is written attacks the query and is admissible |
| `TaskPool.StepKeepsInvariant` | src/logic/Solver_DS_PR.cpp:18-285 | one step of one task keeps: every extension built is admissible, misses the query and is not blocked, and while the flag is unset each preferred extension without the query is still reachable by a live task |
| `TaskPool.RunKeepsInvariant` | src/logic/Solver_DS_PR.cpp:18-285 | the invariant over whole runs |
| `TaskPool.StepKeepsCover` | src/logic/Solver_DS_PR.cpp:93-272 | while the flag stays unset, what a task covers is covered afterwards by it or by the task it creates |
| `TaskPool.FoundSetSplitsCover` | src/logic/Solver_DS_PR.cpp:195-259 | a found set splits the extensions a task covers: those that contain it go to the new task, and those with the query are not missed |
| `TaskPool.SmallReductCoversNothing` | src/logic/Solver_DS_PR.cpp:49-55 | a reduct of fewer than two arguments holds the query alone, so returning loses no preferred extension without it |
| `TaskPool.ExhaustedCoversNothing` | src/logic/Solver_DS_PR.cpp:104-133 | when the solver has no further set, every extension above contains a blocked set: blocking supersets has lost nothing |
| `TaskPool.NothingToAddIsPreferred` | src/logic/Solver_DS_PR.cpp:113-130 | when the first answer is no set, the extension built is preferred |
| `TaskPool.FinishedDecides` | src/logic/Solver_DS_PR.cpp:325-347 | when all tasks have returned, flag and sceptical acceptance exclude each other and one holds |
| `TaskPool.Progress` | src/logic/Solver_DS_PR.cpp:18-285 | while a task has not returned, some step is enabled |
| `TaskBounds.EveryScheduleTerminates` | src/logic/Solver_DS_PR.cpp:93-272 | no schedule is longer than a bound that depends only on the number of active arguments |
| `TaskBounds.StepUsesWeight` | src/logic/Solver_DS_PR.cpp:93-272 | every step of every task uses up weight, new tasks included |
| `TaskBounds.BlockingShrinks` | src/logic/Encoding.cpp:148-168 | blocking a found set with its supersets strictly reduces the number of candidates |
| `Search.ModelIsCandidate` | src/logic/Solver_DS_PR.cpp:104-136 | a model of the clauses is a non-empty admissible set of the reduct that contains no set found earlier |
| `Search.CandidateHasModel` | src/logic/Solver_DS_PR.cpp:104-136 | every such set is the set of some model, so the enumeration is complete |
| `Search.Worker.Ask` | src/logic/Solver_DS_PR.cpp:94-111 | blocks the last found set and asks: an answer is a fresh candidate, never empty, so the error exit at line 165 cannot be reached; no answer means that no candidate is left |
| `Search.Worker.Begin` | src/logic/Solver_DS_PR.cpp:24-88 | reads the flag, forms the reduct, returns when it is small, encodes: the step of the abstract task |
| `Search.Worker.UseSet` | src/logic/Solver_DS_PR.cpp:170-259 | rejects and sets the flag, prunes, or creates exactly the task for the joined extension |
| `Search.Worker.Iterate` | src/logic/Solver_DS_PR.cpp:93-259 | one iteration of the loop is the step of the abstract task for the answer it got |
| `Search.Worker.CreateTask` | src/logic/Solver_DS_PR.cpp:206-257 | the new task builds on the joined extension, and its priority is the largest 32-bit difference between the number of arguments and the distance of one of its members; it is a proper number because the distances are |
| `Shortcomings.WitnessGuaranteed` | include/logic/Solver_DS_PR.h:31-39 | over whole calls and the whole framework: every rejection comes with a written extension under every schedule if and only if the query does not attack itself, the grounded extension of its cone does not attack it, and each preferred extension of the framework that omits it attacks it |
| `Shortcomings.PartWrites` | src/logic/Solver_DS_PR.cpp:352-376 | the same on the part that a search finds, whatever the marks |
| `Shortcomings.PoolWrites` | src/logic/Solver_DS_PR.cpp:290-347 | the same for the pool of tasks alone: no schedule is silent exactly when each preferred extension without the query attacks it |
| `Shortcomings.SilentRun` | src/logic/Solver_DS_PR.cpp:113-130 | whenever some preferred extension misses the query without attacking it, there is a schedule that rejects and writes nothing |
| `Shortcomings.SilentCircle` | src/logic/Solver_DS_PR.cpp:113-130 | three arguments that attack each other in a circle: the pool itself rejects and writes nothing |
| `Shortcomings.SilentSelfAttack` | src/logic/PreProcessor_DS_PR.cpp:117-120 | a self-attacking query is rejected without an extension |
| `Shortcomings.SilentGroundedAttack` | src/logic/PreProcessor_DS_PR.cpp:73-75 | a query attacked by an unattacked argument is rejected without an extension in every outcome, although each preferred extension without it attacks it |
| `SecondQueries.UnhiddenIsRight` | src/logic/AF.cpp:16-24 | when no mark is on another member of the cone the answer is the one for the whole framework |
| `SecondQueries.RightForAllAttacks` | src/logic/AF.cpp:16-24 | a table of marks leads to the right answer for every attack relation if and only if no argument but the query is marked |
| `SecondQueries.RightDespiteMarks` | src/logic/PreProcessor_DS_PR.cpp:17-32 | for a single framework the converse fails: with 2 and 3 attacking 1 and a mark on 3 the cone is not found, and the answer is right all the same |
| `SecondQueries.AskTwice` | src/logic/AF.cpp:16-24 | a method that sets up 3 attacking 2 and 2 attacking 1 and asks for 2 and then for 1 is proved to answer the second query with rejected, although argument 1 is in every preferred extension |
| `Tarjan.VisitKeepsInvariant` | lib/cadical/src/decompose.cpp:391-414 | the pre-fix step keeps the search invariant |
| `Tarjan.RelowerKeepsInvariant` | lib/cadical/src/decompose.cpp:228-246 | a second post-fix of a literal that a duplicate on the work stack brings back keeps the invariant |
| `Tarjan.FinishKeepsInvariant` | lib/cadical/src/decompose.cpp:382-389 | the post-fix step of a literal that is no entry keeps the invariant |
| `Tarjan.CompleteKeepsInvariant` | lib/cadical/src/decompose.cpp:251-380 | popping a component keeps the invariant |
| `Tarjan.ComponentExact` | lib/cadical/src/decompose.cpp:251-380 | when the reachable minimum is the own index, the literals above it on the stack are exactly those that reach it and are reached by it |
| `Decompose.Decomposer.DecomposeRound` | lib/cadical/src/decompose.cpp:188-418 | the search ends; it reports a contradiction exactly when some literal and its negation imply each other; otherwise every active literal is mapped to the least literal of its component, a frozen one to itself; the counter of substituted literals is zero exactly when each literal represents itself |
| `Decompose.Decomposer.Step` | lib/cadical/src/decompose.cpp:207-416 | one turn of the work loop keeps the invariant and makes progress in spite of duplicates on the work stack |
| `Decompose.Decomposer.ScanComponent` | lib/cadical/src/decompose.cpp:310-343 | finds the negation of the entry exactly when it is in the component, and otherwise the literal with the least variable |
| `Decompose.Decomposer.PopComponent` | lib/cadical/src/decompose.cpp:350-375 | takes exactly the component off the stack and sets its entries of the table |
| `Decompose.MutualNegated` | lib/cadical/src/decompose.cpp:188-418 | the implication graph is skew-symmetric: components and their negations correspond |
| `Decompose.ConflictSpreads` | lib/cadical/src/decompose.cpp:318-336 | testing the entry of a component for its negation is enough to find every contradiction |
| `Equivalences.RepresentativesMap` | lib/cadical/src/decompose.cpp:350-375 | the map is idempotent, commutes with negation and sends each literal to an equivalent one |
| `Equivalences.MutualTrue` | lib/cadical/src/decompose.cpp:432-496 | literals that imply each other have the same value in every model |
| `Equivalences.ContradictoryUnsatisfiable` | lib/cadical/src/decompose.cpp:318-336 | a literal and its negation in one component: no model |
| `Equivalences.RewrittenMeaning` | lib/cadical/src/decompose.cpp:525-593 | in every model that agrees with the map, the rewritten clause is true exactly when the clause is |
| `Equivalences.SameUnderEquivalent` | lib/cadical/src/decompose.cpp:506-697 | the rewritten clauses together with the equivalences have exactly the models of the clauses before |
| `Equivalences.EquationsRemoved` | lib/cadical/src/decompose.cpp:442-496 | once no clause mentions the substituted variables, their equivalences can be moved to the reconstruction stack |
| `Substitution.DecomposeRound` | lib/cadical/src/decompose.cpp:153-740 | one round on the solver state: the graph is that of the binary clauses; a contradiction in it is reported; otherwise all literals are mapped to their representatives, exactly the equivalences are pushed, and the clauses are the ones that visiting them one after the other gives, or unchanged when nothing is substituted; no live clause mentions a substituted variable; active are exactly the variables that were, have no value and are not substituted by one without a value; and what remains reconstructs the original models |
| `Substitution.SubstituteClause` | lib/cadical/src/decompose.cpp:506-697 | one clause is put off as satisfied, made a unit, found empty, replaced by a new clause with the old one as garbage when one of its first two literals changes, or shrunken in place; the formula keeps its meaning under the map, and an empty result means that there is no model |
| `Substitution.BuildSubstituted` | lib/cadical/src/decompose.cpp:525-593 | a clause is found satisfied exactly when it has a true literal, one with a true representative, or two whose representatives clash; otherwise the new clause has the representatives that are not false, in the order in which they are met, without duplicates |
| `Substitution.SubstitutionFaithful` | lib/cadical/src/decompose.cpp:432-740 | substitution with its pushes keeps every model recoverable |
| `Substitution.PushEquivalences` | lib/cadical/src/decompose.cpp:442-496 | two binary clauses for each substituted variable, in order |
| `Substitution.MarkSubstituted` | lib/cadical/src/decompose.cpp:713-725 | a variable is active afterwards exactly when it was at the start of the round, has no value, and is not substituted by a representative without a value |
| `Extensions.External.Extend` | lib/cadical/src/extend.cpp:114-197 | the backward pass over the flat stack of integers is the fold that repairs the model entry by entry from the last to the first |
| `Extensions.External.PushClauseOnExtensionStack` | lib/cadical/src/extend.cpp:47-61 | the words pushed are those of one more entry: witness, identity in two words, clause; the low word of the identity is a signed 32-bit integer congruent to it |
| `Extensions.Layout` | lib/cadical/src/extend.cpp:114-197 | where the parts of every entry lie in the flat stack, the low word of the identity included |
| `Extensions.IdReadBack` | lib/cadical/src/extend.cpp:211-214 | an identity put together from its two words is the one that was pushed if and only if it is below 2^31 or at least 2^64 - 2^31, because the low word is sign-extended; it is read back as zero, against the assertion of the traversal, if and only if its low half is zero |
| `Extensions.External.TraverseWitnessesBackward` | lib/cadical/src/extend.cpp:201-230 | the visitor is shown exactly the entries from the last to the first, each with its clause and its witness in the order in which they were pushed, until it declines; nothing is shown of an unsatisfiable formula |
| `Extensions.External.TraverseWitnessesForward` | lib/cadical/src/extend.cpp:232-262 | the same from the first entry to the last |
| `Extensions.External.ScanClause` | lib/cadical/src/extend.cpp:149-158 | the scan stops at the separator and answers whether the clause is true |
| `Extensions.External.FlipWitness` | lib/cadical/src/extend.cpp:172-190 | exactly the false literals of the witness are flipped |
| `Reconstruction.FaithfulRemove` | lib/cadical/src/extend.cpp:114-197 | moving a clause to the stack keeps every model recoverable when all its resolvents on the witness are entailed by the rest |
| `Reconstruction.RepairKeepsOthers` | lib/cadical/src/extend.cpp:114-197 | flipping the witness of a false clause keeps all remaining clauses true |
| `Reconstruction.FaithfulEquisatisfiable` | lib/cadical/src/extend.cpp:114-197 | the remaining clauses are satisfiable exactly when the original ones are |
| `Reconstruction.TautologicalResolvent` | lib/cadical/src/block.cpp:43-145 | a tautological resolvent is true in every model |
| `Reconstruction.NonTautologicalResolvent` | lib/cadical/src/block.cpp:43-145 | a resolvent that is not tautological is false in some model, so the syntactic test is exact |
| `Internals.Internal.constructor` | lib/cadical/src/internal.hpp:123-260 | the solver state starts with the clauses as given, nothing on the stack |
| `Internals.Internal.ConnectOccs` | lib/cadical/src/occs.cpp:9-13 | the occurrence lists hold exactly the live clauses of each literal |
| `Internals.Internal.MarkClause` | lib/cadical/src/clause.cpp:24-27 | the marks are exactly those of the clause |
| `Internals.Internal.AssignUnit` | lib/cadical/src/propagate.cpp:178-183 | an entailed unit is assigned without changing the models |
| `Internals.Internal.WeakenClause` | lib/cadical/src/extend.cpp:47-61 | a clause goes to the stack with its witness, and models stay recoverable |
| `Internals.RecordedMore` | lib/cadical/src/extend.cpp:47-61 | pushing one more clause that becomes garbage keeps: the clauses that have become garbage, and no others, are on the stack, each once and with its witness |
| `Internals.DistinctByMultiset` | lib/cadical/src/block.cpp:43-145 | distinctness of literals depends only on their multiset, so permuting a clause keeps it |
| `Blocking.IsBlockedClause` | lib/cadical/src/block.cpp:43-145 | true exactly when every resolvent on the literal with a live clause is tautological; clauses and the list are only permuted, on success the list is restored exactly, on failure the clause that prevents blocking comes first |
| `Blocking.ScanOccurrences` | lib/cadical/src/block.cpp:57-142 | each clause passed over has its clashing literal moved to the front, and the list either is as before or has the stopping clause in front |
| `Blocking.RotateLiterals` | lib/cadical/src/block.cpp:85-123 | stops exactly at the first clashing literal and moves it to the front |
| `Blocking.WitnessDecides` | lib/cadical/src/block.cpp:43-145 | no clause without a clash in the list: blocked, and only then |
| `Blocking.BlockedRemovable` | lib/cadical/src/block.cpp:43-145 | a blocked clause can be removed with its literal as witness |
| `Blocking.FlushOccs` | lib/cadical/src/collect.cpp:167-181 | the list keeps exactly its live clauses in order, and the largest size is returned |
| `BlockedElimination.BlockLiteral` | lib/cadical/src/block.cpp:690-733 | exactly which clauses become garbage: none for a literal that is not tried; all its clauses for a pure one; otherwise exactly the blocked clauses within the size limits, or none when a clause with the negation is too large; each of them goes on the stack once, with the literal as witness, and nothing else does; the variable becomes inactive exactly when the literal is pure; clauses are only permuted |
| `BlockedElimination.BlockPureLiteral` | lib/cadical/src/block.cpp:249-290 | all clauses of a pure literal go, unless it is frozen, and its variable is retired |
| `BlockedElimination.BlockLiteralWithOneNegativeOcc` | lib/cadical/src/block.cpp:298-427 | exactly the clauses that clash with the only one, within the size limits, become garbage, although they are removed while the list is compacted |
| `BlockedElimination.BlockCandidates` | lib/cadical/src/block.cpp:435-491 | the candidates are exactly the clauses within the limits that clash with the first clause of the negation |
| `BlockedElimination.BlockImpossible` | lib/cadical/src/block.cpp:500-539 | true exactly when some clause of the negation clashes with no candidate |
| `BlockedElimination.BlockLiteralWithAtLeastTwoNegativeOccs` | lib/cadical/src/block.cpp:545-641 | exactly the blocked clauses within the limits become garbage |
| `BlockedElimination.ImpossibleToBlock` | lib/cadical/src/block.cpp:500-539 | then no clause is blocked on the literal, so stopping loses nothing |
| `EliminationPropagation.ElimPropagate` | lib/cadical/src/elim.cpp:142-199 | propagation over the occurrence lists ends, keeps the models, and leaves no live clause with a literal it made true or unit under what it made false; only satisfied clauses become garbage, and only propagated literals get values |
| `EliminationPropagation.PropagateClause` | lib/cadical/src/elim.cpp:152-187 | a clause with a false literal: dropped, unit, empty or left alone, with the models kept |
| `EliminationPropagation.RemoveSatisfied` | lib/cadical/src/elim.cpp:190-197 | all live clauses with the true literal go, and the models stay |
| `Elimination.ResolveClauses` | lib/cadical/src/elim.cpp:264-462 | true exactly when both clauses are live, no literal beside the pivot is true, the rests without false literals do not clash and neither contains the other, and then the resolvent is left for the caller and nothing else changes; otherwise the whole effect is stated case by case: a satisfied clause is dropped, an empty resolvent ends the search, a unit is assigned and with eager propagation all that follows from it is, a clause that a resolvent subsumes is replaced; the models stay |
| `Elimination.EffectKeepsActive` | lib/cadical/src/elim.cpp:264-462 | in every case of that effect a variable becomes inactive exactly when it gets a value |
| `Elimination.YieldsEarlier` | lib/cadical/src/elim.cpp:264-462 | as values grow and clauses become garbage, no pair comes to leave a resolvent, and resolvents do not get longer |
| `Elimination.CollectFirst` | lib/cadical/src/elim.cpp:286-327 | collects exactly the literals without value and reports a satisfied clause |
| `Elimination.CollectSecond` | lib/cadical/src/elim.cpp:329-363 | adds exactly the missing literals; tautology and satisfaction are reported only when they hold, and neither is overlooked |
| `Elimination.OnTheFlySelfSubsumption` | lib/cadical/src/elim.cpp:209-230 | the clause is replaced by itself without the pivot, with the same models |
| `Elimination.ResolventMeaning` | lib/cadical/src/elim.cpp:264-462 | the resolvent without the literals that are false means the same as the full resolvent |
| `VariableElimination.ElimAddResolvents` | lib/cadical/src/elim.cpp:547-594 | the pairs of clauses are resolved in order, each with its exact effect, and the resolvent of each pair that leaves one is added; afterwards the clauses without the pivot entail all its resolvents; at most as many resolvents have been added as the bound says, none longer than the limit, and other new clauses are shortened old ones |
| `VariableElimination.MarkEliminatedClausesAsGarbage` | lib/cadical/src/elim.cpp:601-658 | exactly the clauses with the variable go, first those with the literal and then those with its negation, each onto the stack once with the one of the two that it has, and models stay recoverable |
| `VariableElimination.EliminatedRemovable` | lib/cadical/src/elim.cpp:601-658 | in whatever order the clauses go, each can be repaired from what remains |
| `VariableElimination.TryToEliminateVariable` | lib/cadical/src/elim.cpp:664-718 | an inactive variable and one with too many clauses change nothing; a pure one is eliminated exactly when the bound is not negative; another one, when the pairs that leave a resolvent are within the limits at the start, is eliminated unless a value for it or a contradiction is found; the state afterwards comes from resolving pairs of its clauses in order, the more frequent literal second, and removing its clauses; an eliminated variable occurs in no live clause, the resolvents added are within the limits, and the original models are recoverable; otherwise the formula keeps its models and nothing is pushed |
| `VariableElimination.LimitsOfLists` | lib/cadical/src/elim.cpp:473-542 | whether the limits are kept depends neither on the order of the occurrence lists nor on which of the two literals is the pivot |
| `VariableElimination.OthersStay` | lib/cadical/src/elim.cpp:664-718 | whatever an attempt does, a live clause without the variable stays live and in its place unless it is satisfied by a root-level value afterwards, and assigned literals keep their values |
| `VariableElimination.ElimResolventsAreBounded` | lib/cadical/src/elim.cpp:473-542 | trying the resolvents learns units and shortens clauses without changing the models; a positive answer means that not more pairs than occurrences plus bound still leave a resolvent, and none longer than the limit; a negative answer in a consistent state without a value for the pivot means that at the start more pairs than that left a resolvent, or a longer one; with one side empty the answer is whether the bound is not negative |
| `Inprocessing.Preprocess` | lib/cadical/src/extend.cpp:114-197 | after any run of substitution, blocked clause and variable elimination passes: all of them have been made, one after the other, unless a contradiction was reported; if it was, the given clauses have no model, and otherwise every model of what remains extends to one of the given clauses |
| `Inprocessing.Run` | lib/cadical/src/extend.cpp:114-197 | every pass is made, in this order, with its effect on clauses, values, flags and stack, until one finds a contradiction; each keeps the invariant of the solver state |
| `Inprocessing.BlockAll` | lib/cadical/src/block.cpp:780-785 | every literal of the schedule is tried, in this order, each with the effect of a single one |
| `Inprocessing.EliminateAll` | lib/cadical/src/elim.cpp:870-885 | every variable of the schedule is tried, in this order, until the formula is found unsatisfiable |
| `Inprocessing.StackGrows` | lib/cadical/src/extend.cpp:47-61 | what a pass has pushed on the reconstruction stack no later pass takes away or changes |
| `Inprocessing.ExtendModel` | lib/cadical/src/extend.cpp:114-197 | the backward pass turns any model of the remaining clauses into a model of all original clauses |
| `Checkers.Checker.Propagate` | lib/cadical/src/checker.cpp:382-443 | true: no live clause is left to propagate; false: clauses and assumptions contradict each other; the watch invariants survive the compaction of the lists in place, and the loop ends |
| `Checkers.Checker.VisitWatch` | lib/cadical/src/checker.cpp:392-437 | one watch is kept, dropped or moved, a literal is implied or a conflict found, each of them justified |
| `CheckerWatches.NoUnitLeft` | lib/cadical/src/checker.cpp:382-443 | after complete propagation every live clause is satisfied or has two literals without value |
| `Checkers.Checker.Check` | lib/cadical/src/checker.cpp:445-455 | an accepted clause is entailed by the clauses given so far, and a refusal leaves an assignment that falsifies the clause and under which no live clause is unit; trail, clauses and invariants are as before |
| `CheckerWatches.RootStaysPropagated` | lib/cadical/src/checker.cpp:360-375 | the moves of watches under assumptions leave the root level propagated |
| `Checkers.Checker.Backtrack` | lib/cadical/src/checker.cpp:360-375 | undoes exactly the assignments beyond the given size |
| `Checkers.Checker.AddOriginalClause` | lib/cadical/src/checker.cpp:496-513 | over whole runs: the state stays sound for the clauses given so far and the new one; a clause with two literals without value, and none true, is live afterwards; another one that is not trivial has a true literal afterwards or the state is inconsistent; a trivial one changes nothing |
| `Checkers.Checker.AddDerivedClause` | lib/cadical/src/checker.cpp:515-539 | over whole runs: an accepted derived clause follows from the clauses given and is taken like an original one, and a failed check changes nothing and shows a closed assignment that falsifies it |
| `Checkers.Checker.DeleteClause` | lib/cadical/src/checker.cpp:543-579 | in a consistent state and for a clause that is not trivial: a clause with the identity and exactly these literals is gone, besides only satisfied ones swept on the way; a failure means that there is none; in the other cases nothing changes; the garbage is collected exactly when there is more of it than half the larger of the two table sizes |
| `Checkers.Checker.AddAssumptionClause` | lib/cadical/src/checker.cpp:581-585 | the clause is checked like a derived one, taken and deleted; afterwards every live clause was live before, up to the order of literals, and what is no longer live is satisfied; deleting cannot fail after the check has accepted; a clause that is unit at the root leaves its literal on the trail and a falsified one leaves the state inconsistent, any other leaves both as they were; a refusal shows a closed assignment that falsifies it |
| `CheckerRuns.DeletionSucceeds` | lib/cadical/src/checker.cpp:440-579 | after any run of taking and deleting clauses from the empty checker: a clause that was taken and is not yet deleted can be deleted, although unit, satisfied and swept clauses are in no table; a deletion is refused exactly in a consistent state for a clause that is neither trivial nor held |
| `CheckerRuns.DeletionDecided` | lib/cadical/src/checker.cpp:543-579 | the same for one deletion from a state in which exactly the held clauses, as often as they are held, are live, up to trivial ones; the deletion keeps that |
| `CheckerRuns.TakeBalanced` | lib/cadical/src/checker.cpp:459-541 | taking a clause keeps that, whether it is inserted, propagated as a unit, falsified or trivial |
| `CheckerRuns.RunBalanced` | lib/cadical/src/checker.cpp:440-579 | so it holds after every run |
| `Checkers.Undone` | lib/cadical/src/checker.cpp:581-585 | taking a clause and deleting one with its identity and literals leaves the live clauses as they were, up to satisfied ones |
| `Checkers.Checker.AddClause` | lib/cadical/src/checker.cpp:459-494 | two literals without value: the clause is inserted and nothing else changes; otherwise it is falsified or gives a unit, and the state is complete at the root again or inconsistent |
| `Checkers.Checker.CollectGarbageClauses` | lib/cadical/src/checker.cpp:119-166 | exactly the satisfied clauses become garbage and no watch refers to a garbage clause afterwards |
| `CheckerClauses.Tautological` | lib/cadical/src/checker.cpp:267-285 | true exactly when the clause is tautological or has a true literal; otherwise the result has each literal once, sorted |
| `CheckerClauses.ChooseWatches` | lib/cadical/src/checker.cpp:38-71 | two literals without value come first and the rest is permuted |
| `CheckerClauses.PropagatedCloses` | lib/cadical/src/checker.cpp:382-443 | what is propagated is closed: the trail makes no live clause unit |
| `Checkers.RefutedClause` | lib/cadical/src/checker.cpp:445-455 | a conflict from the negated clause proves the clause |
| `Heaps.RootIsLargest` | lib/cadical/src/heap.hpp:156-159 | in a heap the root is maximal |
| `Heaps.SwapUp` | lib/cadical/src/heap.hpp:73-77 | exchanging an element with its lower parent moves the only disorder up |
| `Heaps.SwapDown` | lib/cadical/src/heap.hpp:81-93 | exchanging an element with its larger child moves the only disorder down |
| `Heaps.SwapIndexed` | lib/cadical/src/heap.hpp:65-69 | exchanging keeps the two tables inverse to each other |
| `Heaps.Heap.Up` | lib/cadical/src/heap.hpp:73-77 | afterwards only the element and its children can be out of order |
| `Heaps.Heap.Down` | lib/cadical/src/heap.hpp:81-93 | restores heap order with the same elements |
| `Heaps.Heap.PushBack` | lib/cadical/src/heap.hpp:143-152 | one more element, heap order and inverse tables kept |
| `Heaps.Heap.PopFront` | lib/cadical/src/heap.hpp:163-174 | takes out a maximal element and nothing else |
| `Heaps.Heap.Front` | lib/cadical/src/heap.hpp:156-159 | a maximal element |
| `Heaps.Heap.ChangeRank` | lib/cadical/src/heap.hpp:178-183 | update repairs the heap after the rank of one element has changed, up or down |
| `Heaps.Heap.PopAll` | lib/cadical/src/heap.hpp:163-174 | repeated removal yields all elements in non-increasing order |
| `FirstUip.Analyzer.Analyze` | lib/cadical/src/analyze.cpp:963-1065 | the learned clause is entailed, false under the trail, and has exactly one literal on the conflict level; its other literals are exactly those of lower levels above the root that are in the conflict or in the reason of a later literal of the level that is linked to the conflict; every path of the implication graph from the conflict to the decision of the level leads through that one literal, and through no later literal of the level; the backward scan of the trail ends |
| `FirstUip.Analyzer.ClearAnalyzedLiterals` | lib/cadical/src/analyze.cpp:383-402 | the list has all variables that are marked, so taking their marks away leaves no mark, as the loop under the assertion checks |
| `FirstUip.LastDominates` | lib/cadical/src/analyze.cpp:1047-1063 | with nothing open below it, the last open literal is on every path |
| `FirstUip.WayAround` | lib/cadical/src/analyze.cpp:1047-1063 | while something is open below, a path leads around each literal passed so far |
| `FirstUip.Resolve` | lib/cadical/src/analyze.cpp:295-306 | resolving with a reason keeps the implicit resolvent entailed by the formula and false |
| `FirstUip.UipFound` | lib/cadical/src/analyze.cpp:1047-1065 | when no open literal is left the collected clause with the negated pivot is the implicit resolvent |
| `FirstUip.NotDecision` | lib/cadical/src/analyze.cpp:1047-1063 | while literals are open the next one on the trail has a reason, so the loop never resolves with a decision |
| `FirstUip.Analyzer.AnalyzeLiteral` | lib/cadical/src/analyze.cpp:252-293 | marks a literal once, counts it when it is on the conflict level and collects it otherwise |
| `FirstUip.Analyzer.NextOpen` | lib/cadical/src/analyze.cpp:1047-1055 | the backward scan stops inside the trail at a marked literal of the conflict level |
| `LratBuilders.LratBuilder.BuildChain` | lib/cadical/src/lratbuilder.cpp:636-682 | from a settled state: true for a clause that is no tautology gives a chain of live clauses, none twice, that passes the check of a proof checker under the negation of the clause, and when the state is consistent and no literal of the clause is true, one whose clauses are unit one after the other and the last falsified; false gives an assignment that falsifies the clause and under which no live watched or unit clause is unit or falsified; trail, causes and the place of the propagation are as before; each clause of the chain but the last implies, in its turn, a literal whose negation is in a later clause of the chain |
| `LratBuilders.LratBuilder.Attempt` | lib/cadical/src/lratbuilder.cpp:657-681 | the same for a consistent state: the negation is assumed, propagated, a chain built from the conflict, and all is taken back |
| `LratBuilders.LratBuilder.ForgetAssumptions` | lib/cadical/src/lratbuilder.cpp:671-679 | taking the assumptions back restores trail and causes, and the root is propagated again although watches have moved |
| `LratBuilders.LratBuilder.UnitPropagate` | lib/cadical/src/lratbuilder.cpp:437-463 | all live unit clauses are satisfied or one is the falsified conflict; garbage leaves the list in place; the trail stays in topological order, and the preferred unit clause of a variable is the first live one of the list |
| `LratBuilders.LratBuilder.Propagate` | lib/cadical/src/lratbuilder.cpp:467-537 | without a conflict everything is propagated, with one a live unit or watched clause is falsified; every literal added has a live clause as cause whose other literals were false before it; the loop ends |
| `LratBuilders.LratBuilder.VisitWatch` | lib/cadical/src/lratbuilder.cpp:477-531 | one watch is kept, dropped or moved, a literal is assigned with its clause as cause, or the clause is falsified |
| `LratBuilders.LratBuilder.Backtrack` | lib/cadical/src/lratbuilder.cpp:420-433 | undoes exactly the later assignments with their causes; the trail stays in topological order |
| `LratBuilders.LratBuilder.ProofClause` | lib/cadical/src/lratbuilder.cpp:620-634 | from a conflict under assumed negations: the chain has live clauses, none twice, each unit in its turn and the last one falsified, and nothing stays to be justified |
| `LratBuilders.LratBuilder.ProofInconsistentClause` | lib/cadical/src/lratbuilder.cpp:596-618 | the same without assumptions; the chain is kept and reused, and apart from the falsified clause it has only causes of the trail |
| `LratBuilders.LratBuilder.ProofSatisfiedLiteral` | lib/cadical/src/lratbuilder.cpp:589-594 | the same with the negation of the true literal alone as assumption |
| `LratBuilders.LratBuilder.ConstructChain` | lib/cadical/src/lratbuilder.cpp:539-583 | the chain lists the reasons of exactly the literals needed, in trail order, and nothing stays to be justified |
| `LratBuilders.LratBuilder.MarkReason` | lib/cadical/src/lratbuilder.cpp:562-575 | all literals of a reason are justified by the clause or to be justified, and the counter stays exact |
| `LratBuilders.LratBuilder.AddClause` | lib/cadical/src/lratbuilder.cpp:693-754 | exactly one clause is new and live, satisfied, falsified, unit or open clauses have their effect, and the state is settled again: the trail in topological order with live causes, everything propagated or a falsified clause known |
| `LratBuilders.LratBuilder.AddOriginalClause` | lib/cadical/src/lratbuilder.cpp:758-772 | adds the clause to a settled state; an inconsistent state stays so |
| `LratBuilders.LratBuilder.AddClauseGetProof` | lib/cadical/src/lratbuilder.cpp:774-800 | on success the chain has clauses that were live before the call and justifies the clause, which is then added; on failure the clauses are as before and a closed assignment falsifies the clause; no clause of the chain is superfluous in the sense that what it implies in its turn is used by a later one |
| `LratBuilders.LratBuilder.AddDerivedClause` | lib/cadical/src/lratbuilder.cpp:802-815 | adds the clause without a chain |
| `LratBuilders.LratBuilder.DeleteClause` | lib/cadical/src/lratbuilder.cpp:817-917 | exactly the clause found goes, or nothing when no live clause has the identity; the trail stays in topological order with live causes; a consistent state stays consistent and gets no new literals, so the assertion at line 891 holds; the builder counts as consistent with a live empty clause exactly when another clause is empty, and it did so before, or the deleted clause is a cause or has the identity of the noted falsified clause and the remaining unit and watched clauses propagate without conflict |
| `LratBuilders.LratBuilder.DeleteAt` | lib/cadical/src/lratbuilder.cpp:825-902 | the same for a place of the table; after the deletion of a cause only a watched or unit clause can make the state inconsistent; the same exact condition for forgetting an empty clause |
| `LratBuilders.LratBuilder.FindPropagated` | lib/cadical/src/lratbuilder.cpp:830-846 | finds the one literal that has the clause as cause, on the trail, or shows that it is the cause of none |
| `LratBuilders.LratBuilder.PopTo` | lib/cadical/src/lratbuilder.cpp:871-884 | cuts the trail before that literal; then the clause is the cause of nothing |
| `LratBuilders.LratBuilder.Repropagate` | lib/cadical/src/lratbuilder.cpp:885-901 | propagating again from the start: settled, and within any closed literals |
| `LratBuilders.LratBuilder.CollectGarbageClauses` | lib/cadical/src/lratbuilder.cpp:158-199 | afterwards no watch and no entry of the unit list refers to garbage, and the state is still settled |
| `LratBuilders.EmptyClauseForgotten` | lib/cadical/src/lratbuilder.cpp:885-901 | a sequence of calls after which the builder is proved to count as consistent although an empty clause is live: deleting the cause of a literal propagates again, and propagation does not look at empty clauses |
| `LratClauses.ClosedForAll` | lib/cadical/src/lratbuilder.cpp:670-674 | closed literals make no live clause unit or falsified if and only if no live clause is empty |
| `LratClauses.StaysClosed` | lib/cadical/src/lratbuilder.cpp:888-891 | what fewer clauses propagate lies in any literals closed under more, and no watched or unit clause is falsified |
| `LratClauses.JustifiedEntailed` | lib/cadical/src/lratbuilder.cpp:774-800 | a justified clause follows from any formula from which the live clauses follow |
| `LratClauses.ChooseFront` | lib/cadical/src/lratbuilder.cpp:75-90 | two literals that are not false come first, as far as there are such literals, and the rest is permuted |
| `LratTrail.CausedPush` | lib/cadical/src/lratbuilder.cpp:405-410 | a literal that is assigned because of a clause with all other literals false keeps the trail in topological order |
| `LratTrail.OneEffect` | lib/cadical/src/lratbuilder.cpp:834-846 | a clause is the cause of at most one literal |
| `LratTrail.UnitsAssign` | lib/cadical/src/lratbuilder.cpp:437-463 | a unit clause that is assigned is the first live one of its variable in the list, so the preferred cause and the recorded one agree |
| `LratChain.AscendingAccepted` | lib/cadical/src/lratbuilder.cpp:539-583 | reasons in trail order form an accepted chain |
| `LratChain.AcceptedChecks` | lib/cadical/src/lratchecker.cpp:315-358 | an accepted chain passes the check of the proof checker, also when more is assumed |
| `LratChain.ChainProves` | lib/cadical/src/lratchecker.cpp:296-367 | a chain of entailed clauses that passes the check proves the clause |
| `LratChain.ScanMark` | lib/cadical/src/lratbuilder.cpp:562-575 | marking one more literal keeps the counter equal to the number of marked literals below the scan |

## Left out

- Command line, reading and printing of frameworks, memory statistics and the test drivers: input and output only.
- The memory model of OpenMP: reads and writes of the flag and the written extension are atomic steps. The number of cores and the priorities only choose the schedule, and every schedule is covered.
- Lifetimes of by-value parameters: the tasks share `argument` and `isRejected`, which are parameters of the call that creates them (src/logic/Solver_DS_PR.cpp:239-257), and nothing waits for a task before that call returns. The model takes them to outlive the tasks.
- Allocation failures, `free`, debug output and the counters of statistics.
- CaDiCaL as a whole and its adapter: the search uses an oracle that answers satisfiability exactly and returns some model. Conflict-driven search, restarts, the facade and the external propagator are not modelled.
- Widths of machine integers, except the 32-bit subtraction of the priority and the limits that the source asserts for search indices and heap positions.
- `list::merge` is called on unsorted lists; the model keeps the content and promises no order.
- Solvers.Solve: what is written omits the peeled-off part and need not be preferred; it proves the rejection (`Solvers.WitnessProvesRejection`). An earlier search may have left marks, as in the source, which clears them only when a framework is set up; the answer is then the one for the part that is found.
- ScepticalChecks.ExtendExtension: does not give the order of the merged list, because the inputs are unsorted and nothing depends on it.
- Search.Worker: the flags for the first and later calculations are fields of the worker, and the second computation of the reduct in the loop yields the same set, so it is not observed.
- Clauses, occurrence lists and watch lists of the solver are sequence-valued fields: the rotations and compactions are the source's, element by element, but aliasing of clause objects and arenas is not captured. Garbage clauses stay at their index.
- Internals.Internal.ConnectOccs: clauses carry no flag for redundant clauses, so every live clause counts as irredundant; the passes of the source skip learned clauses, or drop them when they are in the way.
- Hash tables and clause identities: the checker's table is a list of clause indices with the hash left out; on the reconstruction stack the identity is one word below a zero word.
- Decompose.Decomposer.DecomposeRound: without the LRAT chains of components; units found on the way are not propagated after the round, and the order of watch lists is the order of clauses.
- Substitution.DecomposeRound: the answer whether another round is worth while is left out, and after a contradiction of the graph only the flag and the stack are promised.
- VariableElimination.ElimResolventsAreBounded: a negative answer speaks of the state at the start and a positive one of the state at the end, because units and subsumption learned while counting may remove pairs that were counted.
- VariableElimination.TryToEliminateVariable: without gates, without backward subsumption and without sorting the occurrence lists; the order of the lists is arbitrary instead.
- Schedules and priority queues of blocked clause and variable elimination: the literals and variables tried, and the limits, are parameters, so every schedule is covered. Counters of occurrences are recomputed instead of kept.
- Inprocessing.Run: limits on the effort, rescheduling and collecting garbage between two variables are left out; a pass tries what its schedule lists.
- Internals.Internal.MarkClause: the marks of one clause at a time; the two-bit marks used while collecting candidates are a table of the method that uses them.
- Inprocessing.ExtendModel: the map from external to internal variables is the identity; `Extensions.External.Extend` takes an arbitrary one.
- Covered and conditional clause elimination, globally blocked clauses, restoring clauses for incremental use.
- FirstUip.Analyzer.Analyze: without on-the-fly strengthening and chronological backtracking, and without the bookkeeping of levels, glue and scores; minimisation and shrinking of the learned clause follow later in the source and are not part of this model.
- FirstUip.Analyzer.Analyze: that the literal is the first such point is stated when each propagated literal of the level has another literal of the level in its reason, which holds without chronological backtracking.
- Heaps.Heap.Update: the comparison is given by a rank for each element; comparators that are not total preorders are not captured.
- Checkers.Checker.DeleteClause: the memory of garbage clauses is not returned, only the list of them is emptied; the random nonces of the hash are left out, and which of several equal clauses goes follows the order of one list.
- LratBuilders.LratBuilder.BuildChain: a chain names clauses by their place; the identity that is written is `LratTrail.IdOf` of it. That an identity is not used twice is not asserted by the source and not assumed. For a clause with a literal that is true at the root the chain is accepted under the negation of that literal, and checks under the negation of the whole clause.
- LratBuilders.LratBuilder.DeleteClause: the source asserts that there are clauses, and so does the model. Cutting the trail and marking the clause as garbage do not depend on each other and are done in that order.
- LratBuilders.LratBuilder.CollectGarbageClauses: the memory of garbage is not returned, only the lists are emptied. Watched clauses have size zero as garbage mark, as in the source; unit, empty and tautological clauses are kept in lists of their own. The hash table is one list, as if all clauses had the same bucket, newest first and reversed when it grows.
- LratTrail, LratSteps, LratClauses: marks that only assertions of the source read are left out.
