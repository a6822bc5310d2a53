# The program analyses of Scout Audit, modelled and proved in Dafny

Scout Audit is a static analyzer for smart contracts. Its detectors are small program analyses: data-flow over
control-flow graphs, guarded walks over expression trees, searches over call graphs. This project models the analyses
with the most state and branching, each together with an independent account of what its answer is supposed to mean
(runs of a program, paths of a graph, values of an expression), and proves that the two agree.

The analyzed programs are abstract syntax. Types, names, spans and constants are inputs: an expression says whether it
has type `!`, a call site which function it calls, a parameter whether it is an address. What the analyses of the
repository update in place (analysis states, visitors, guard sets, the connection matrix) is updated in place here.
Hash maps and hash sets are read in an arbitrary order, so every theorem holds for every order.

## The parts

- **Who authorized the new admin** (`AuthFlow`, `AuthEngine`, `AuthRuns`, `AuthExact`, `AuthSummaries`,
  `AuthRecursion`, `AuthPaths`, `AuthAliases`, `AuthAliasShapes`). `missing-new-admin-auth` follows which address
  parameters, and whether the stored admin, may be unauthorized. `AuthFlow` says what that means as a meet over all
  paths, and `AuthEngine` proves the worklist exact for it. `AuthRuns` gives programs a run semantics with stores,
  constant switches and nested calls, and proves that pruning, summaries and reports are true of every run;
  `AuthExact` proves that the analyzed graph has no edge that no execution takes. `AuthSummaries` is the fixpoint over
  function summaries: every step keeps it sound and below every solution, it ends, and it ends in the least fixpoint
  whatever the order. `AuthRecursion` and `AuthPaths` say what the least solution loses. `AuthAliases` is the tracking
  of copies, `AuthAliasShapes` which code counts as a copy.
- **Division by zero** (`Hir`, `HirScopes`, `HirParts`, `DivisionGuards`, `DivisionSoundness`, `DivisionWalks`,
  `DivisionByZero`, `DivisionForms`, `DivisionSilence`, `DivisionLimits`). `Hir` is an evaluator with fuel, machine
  integers, jumps, a tape of unknown results and a world of unknown operators on other types. `DivisionGuards` is the
  detector as functions of the syntax. The main theorem: no finding, no division by zero, on any run. `DivisionForms`
  and `DivisionSilence` are the other side: which guards and forms are recognised, and that they keep a division from
  being reported. `DivisionLimits` has the inputs on which the detector is wrong, with their exact conditions.
- **Loops that never end** (`NonTerminatingLoop`), against the same evaluator; `LoopEscapes` says what an escape is.
- **Stale storage reads** (`StaleReads`, `StaleReadsExact`, `StaleReadsArms`, `StaleReadsForms`, `StaleReadsWalk`,
  `StaleReadsVisitor`). The walk that saves, restores and merges one state is proved exact for the set of all choices
  of branches, and to pass over no code that binds, modifies, reads or writes.
- **Structural equivalence** (`ExprAnalyzer`): termination on cyclic bindings by a lexicographic measure, soundness
  for every meaning of the operators, and an exact account of which expressions are equivalent.
- **Searches** (`Reachability`, `CallGraph`, `CrossContractTarget`, `Dependencies`): the call-graph search, the
  recursion without a visited set, the guarded taint worklist, the decision about unprotected writes, and the
  dependency matrix searched in both directions.

## Where the code does not do what its comments say

The model follows the code. Each case names the input that shows it or the exact condition.

- Division by zero, line 446: "a constant 0 would have been caught above" holds of literals only. A named constant
  zero and a local bound to a constant zero are silently accepted (`LetBoundZeroIsMissed`), and exactly then such a
  division goes wrong (`ConstantDivisorIsTrusted`). The main theorem asks that the constant divisors of a body do not
  evaluate to zero; their values come from the constants alone (`ConstantHasOneValue`).
- Division by zero, line 165: a shifted non-zero literal "is never zero" holds of odd literals only
  (`ShiftRecogniserIsExact`); the top bit of an even one can be shifted out.
- Division by zero, line 146: "only forms whose result cannot be zero are matched" is false of a method `max` or
  `clamp` that another type defines: the code matches the name (`OwnMaxIsMissed`). It holds exactly of the standard
  methods (`OnlyStandardMethodsAreNonzero`). The same goes for `len` and `is_empty`, of which the main theorem asks
  that they are the standard ones too.
- Division by zero, lines 274-283: what a single-expression block proves is taken from its tail, also if the block is
  labeled and a `break` can leave it first (`LabeledConditionIsMissed`). The main theorem asks that conditions that
  guard something hold no labeled block.
- Division by zero, line 116: the cast removed before matching `x.len()` may be one that truncates
  (`LengthCastRecogniserIsExact`).
- Division by zero, lines 552-568: a condition that proves something about its branch is not walked, so a division in
  it is missed (`SkippedConditionIsMissed`), and nothing else is (`OnlyTheConditionIsMissed`). For whole bodies,
  `FullSilenceIsSafe` allows divisions in such conditions if a walk that skips nothing finds nothing; that walk knows
  that in `d != 0 && x / d > 1` the divisor is guarded.
- Non-terminating loop, line 45: the message says that a reported loop never terminates, but a `continue` of an
  enclosing loop leaves it and is never an escape (`ContinueLeavesTheLoop`). That is the only way out
  (`EscapeFreeLoopNeverFinishes`), and `CheckLoop` has the condition that excludes it. The condition is not necessary:
  such a `continue` need not be reached (`ContinueNeedNotLeave`).
- Uncached storage modification, line 136: the merge of a `match` starts from the state before it, as if there were an
  arm that does nothing (`MatchMergeStartsFromPreState`). The exactness theorem is stated with that empty arm; it
  costs nothing where every match has an arm that does nothing (`ReportedIffStaleOnRealPath`).
- Storage-change events: the two recursions have no visited set. Whether they return depends on the order in which the
  hash set yields the callees. They return in every order exactly when the call graph, without the calls out of the
  functions looked for, has no cycle below the start (`FinishesInEveryOrder`); for one order, `FinishesIffAcyclic` has
  the condition.
- Missing new admin auth: the least solution gives no credit to authorization that only recursion hides
  (`RecursionIsNotCredited`, `RecursionAuthorizes`). Without a call cycle nothing is lost (`NoRecursionOneSolution`),
  and what is lost holds on every run (`EverySolutionIsSound`). A call cycle need not lose anything
  (`RecursionMayLoseNothing`). The loss is the difference to the greatest solution, which claims exactly what every
  path through a function and its callees authorizes (`GreatestSolutionIsPaths`), where every function can be left and
  a call hands each address over once and as an address. `HandedOverTwice` shows why once: summaries speak about one
  parameter at a time.

## Model

| member | source | states |
|---|---|---|
| `AuthSummaries.SummaryFixpoint` | nightly/2026-05-28/detectors/soroban/missing-new-admin-auth/src/lib.rs:125-160 | The loop over the hash-ordered set of functions ends; what it ends with is the least solution of the summary equations, and every claim in it is true of every run that leaves the function. |
| `AuthSummaries.StepKeepsInvariant` | nightly/2026-05-28/detectors/soroban/missing-new-admin-auth/src/lib.rs:148-154 | One in-place update, in any order: every summary stays justified by the map, below every solution and true of every run; a changed map has strictly fewer claims left to make. |
| `AuthSummaries.OrderIndependent` | nightly/2026-05-28/detectors/soroban/missing-new-admin-auth/src/lib.rs:136-160 | Two least solutions over the same functions are equal, so the order in which the hash set yields the functions does not matter. |
| `AuthSummaries.EmptySummaries` | nightly/2026-05-28/detectors/soroban/missing-new-admin-auth/src/lib.rs:125-130 | The start of the loop, one empty summary for each reachable function with a body, satisfies the invariant. |
| `AuthSummaries.Recompute` | nightly/2026-05-28/detectors/soroban/missing-new-admin-auth/src/lib.rs:148-154 | Storing a recomputed summary keeps the invariant; "not changed" means that the stored summary already was the recomputed one. |
| `AuthSummaries.SummaryPass` | nightly/2026-05-28/detectors/soroban/missing-new-admin-auth/src/lib.rs:134-155 | A pass without a change means that every listed function has the summary the map gives it; a pass with a change used up a claim. |
| `AuthSummaries.ClaimUsed` | nightly/2026-05-28/detectors/soroban/missing-new-admin-auth/src/lib.rs:151-154 | An update that changes the map makes a claim that was not made before and loses none. |
| `AuthSummaries.RestrictionIsLeast` | nightly/2026-05-28/detectors/soroban/missing-new-admin-auth/src/lib.rs:106-160 | The least solution over more functions agrees, on every set closed under calls, with the least solution over that set. |
| `AuthSummaries.EntryPointIndependent` | nightly/2026-05-28/detectors/soroban/missing-new-admin-auth/src/lib.rs:101-160 | A function reached from two entry points gets the same summary in both analyses, if every call site is an edge of the call graph. |
| `AuthSummaries.LeastSolutionExists` | nightly/2026-05-28/detectors/soroban/missing-new-admin-auth/src/lib.rs:125-160 | Every set of functions with a body has a least solution of the summary equations. |
| `AuthSummaries.CheckEntryPoint` | nightly/2026-05-28/detectors/soroban/missing-new-admin-auth/src/lib.rs:106-177 | The pass for one entry point: summaries of exactly the reachable functions with a body, and findings for exactly their sinks that some path reaches unauthorized under those summaries. Every run that comes to any other sink has authorized its parameter and the current admin before it. |
| `AuthSummaries.LintFunctions` | nightly/2026-05-28/detectors/soroban/missing-new-admin-auth/src/lib.rs:162-177 | The final pass reports a sink exactly when its own function reports it, whatever the order of functions. |
| `AuthRecursion.EverySolutionIsSound` | nightly/2026-05-28/detectors/soroban/missing-new-admin-auth/src/lib.rs:125-160 | Every solution of the summary equations, not only the least one, is true of every run; so a claim that the least solution lacks and another solution holds is lost precision, not caution. |
| `AuthRecursion.NoRecursionOneSolution` | nightly/2026-05-28/detectors/soroban/missing-new-admin-auth/src/lib.rs:125-160 | For a function from which no call cycle can be reached all solutions agree: there the least solution loses nothing. |
| `AuthRecursion.RecursionMayLoseNothing` | nightly/2026-05-28/detectors/soroban/missing-new-admin-auth/src/lib.rs:125-160 | The converse is false: a function that authorizes and then may call itself has one solution only. |
| `AuthRecursion.RecursionIsNotCredited` | nightly/2026-05-28/detectors/soroban/missing-new-admin-auth/src/lib.rs:125-160 | A witness that a claim can be lost: the empty summary is the least solution for a function that, on a value not known, authorizes its parameter or calls itself with it. |
| `AuthRecursion.RecursionAuthorizes` | nightly/2026-05-28/detectors/soroban/missing-new-admin-auth/src/lib.rs:125-160 | The other half of that witness: every run of the function that returns has authorized the parameter. |
| `AuthPaths.GreatestSolutionIsPaths` | nightly/2026-05-28/detectors/soroban/missing-new-admin-auth/src/lib.rs:125-160 | What the least solution is compared with: where every function can be left, and calls hand an address over once and as an address, the greatest solution claims a bit if and only if every path through the function and its callees authorizes it. |
| `AuthPaths.NoSolutionClaimsMore` | nightly/2026-05-28/detectors/soroban/missing-new-admin-auth/src/lib.rs:125-160 | Without any condition: what a solution claims, every path through the function and its callees authorizes. |
| `AuthPaths.HandedOverTwice` | nightly/2026-05-28/detectors/soroban/missing-new-admin-auth/src/mir_auth_flow.rs:313-322 | A concrete program in which a call hands one address over twice: every path authorizes it, and no solution claims so. |
| `AuthRuns.SummaryUpdateIsSound` | nightly/2026-05-28/detectors/soroban/missing-new-admin-auth/src/mir_auth_flow.rs:300-394 | Summaries that are true of every run, with one of them recomputed from the others, are still true of every run, through nested, recursive and mutually recursive calls. |
| `AuthRuns.UnreportedSinkIsAuthorized` | nightly/2026-05-28/detectors/soroban/missing-new-admin-auth/src/mir_auth_flow.rs:396-447 | No false negative: every run that comes to a sink which is not reported has authorized the parameter and the current admin before it, itself or in a callee that received the value. |
| `AuthRuns.RunFollowsPath` | nightly/2026-05-28/detectors/soroban/missing-new-admin-auth/src/mir_auth_flow.rs:283-328 | A run that has not authorized a bit follows a path of the pruned graph on which the analysis keeps the bit: pruning and call returns cover every run. |
| `AuthRuns.LastConstHolds` | nightly/2026-05-28/detectors/soroban/missing-new-admin-auth/src/mir_auth_flow.rs:230-254 | The constant found for a local is its value after every execution of the statements, if no projected write follows its last whole assignment. |
| `AuthRuns.PruningIsSound` | nightly/2026-05-28/detectors/soroban/missing-new-admin-auth/src/mir_auth_flow.rs:214-228 | If a constant target is found, every execution of the block leaves the switch to that block (switch on a constant, or on a local not written through a projection later). |
| `AuthRuns.PruningIsExact` | nightly/2026-05-28/detectors/soroban/missing-new-admin-auth/src/mir_auth_flow.rs:230-254 | For a switch on a local: pruning drops no feasible edge if and only if no projected write follows the last whole assignment, or the switch goes to one block whatever the value. |
| `AuthRuns.TakenEdgeIsLive` | nightly/2026-05-28/detectors/soroban/missing-new-admin-auth/src/mir_auth_flow.rs:283-298 | The edge an execution of the block takes is among the edges the analysis follows. |
| `AuthExact.LiveIffTaken` | nightly/2026-05-28/detectors/soroban/missing-new-admin-auth/src/mir_auth_flow.rs:214-254 | For a block with distinct case values whose switch local is not written through a projection later: the analysis follows an edge if and only if some execution of the block leaves along it. So pruning drops every edge it can, and no other. |
| `AuthRuns.TargetForValueIsFirst` | nightly/2026-05-28/detectors/soroban/missing-new-admin-auth/src/mir_auth_flow.rs:227 | The lookup of a switch value goes to the first case with the value, and to the default if there is none. |
| `AuthExact.ExitIsLeftByNone` | nightly/2026-05-28/detectors/soroban/missing-new-admin-auth/src/mir_auth_flow.rs:330-332 | A block counts as an exit for the summary if and only if no execution leaves it. |
| `AuthExact.BlockKillsMeaning` | nightly/2026-05-28/detectors/soroban/missing-new-admin-auth/src/mir_auth_flow.rs:200-212 | A block authorizes a value if and only if an event at one of its statements, or at its terminator, names it. |
| `AuthExact.ReportedMeaning` | nightly/2026-05-28/detectors/soroban/missing-new-admin-auth/src/mir_auth_flow.rs:424-446 | A sink is reported if and only if it has a parameter, and a path comes to its block on which nothing authorizes that parameter, or the stored admin, up to the statement just before the sink. |
| `AuthEngine.IterateToFixpoint` | nightly/2026-05-28/detectors/soroban/missing-new-admin-auth/src/mir_auth_flow.rs:262-298 | The worklist ends with the meet over all paths: a bit is in the entry state of a block if and only if some path of the pruned graph brings it there unauthorized. It holds for every initial order of the blocks. |
| `AuthEngine.ProcessBlock` | nightly/2026-05-28/detectors/soroban/missing-new-admin-auth/src/mir_auth_flow.rs:274-328 | One worklist step keeps the engine invariant; it shrinks the set of missing bits or changes nothing. |
| `AuthEngine.Propagate` | nightly/2026-05-28/detectors/soroban/missing-new-admin-auth/src/mir_auth_flow.rs:33-42 | Joining along an edge changes only the target, requeues it exactly when it gained a bit, and gains only bits that flow. |
| `AuthEngine.SettledCoversPath` | nightly/2026-05-28/detectors/soroban/missing-new-admin-auth/src/mir_auth_flow.rs:257-298 | When nothing is pending, every bit that survives a path is in the entry state of its last block. |
| `AuthEngine.AuthState.Join` | nightly/2026-05-28/detectors/soroban/missing-new-admin-auth/src/mir_auth_flow.rs:33-42 | Join is union on every bit, and reports a change if and only if the other state has a bit that this one had not. |
| `AuthEngine.AuthState.ApplyAuthEvents` | nightly/2026-05-28/detectors/soroban/missing-new-admin-auth/src/mir_auth_flow.rs:200-212 | A bit survives a location if and only if none of its events authorizes it. |
| `AuthEngine.AuthState.ApplyBlock` | nightly/2026-05-28/detectors/soroban/missing-new-admin-auth/src/mir_auth_flow.rs:274-298 | A bit survives a block if and only if no event of a statement or of the terminator authorizes it. |
| `AuthEngine.AuthState.ApplyCallReturnEffect` | nightly/2026-05-28/detectors/soroban/missing-new-admin-auth/src/mir_auth_flow.rs:300-327 | A bit survives a call return if and only if the callee has no summary, or its summary claims nothing it received for that bit. |
| `AuthEngine.CallKillsByArgument` | nightly/2026-05-28/detectors/soroban/missing-new-admin-auth/src/mir_auth_flow.rs:313-326 | The authorizations of a call return, argument by argument: parameter `i` is authorized if and only if some claimed argument position received it. |
| `AuthEngine.AddressParamSet` | nightly/2026-05-28/detectors/soroban/missing-new-admin-auth/src/mir_auth_flow.rs:334-342 | The set holds exactly the positions of address parameters. |
| `AuthEngine.ComputeSummaryForFn` | nightly/2026-05-28/detectors/soroban/missing-new-admin-auth/src/mir_auth_flow.rs:344-394 | The summary is the meet-over-paths summary: a bit is claimed if and only if it starts unauthorized and no path leaves the function with it unauthorized. |
| `AuthEngine.LintSinksForFn` | nightly/2026-05-28/detectors/soroban/missing-new-admin-auth/src/mir_auth_flow.rs:396-447 | A sink is reported if and only if it has a parameter and some path comes to just before it with that parameter, or some path with the current admin, unauthorized. |
| `AuthEngine.LintLocation` | nightly/2026-05-28/detectors/soroban/missing-new-admin-auth/src/mir_auth_flow.rs:424-446 | The same for the sinks of one location, judged before the effect of the location itself. |
| `AuthFlow.SummaryMonotone` | nightly/2026-05-28/detectors/soroban/missing-new-admin-auth/src/mir_auth_flow.rs:344-394 | Recomputing a summary from larger callee summaries gives a larger summary. |
| `AuthFlow.LiveEdgesInRange` | nightly/2026-05-28/detectors/soroban/missing-new-admin-auth/src/mir_auth_flow.rs:283-298 | Every edge the analysis follows, the kept one of a constant switch included, leads to a block of the body. |
| `AuthAliases.AliasTracker.ResolveAlias` | nightly/2026-05-28/detectors/soroban/missing-new-admin-auth/src/lib.rs:293-302 | Terminates on every alias map the visitor builds; the result is a parameter or stored-admin local exactly when the chain of copies leads back to one, and then it is that one. |
| `AuthAliases.AliasTracker.VisitLocal` | nightly/2026-05-28/detectors/soroban/missing-new-admin-auth/src/lib.rs:340-360 | Visiting a `let` with a fresh binding keeps the alias invariant. |
| `AuthAliases.LetKeepsConsistent` | nightly/2026-05-28/detectors/soroban/missing-new-admin-auth/src/lib.rs:340-358 | After one more `let`, every alias still points to a parameter or stored-admin local that is no alias itself, for every local bound so far. |
| `AuthAliases.AdminReadNamesNoLocal` | nightly/2026-05-28/detectors/soroban/missing-new-admin-auth/src/lib.rs:305-337 | An initializer that reads the stored admin names no local, so a stored-admin local never becomes an alias. |
| `AuthAliases.FreshRoots` | nightly/2026-05-28/detectors/soroban/missing-new-admin-auth/src/lib.rs:348-356 | A fresh `let` changes the root of no other local; its own root is that of the local it copies. |
| `AuthAliases.RootHasTheValue` | nightly/2026-05-28/detectors/soroban/missing-new-admin-auth/src/lib.rs:293-302 | If each copying `let` gives its local the value of what it copies, a local has the value of its root. |
| `AuthAliasShapes.StrippedIdMeaning` | nightly/2026-05-28/detectors/soroban/missing-new-admin-auth/src/utils.rs:37-51 | An initializer names a local if and only if it is that local under blocks, borrows, dereferences and conversions: any number of each, in any order. |
| `AuthAliasShapes.AdminReadMeaning` | nightly/2026-05-28/detectors/soroban/missing-new-admin-auth/src/lib.rs:305-337 | An initializer reads the stored admin if and only if it is a privileged `get` on storage, unwrapped or converted any number of times, under such wrappers. |
| `AuthAliasShapes.ChainResolves` | nightly/2026-05-28/detectors/soroban/missing-new-admin-auth/src/lib.rs:340-358 | In any list of fresh bindings, the end of a chain of copies that begins with a parameter or a stored-admin local resolves to its beginning. |
| `AuthAliasShapes.ResolveAfter` | nightly/2026-05-28/detectors/soroban/missing-new-admin-auth/src/lib.rs:293-360 | The same for the visitor itself: after it has visited the bindings, a local resolves to the beginning of every chain that ends in it. |
| `CallGraph.ReachableFunctions` | nightly/2026-05-28/detectors/soroban/missing-new-admin-auth/src/lib.rs:106-120 | The stack search yields exactly the functions reachable from the entry point, for every order of callees. |
| `DivisionByZero.SilenceIsSafe` | nightly/2026-05-28/detectors/soroban/division-by-zero/src/lib.rs:547-580 | A well-scoped, clean body without a finding, in which no condition that guards something holds a division, never divides by zero: for all parameter values, all results of calls and all fuel, through loops, breaks and early returns. Constant locals count as constants. |
| `DivisionByZero.FullSilenceIsSafe` | nightly/2026-05-28/detectors/soroban/division-by-zero/src/lib.rs:547-580 | The same with divisions in guarding conditions, if a walk that visits these conditions as well, each conjunct under the guards of those before it, finds nothing. |
| `DivisionWalks.WalksAgree` | nightly/2026-05-28/detectors/soroban/division-by-zero/src/lib.rs:552-568 | Where no guarding condition holds a division, the walk of the detector and the walk that skips nothing find the same. |
| `DivisionSoundness.ConstantHasOneValue` | nightly/2026-05-28/common/analysis/src/constant_analyzer/mod.rs:34-102 | What is taken for a constant (literals, named constants, constant locals, and fields, operators and casts of them) changes nothing and has the same value in every state a body can be in. |
| `DivisionByZero.ConstantLetAgrees` | nightly/2026-05-28/common/analysis/src/constant_analyzer/mod.rs:157-167 | A `let` of a constant local leaves it with the recorded value. |
| `DivisionByZero.GuardedExpr` | nightly/2026-05-28/detectors/soroban/division-by-zero/src/lib.rs:547-580 | The same for every expression under any active guards that hold in the state. |
| `DivisionByZero.GuardedCondition` | nightly/2026-05-28/detectors/soroban/division-by-zero/src/lib.rs:271-310 | A condition that guards something does not divide by zero if the full walk of it, which protects each conjunct with what those before it prove, finds nothing. |
| `DivisionByZero.GuardedStmts` | nightly/2026-05-28/detectors/soroban/division-by-zero/src/lib.rs:484-538 | After statements that complete, the guards collected from them hold for the rest of the block. |
| `DivisionByZero.SafeDivisor` | nightly/2026-05-28/detectors/soroban/division-by-zero/src/lib.rs:440-480 | A divisor accepted for any reason (constant, form, non-empty receiver, guarded local) does not evaluate to zero where the guards hold. |
| `DivisionByZero.ZeroGuardHolds` | nightly/2026-05-28/detectors/soroban/division-by-zero/src/lib.rs:352-369 | If an `if` with a diverging zero branch completes, the local is in scope and not zero afterwards. |
| `DivisionByZero.NonemptyGuardHolds` | nightly/2026-05-28/detectors/soroban/division-by-zero/src/lib.rs:383-397 | If an `if` with a diverging emptiness branch completes, the collection is not empty afterwards. |
| `DivisionByZero.BranchNeverCompletes` | nightly/2026-05-28/detectors/soroban/division-by-zero/src/lib.rs:208-229 | A branch recognised as diverging never completes with a value. |
| `DivisionLimits.SkippedConditionIsMissed` | nightly/2026-05-28/detectors/soroban/division-by-zero/src/lib.rs:552-568 | A concrete body without a finding that divides by zero: the division sits in a condition that guards something else, which is not walked. |
| `DivisionLimits.OnlyTheConditionIsMissed` | nightly/2026-05-28/detectors/soroban/division-by-zero/src/lib.rs:552-568 | Such an `if`, silent and clean but for its condition, divides by zero if and only if the evaluation of its condition does. |
| `DivisionLimits.LabeledConditionIsMissed` | nightly/2026-05-28/detectors/soroban/division-by-zero/src/lib.rs:271-283 | A concrete body without a finding that divides by zero: a labeled `break` leaves the condition with `true` before the conjunct that is taken to be proved. |
| `DivisionLimits.ConstantDivisorIsTrusted` | nightly/2026-05-28/detectors/soroban/division-by-zero/src/lib.rs:440-450 | A constant divisor other than a literal zero is never reported. With any clean, silent dividend the division divides by zero if and only if the dividend completes and the constant is zero, or divides by zero itself. |
| `DivisionLimits.LetBoundZeroIsMissed` | nightly/2026-05-28/detectors/soroban/division-by-zero/src/lib.rs:440-450 | A concrete body without a finding that divides by zero: the divisor is a local bound to the literal zero. |
| `DivisionByZero.DivisionByZeroVisitor.VisitExpr` | nightly/2026-05-28/detectors/soroban/division-by-zero/src/lib.rs:547-580 | The visitor appends exactly the specified findings of the expression under the active guards, and leaves the guards as they were. |
| `DivisionByZero.DivisionByZeroVisitor.WalkGuardedBlock` | nightly/2026-05-28/detectors/soroban/division-by-zero/src/lib.rs:484-539 | Guards met in a block protect its later statements and tail, and none outlives the block. |
| `DivisionByZero.DivisionByZeroVisitor.VisitStmt` | nightly/2026-05-28/detectors/soroban/division-by-zero/src/lib.rs:490-531 | The guards after one statement: those before it and what it proves. |
| `DivisionByZero.DivisionByZeroVisitor.CheckBody` | nightly/2026-05-28/detectors/soroban/division-by-zero/src/lib.rs:584-605 | A silent pass over a clean, well-scoped body proves that no run of it divides by zero, if no guarding condition holds a division or the full walk is silent too. |
| `DivisionSilence.FindingsAreUnsafe` | nightly/2026-05-28/detectors/soroban/division-by-zero/src/lib.rs:440-580 | Every finding is an integer division whose divisor is unsafe under the guards that were active at the start: guards met on the way only take findings away. |
| `DivisionSilence.ZeroCheckProtects` | nightly/2026-05-28/detectors/soroban/division-by-zero/src/lib.rs:352-369 | After an `if` that compares a local with zero (on either side, with `==` or `!=`, under any number of negations) and does not fall through where the local is zero, no division by the local is reported in the rest of the block, at any depth. |
| `DivisionSilence.EmptinessCheckProtects` | nightly/2026-05-28/detectors/soroban/division-by-zero/src/lib.rs:383-397 | After an `if` that checks a collection for emptiness, by `is_empty` or by its length, and does not fall through where it is empty, no division by its length, cast or not, is reported in the rest of the block. |
| `DivisionSilence.NonzeroLetProtects` | nightly/2026-05-28/detectors/soroban/division-by-zero/src/lib.rs:513-524 | After a `let` of a non-zero form, no division by the local is reported in the rest of the block. |
| `DivisionSilence.SafeFormIsSilent` | nightly/2026-05-28/detectors/soroban/division-by-zero/src/lib.rs:440-456 | A division by `max`, `clamp` or a shift with a positive literal, or by a constant other than the literal zero, is reported nowhere. |
| `DivisionSilence.ConjunctProtects` | nightly/2026-05-28/detectors/soroban/division-by-zero/src/lib.rs:547-568 | In the branch that an `if` takes where some conjunct of its condition says that a local is not zero, no division by the local is reported. |
| `DivisionForms.BranchIsRecognised` | nightly/2026-05-28/detectors/soroban/division-by-zero/src/lib.rs:208-229 | A branch counts as diverging if and only if it is a jump or an expression of type `!`, alone or at the end of a block, with or without a semicolon. |
| `DivisionForms.ZeroComparisonForms` | nightly/2026-05-28/detectors/soroban/division-by-zero/src/lib.rs:237-250 | A comparison of a local with zero is recognised, and for what it says, if and only if it is `==` or `!=` with the literal zero on either side, under any number of negations. |
| `DivisionForms.ZeroCheckForms` | nightly/2026-05-28/detectors/soroban/division-by-zero/src/lib.rs:352-369 | An `if` guards a local against zero if and only if it compares the local with zero and its branch for zero does not fall through. |
| `DivisionForms.EmptinessCheckForms` | nightly/2026-05-28/detectors/soroban/division-by-zero/src/lib.rs:383-397 | An `if` guards a collection if and only if it checks it by `is_empty`, or by a length below or not above a positive literal, and its first branch does not fall through. |
| `DivisionForms.ConjunctForms` | nightly/2026-05-28/detectors/soroban/division-by-zero/src/lib.rs:271-327 | A condition proves a local non-zero if and only if some conjunct says so: on either side of nested `&&`, lowered or not, in single-expression blocks and under temporaries. |
| `DivisionForms.FormIsRecognised` | nightly/2026-05-28/detectors/soroban/division-by-zero/src/lib.rs:147-172 | The non-zero forms are exactly `max` and `clamp` with a positive literal first, and shifts of a positive literal. |
| `DivisionForms.GuardedLocalForms` | nightly/2026-05-28/detectors/soroban/division-by-zero/src/lib.rs:490-528 | The locals guarded after a statement: those guarded before, one checked against zero by it, or one that it binds to a non-zero form. |
| `DivisionForms.GuardedReceiverForms` | nightly/2026-05-28/detectors/soroban/division-by-zero/src/lib.rs:503-510 | The collections guarded after a statement: those guarded before, and one checked for emptiness by it. |
| `DivisionForms.UnsafeForms` | nightly/2026-05-28/detectors/soroban/division-by-zero/src/lib.rs:440-480 | A divisor is unsafe if and only if it is the literal zero, or neither a constant, nor a non-zero form, nor a guarded local, nor the length, cast or not, of a guarded collection of simple form. |
| `DivisionSilence.BlockSplits` | nightly/2026-05-28/detectors/soroban/division-by-zero/src/lib.rs:484-539 | The findings of a block are those in its first statements, followed by those in the rest under the guards that the first leave. |
| `DivisionForms.ConstantForms` | nightly/2026-05-28/common/analysis/src/constant_analyzer/mod.rs:34-102 | What counts as a constant is exactly what is built from literals, named constants, constant locals and what the compiler evaluates, by fields, operators and casts. |
| `DivisionSoundness.ProvenLocalsNonzero` | nightly/2026-05-28/detectors/soroban/division-by-zero/src/lib.rs:271-310 | Every local collected from a condition is in scope and non-zero in the state after the condition holds, through `&&`, blocks and the lowered `if`. |
| `DivisionSoundness.ZeroComparisonMeaning` | nightly/2026-05-28/detectors/soroban/division-by-zero/src/lib.rs:237-250 | A recognised comparison changes nothing; if it says that the local is not zero, the local is not zero, through any number of negations. |
| `DivisionSoundness.NonzeroFormIsNonzero` | nightly/2026-05-28/detectors/soroban/division-by-zero/src/lib.rs:147-172 | The standard `clamp` and `max`, and a shift of an odd literal, never evaluate to zero. |
| `DivisionLimits.OnlyStandardMethodsAreNonzero` | nightly/2026-05-28/detectors/soroban/division-by-zero/src/lib.rs:147-164 | A method form that is accepted, and can be evaluated, is non-zero on every run if and only if the method is the standard one; the code matches the name only. |
| `DivisionLimits.OwnMaxIsMissed` | nightly/2026-05-28/detectors/soroban/division-by-zero/src/lib.rs:147-164 | A concrete division by `w.max(1)`, with a method `max` that belongs to another type and returns zero: no finding, and a division by zero. |
| `DivisionSoundness.ShiftRecogniserIsExact` | nightly/2026-05-28/detectors/soroban/division-by-zero/src/lib.rs:165-170 | `literal << k` is non-zero for every `k` below the width if and only if the literal is odd. |
| `DivisionSoundness.LengthCastRecogniserIsExact` | nightly/2026-05-28/detectors/soroban/division-by-zero/src/lib.rs:118-124 | A cast keeps every non-zero 32-bit length non-zero if and only if it keeps at least 32 bits. |
| `DivisionWalks.NothingToFind` | nightly/2026-05-28/detectors/soroban/division-by-zero/src/lib.rs:552-568 | Neither walk finds anything in an expression without integer divisions. |
| `DivisionSoundness.PureStable` | nightly/2026-05-28/detectors/soroban/division-by-zero/src/lib.rs:380-382 | A side-effect-free receiver changes nothing and has the same value wherever the locals in scope have the same values. |
| `HirScopes.FrameExpr` | nightly/2026-05-28/detectors/soroban/division-by-zero/src/lib.rs:427-436 | No expression changes the value of a local in scope, so a guard that was earned stays earned. |
| `StaleReadsExact.ReportedIffStaleOnSomePath` | nightly/2026-05-28/detectors/soroban/uncached-storage-modification/src/lib.rs:102-244 | In a well-scoped body a `get` is reported if and only if, for some choice of branches (a match counting as having an empty arm too), it reads a key whose value is held modified and not written back. |
| `StaleReadsExact.VisitStands` | nightly/2026-05-28/detectors/soroban/uncached-storage-modification/src/lib.rs:102-230 | For every expression and every state: the one merged state stands for the whole set of paths, before and after. |
| `StaleReadsExact.EventStands` | nightly/2026-05-28/detectors/soroban/uncached-storage-modification/src/lib.rs:159-227 | Every single event (bind, modify, read, write) keeps that relation. |
| `StaleReadsExact.MergeStands` | nightly/2026-05-28/detectors/soroban/uncached-storage-modification/src/lib.rs:300-319 | The merge of two states stands for the union of the paths of both. |
| `StaleReadsExact.ArmsStand` | nightly/2026-05-28/detectors/soroban/uncached-storage-modification/src/lib.rs:136-154 | The arms of a match, each started from the state before the match and merged into it, stand for the paths of any arm or of none. |
| `StaleReadsExact.RealPathsCovered` | nightly/2026-05-28/detectors/soroban/uncached-storage-modification/src/lib.rs:102-157 | Every path that takes exactly one arm of each match is among the paths the walk stands for. |
| `StaleReadsExact.RealStaleReadsReported` | nightly/2026-05-28/detectors/soroban/uncached-storage-modification/src/lib.rs:102-157 | No stale read of a real choice of branches is missed. |
| `StaleReadsArms.MatchMergeStartsFromPreState` | nightly/2026-05-28/detectors/soroban/uncached-storage-modification/src/lib.rs:136-152 | The price of the empty arm, as a whole body that is well scoped: its only arm writes the key back, no real path reads a stale value, and the last read is reported. |
| `StaleReadsArms.IdleArmsAddNoPath` | nightly/2026-05-28/detectors/soroban/uncached-storage-modification/src/lib.rs:136-152 | If every match has an arm whose pattern, guard and body bind, modify, read and write nothing, the empty arm adds no path. |
| `StaleReadsArms.ReportedIffStaleOnRealPath` | nightly/2026-05-28/detectors/soroban/uncached-storage-modification/src/lib.rs:102-244 | In such a body a read is reported if and only if it is stale on a real choice of branches. |
| `StaleReadsVisitor.StateVisitor.VisitExpr` | nightly/2026-05-28/detectors/soroban/uncached-storage-modification/src/lib.rs:102-230 | The visitor, saving, restoring and merging its maps in place, computes the walk. |
| `StaleReadsVisitor.StateVisitor.VisitArmsOf` | nightly/2026-05-28/detectors/soroban/uncached-storage-modification/src/lib.rs:130-156 | The arm loop: every arm from the saved state, the merge started from the saved state. |
| `StaleReadsVisitor.StateVisitor.MergeWith` | nightly/2026-05-28/detectors/soroban/uncached-storage-modification/src/lib.rs:300-319 | The entry-by-entry merge yields: modified in either; otherwise what the first state says. |
| `StaleReadsVisitor.StateVisitor.CheckStaleRead` | nightly/2026-05-28/detectors/soroban/uncached-storage-modification/src/lib.rs:166-187 | A read is reported if and only if some tracked local of its key is modified, in whatever order the map is read. |
| `StaleReadsVisitor.StateVisitor.CleanVarsForKey` | nightly/2026-05-28/detectors/soroban/uncached-storage-modification/src/lib.rs:362-368 | After a write, every local of the key is clean, also one that the current branch does not track. |
| `StaleReadsVisitor.StateVisitor.ProcessPat` | nightly/2026-05-28/detectors/soroban/uncached-storage-modification/src/lib.rs:321-344 | Every local a pattern binds becomes clean and belongs to the key. |
| `StaleReadsVisitor.StateVisitor.CheckBody` | nightly/2026-05-28/detectors/soroban/uncached-storage-modification/src/lib.rs:71-86 | The whole check reports exactly the stale reads of some path. |
| `StaleReadsForms.KeyMeaning` | nightly/2026-05-28/detectors/soroban/uncached-storage-modification/src/lib.rs:284-298 | An initializer is read from a key if and only if it is a `get` whose first argument is the key under any number of borrows, under any number of `unwrap`, `unwrap_or` and `expect`. |
| `StaleReadsForms.RootMeaning` | nightly/2026-05-28/detectors/soroban/uncached-storage-modification/src/lib.rs:354-360 | An expression names a local if and only if it is the local under any number of borrows. |
| `StaleReadsForms.EventMeaning` | nightly/2026-05-28/detectors/soroban/uncached-storage-modification/src/lib.rs:159-282 | Which nodes bind, modify, read and write, form by form: bindings of a `let` or `if let`, assignments, `&mut` arguments, `&mut self` receivers, `get` and `set` on storage. |
| `StaleReadsForms.StorageCallFirst` | nightly/2026-05-28/detectors/soroban/uncached-storage-modification/src/lib.rs:160-202 | What a storage call does to its key comes before what the same call modifies. |
| `StaleReadsWalk.ChildrenAreTheParts` | nightly/2026-05-28/detectors/soroban/uncached-storage-modification/src/lib.rs:229 | A node that is not a branch walks all its parts, and nothing else. |
| `StaleReadsWalk.NothingIsPassedOver` | nightly/2026-05-28/detectors/soroban/uncached-storage-modification/src/lib.rs:102-244 | Wherever they are inside an expression: a read of a key is reported if a local bound from it is modified, a modification leaves its local modified, and a write in straight code leaves its local clean, unless something else in the expression undoes it. |
| `StaleReadsWalk.LetModifyRead` | nightly/2026-05-28/detectors/soroban/uncached-storage-modification/src/lib.rs:232-244 | Binding by `let`, modifying, reading: the read is reported, for every form of each, at any depth, from any state. |
| `StaleReadsWalk.IfLetModifyRead` | nightly/2026-05-28/detectors/soroban/uncached-storage-modification/src/lib.rs:212-220 | The same for a binding by `if let`. |
| `StaleReadsWalk.MatchModifyRead` | nightly/2026-05-28/detectors/soroban/uncached-storage-modification/src/lib.rs:126-156 | The same for a binding by any arm of a `match`. |
| `NonTerminatingLoop.EscapeFreeLoopNeverFinishes` | nightly/2026-05-28/detectors/soroban/non-terminating-loop/src/lib.rs:120-134 | However long it runs, a loop without an escape yields no value, breaks nothing and does not return: it is still running, an operation in it panicked, or it continued a loop around it. |
| `NonTerminatingLoop.EscapeFreeExpr` | nightly/2026-05-28/detectors/soroban/non-terminating-loop/src/lib.rs:76-118 | Escape-free code leaves no loop but those nested in it: breaks go to nested loops, continues to nested loops or to the listed ones. |
| `NonTerminatingLoop.ContinueLeavesTheLoop` | nightly/2026-05-28/detectors/soroban/non-terminating-loop/src/lib.rs:99-113 | A concrete loop that is reported and yet left at once, by a `continue` of the loop around it. |
| `NonTerminatingLoop.ContinueNeedNotLeave` | nightly/2026-05-28/detectors/soroban/non-terminating-loop/src/lib.rs:99-113 | The presence of such a `continue` decides nothing: a concrete loop that has one and is never left. |
| `NonTerminatingLoop.EscapeVisitor.VisitExpr` | nightly/2026-05-28/detectors/soroban/non-terminating-loop/src/lib.rs:76-118 | With scoped labels, the visitor that never forgets a nested loop finds an escape if and only if there is one. |
| `NonTerminatingLoop.LoopBodyHasNoEscape` | nightly/2026-05-28/detectors/soroban/non-terminating-loop/src/lib.rs:120-134 | The answer for a loop body is: there is no escape in it. |
| `NonTerminatingLoop.CheckLoop` | nightly/2026-05-28/detectors/soroban/non-terminating-loop/src/lib.rs:143-155 | Exactly the bare, hand-written loops without an escape are reported; a reported loop that continues no outer loop never finishes, for every state and every fuel. |
| `LoopEscapes.EscapeMeaning` | nightly/2026-05-28/detectors/soroban/non-terminating-loop/src/lib.rs:76-118 | There is an escape if and only if a path of parts leads to a `return`, to a call of type `!`, or to a `break` whose target is neither a given loop nor one the path goes into. |
| `LoopEscapes.BodyEscapeMeaning` | nightly/2026-05-28/detectors/soroban/non-terminating-loop/src/lib.rs:120-134 | The same for the body of a loop, where a `break` of the loop itself is an escape. |
| `LoopEscapes.ContinueHasPath` | nightly/2026-05-28/detectors/soroban/non-terminating-loop/src/lib.rs:65-69 | Every `continue` that the side condition of the report lists is at the end of a path of parts, and names a loop that is neither given nor on the path. |
| `LoopEscapes.ReportsLoop` | nightly/2026-05-28/detectors/soroban/non-terminating-loop/src/lib.rs:143-155 | A loop is reported if and only if it is a bare, hand-written `loop` and no path in its body leads to an escape; if no path leads to a `continue` of a loop around it either, it never finishes. |
| `ExprAnalyzer.Analyzer.AreEquivalentImpl` | nightly/2026-05-28/common/analysis/src/expr_analyzer/mod.rs:23-60 | Terminates on every binding map, a cyclic one included; computes the specified comparison and leaves the guard set as it found it. |
| `ExprAnalyzer.Analyzer.ArePathsEquiv` | nightly/2026-05-28/common/analysis/src/expr_analyzer/mod.rs:62-91 | The same for two paths: insertion into the guard set and removal from it cancel out on every way through. |
| `ExprAnalyzer.Analyzer.AreEquivalent` | nightly/2026-05-28/common/analysis/src/expr_analyzer/mod.rs:19-21 | The comparison starts from an empty guard set. |
| `ExprAnalyzer.EquivalentIsSound` | nightly/2026-05-28/common/analysis/src/expr_analyzer/mod.rs:23-91 | Equivalent expressions have the same value under every meaning of operators, constants and opaque nodes in which a recorded local has the value of its initializer; on every binding map and under every guard set. |
| `ExprAnalyzer.GuardNeverFires` | nightly/2026-05-28/common/analysis/src/expr_analyzer/mod.rs:72-84 | On acyclic bindings the guard set never decides: the answer is that of the recursion without a guard. |
| `ExprAnalyzer.PeelingOrderIsIrrelevant` | nightly/2026-05-28/common/analysis/src/expr_analyzer/mod.rs:47-57 | Whatever order blocks and drop-temps come off in, the two cores are what is compared. |
| `ExprAnalyzer.EquivalentIffSameShape` | nightly/2026-05-28/common/analysis/src/expr_analyzer/mod.rs:23-91 | On acyclic bindings two expressions are found equivalent if and only if they are the same up to node ids, wrappers and the names of recorded locals, which stand for their initializers. |
| `ExprAnalyzer.UnguardedSymmetric` | nightly/2026-05-28/common/analysis/src/expr_analyzer/mod.rs:23-91 | The comparison is symmetric on acyclic bindings. |
| `ExprAnalyzer.UnguardedTransitive` | nightly/2026-05-28/common/analysis/src/expr_analyzer/mod.rs:23-91 | The comparison is transitive on acyclic bindings. |
| `ExprAnalyzer.EquivalenceRelation` | nightly/2026-05-28/common/analysis/src/expr_analyzer/mod.rs:18-91 | On acyclic bindings the answers of the analyzer form an equivalence relation, equal those of the unguarded recursion, and are equality of shapes. |
| `CallGraph.IsAuthReachable` | nightly/2026-05-28/common/analysis/src/function_call_visitor/mod.rs:21-40 | True if and only if the start function, or a function it calls at any depth, authorizes; on every graph, cyclic ones included, for every order of callees. |
| `CallGraph.AnswerIsReachability` | nightly/2026-05-28/detectors/soroban/storage-change-events/src/lib.rs:110-153 | Whenever the recursion without a visited set answers, on any graph, it answers what the guarded search answers. |
| `CallGraph.TargetFoundWithoutCall` | nightly/2026-05-28/detectors/soroban/storage-change-events/src/lib.rs:119-124 | A callee that is a target is found without descending into it: after callees that answer no, one frame is enough. |
| `CallGraph.AcyclicAnswers` | nightly/2026-05-28/detectors/soroban/storage-change-events/src/lib.rs:110-153 | If there is no cycle in the calls that the recursion descends into (none out of a target, none after a callee that finds one), it answers as soon as the stack is as deep as there are functions in them. |
| `CallGraph.CycleOverflows` | nightly/2026-05-28/detectors/soroban/storage-change-events/src/lib.rs:110-153 | If there is a cycle in these calls, no stack is deep enough. |
| `CallGraph.FinishesIffAcyclic` | nightly/2026-05-28/detectors/soroban/storage-change-events/src/lib.rs:110-153 | For a given order of callees, the recursion finishes if and only if there is no cycle in the calls it descends into. |
| `CallGraph.FinishesInEveryOrder` | nightly/2026-05-28/detectors/soroban/storage-change-events/src/lib.rs:110-153 | It finishes for every order of callees if and only if there is no cycle below the start in the graph without the calls out of targets. |
| `CallGraph.MissesEventMeaning` | nightly/2026-05-28/detectors/soroban/storage-change-events/src/lib.rs:160-183 | Where both recursions finish, a public function is reported if and only if its flow holds no event, holds an eventless storage change, and it is not a getter that writes nothing itself. |
| `CallGraph.ReportsWrite` | nightly/2026-05-28/detectors/soroban/set-contract-storage/src/lib.rs:101-145 | A write is reported if and only if no authorization is reachable from its function, and that function is an entry point or has a direct entry-point caller from which none is reachable; for every order of the fold. |
| `CrossContractTarget.ComputeAttackerReachable` | nightly/2026-05-28/detectors/soroban/unvalidated-cross-contract-target/src/lib.rs:217-263 | The worklist ends with exactly the (function, parameter) pairs reachable from a non-constructor entry-point parameter along hand-overs whose every source is neither guarded nor authorized, for every seed order. |
| `CrossContractTarget.SeedEntryPoints` | nightly/2026-05-28/detectors/soroban/unvalidated-cross-contract-target/src/lib.rs:221-233 | The seeds are exactly the address parameters of public entry points other than constructors. |
| `CrossContractTarget.PopSlot` | nightly/2026-05-28/detectors/soroban/unvalidated-cross-contract-target/src/lib.rs:235-260 | One step keeps the worklist invariant and shrinks the worklist if it reaches nothing new. |
| `CrossContractTarget.ForwardEdges` | nightly/2026-05-28/detectors/soroban/unvalidated-cross-contract-target/src/lib.rs:252-259 | Exactly the targets of the edges of one pair are added, each to the worklist only if new. |
| `CrossContractTarget.CheckCratePost` | nightly/2026-05-28/detectors/soroban/unvalidated-cross-contract-target/src/lib.rs:114-156 | The findings are exactly the candidates whose target parameter is attacker-controlled and unprotected in the calling function. |
| `CrossContractTarget.ProtectionIsAntitone` | nightly/2026-05-28/detectors/soroban/unvalidated-cross-contract-target/src/lib.rs:122-155 | More guards or more authorized functions never add a finding. |
| `CrossContractTarget.EntryPointFinding` | nightly/2026-05-28/detectors/soroban/unvalidated-cross-contract-target/src/lib.rs:122-155 | A candidate on an entry point's own parameter is reported if and only if that parameter is unprotected there. |
| `CrossContractTarget.IndicesAlign` | nightly/2026-05-28/detectors/soroban/unvalidated-cross-contract-target/src/lib.rs:511-526 | Counting address types before a raw position gives the index of that parameter in the filtered list, and gives none exactly for a position that is not in the list. |
| `CrossContractTarget.CollectedCount` | nightly/2026-05-28/detectors/soroban/unvalidated-cross-contract-target/src/lib.rs:275-285 | The filtered list holds the positions of exactly the address parameters, in order, and as many as there are. |
| `Dependencies.DependencyGraph.New` | apps/cargo-scout-audit/crates/cargo-scout-audit/src/util/dependencies.rs:12-59 | Succeeds if and only if there is a resolution and all its nodes and dependencies are known; then the matrix is exactly the resolved relation. Otherwise the error names the first faulty node, and says whether it or one of its dependencies is unknown. |
| `Dependencies.DependencyGraph.Connect` | apps/cargo-scout-audit/crates/cargo-scout-audit/src/util/dependencies.rs:38-51 | Writing one row turns the encoded relation into the one with that node; stops at the first unknown dependency. |
| `Dependencies.DependencyGraph.GetDependencies` | apps/cargo-scout-audit/crates/cargo-scout-audit/src/util/dependencies.rs:60-72 | Exactly the columns set in a row; none out of range. |
| `Dependencies.DependencyGraph.GetDependents` | apps/cargo-scout-audit/crates/cargo-scout-audit/src/util/dependencies.rs:73-84 | Exactly the rows set in a column; none out of range. |
| `Dependencies.DependencyGraph.DependsOn` | apps/cargo-scout-audit/crates/cargo-scout-audit/src/util/dependencies.rs:85-128 | An error if and only if one of the packages is unknown (the first one named); otherwise the single edge if `direct`, reflexive-transitive reachability in the resolution graph if not. |
| `Dependencies.DependencyGraph.ListDependants` | apps/cargo-scout-audit/crates/cargo-scout-audit/src/util/dependencies.rs:134-171 | Exactly the packages that depend on the given one, each once; none for an unknown package. |
| `Dependencies.DependencyGraph.SearchesAgree` | apps/cargo-scout-audit/crates/cargo-scout-audit/src/util/dependencies.rs:85-171 | `depends_on(p, d)` holds if and only if `p` is in `list_dependants(d)`, direct or not. |
| `Dependencies.DependencyGraph.Search` | apps/cargo-scout-audit/crates/cargo-scout-audit/src/util/dependencies.rs:101-120 | The forward search over the matrix, stopping early, decides reachability between two rows. |
| `Dependencies.DependencyGraph.BackwardSearch` | apps/cargo-scout-audit/crates/cargo-scout-audit/src/util/dependencies.rs:143-156 | The backward search marks exactly the rows that reach the target. |
| `Dependencies.MatrixReachability` | apps/cargo-scout-audit/crates/cargo-scout-audit/src/util/dependencies.rs:30-52 | Reachability between cells of the matrix is reachability between packages in the resolution graph. |
| `Dependencies.CellWritten` | apps/cargo-scout-audit/crates/cargo-scout-audit/src/util/dependencies.rs:50 | Writing index row times n plus column changes that cell of the matrix and no other. |
| `Dependencies.CellUnique` | apps/cargo-scout-audit/crates/cargo-scout-audit/src/util/dependencies.rs:50 | Two cells share an index of the flattened matrix if and only if they are the same cell. |
| `Dependencies.OneMoreDependency` | apps/cargo-scout-audit/crates/cargo-scout-audit/src/util/dependencies.rs:38-51 | One more dependency of a node adds exactly one pair to the relation. |
| `Reachability.ReachableReverse` | apps/cargo-scout-audit/crates/cargo-scout-audit/src/util/dependencies.rs:134-156 | Following edges backwards reaches exactly the nodes from which following them forwards reaches the start. |
| `Reachability.SearchStep` | nightly/2026-05-28/common/analysis/src/function_call_visitor/mod.rs:28-38 | Visiting the top of the stack and stacking its unvisited successors keeps the invariant of all stack searches. |
| `Reachability.SearchDone` | nightly/2026-05-28/common/analysis/src/function_call_visitor/mod.rs:28-39 | When the stack is empty, what was visited is exactly what is reachable. |

## Left out

- Construction of HIR and MIR, type and path resolution, constant evaluation, macro expansion and diagnostics: their results are inputs of the model.
- Matching of source spans to locations (`mir_auth_flow.rs`, lines 59-186): events, sinks and call sites come with their locations.
- The out-of-range panic of bit sets: a set of naturals stands for a bit set over the parameters.
- AuthSummaries.CheckEntryPoint: one entry point at a time; the loop over all entry points only reports each of them.
- AuthRuns.PruningIsSound: stores have no pointers, so a write through a reference to the switch local is not modelled; entry stores of blocks are arbitrary, which only allows more runs.
- AuthRuns.UnreportedSinkIsAuthorized: a call returns the callee's completed run, which ends in a `return`; unwinding into the caller's cleanup takes any run.
- AuthAliases.AliasTracker.VisitLocal: takes fresh bindings in the order in which they are visited; reassignment of a local is not tracked by the code and not modelled. The call, sink and event collection of the same visitor is an input.
- DivisionByZero.SilenceIsSafe: locals are never reassigned and collections never mutated, which the code assumes as well. The compound assignments `x /= d` and `x %= d` are not in the syntax: the detector never examines them, so "never divides by zero" does not speak of them. Patterns in `match` arms bind nothing (an opaque `let` does instead); closures are not in the syntax. Expressions that are not in the syntax (references, tuples, indexing, struct literals) stand as calls of their parts. Operators and casts on values other than integers and booleans are fixed functions of the operands, which may panic; that they divide by zero inside is not modelled.
- DivisionSoundness.ConstantHasOneValue: the map of constant locals that the constant analyzer collects is an input, and a clean body binds each to its recorded value; constant arrays, structs, indexing and constructor calls, which are no integers or not in the syntax, are left out.
- DivisionGuards.EqExprValue: equality of receivers holds of side-effect-free expressions of locals, constants, fields, operators and casts; the library predicate used by the code also accepts some calls.
- DivisionLimits.OnlyTheConditionIsMissed: speaks of one `if`; for whole bodies the sufficient condition is DivisionByZero.FullSilenceIsSafe.
- NonTerminatingLoop.CheckLoop: decides one loop; the walk that finds the loops of a body, and the span it reports, are left out. A `break` always has a resolved target.
- StaleReadsVisitor.StateVisitor.VisitExpr: the span of the modification that a finding points to is left out, and repeated reports of one read count once.
- StaleReadsExact.ReportedIffStaleOnSomePath: follows one pass through loop bodies and ignores early exits, aliasing and reassignment, as the visitor does.
- ExprAnalyzer.EquivalentIsSound: node ids are unique in a body and locals are not reassigned; `collect_locals` is an input. A block is its tail: the statements of a block, at which the comparison never looks, are not in the syntax, so they are taken to have no effect on the value of the tail.
- CrossContractTarget.ComputeAttackerReachable: guards, candidates and edges are inputs; the visitor that collects them, and the test for public entry points, are left out.
- The visitor that builds the call graph: the graph is an input.
- The `unsafe` arithmetic checker, `divide-before-multiply`, the MIR half of `unrestricted-transfer-from`: no property worth stating holds of them.
- Pattern lints (assertions, unsafe blocks, exponentiation, lossy casts, name lists and others): each decides by the form of one expression.
- The orchestrator: command line, subprocesses, builds, telemetry and reports.
