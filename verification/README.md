# Geyser, modelled and proved

Geyser is a symbolic model checker. It reads an and-inverter graph in the AIGER
format, brings it into a normal form, translates it into a transition system in
conjunctive normal form, and lets one of its engines decide whether a bad state
is reachable: PDR, forward CAR or bounded model checking. All engines talk to an
incremental SAT solver through activation literals, assumptions, failed
assumptions and one temporary clause.

This project models that path from the graph to the verdict, together with the
library algorithms it leans on, and proves:

- PDR and forward CAR always stop, and answer "safe" exactly if the graph is
  safe; then the graph has an inductive invariant. Every counterexample, read by
  position as it is printed, is a run of the graph that makes the property fail;
  its start, with the latches that start at one set, is initial and fails under
  the printed inputs as well (`Geyser.CheckWithPdr`, `Geyser.CheckWithCar`). What
  a run, a failure and an invariant of a graph are takes its constraints into
  account; the builder rejects such graphs, and gives the reason. The invariant is one of PDR's
  frames, or a union of CAR's; PDR opens at most 2^n + 2 frames and CAR at most
  2^n + 1 for n state variables (`Pdr.PdrEngine.Run`, `Car.CarEngine.Run`).
- Bounded model checking finds a shortest counterexample within the bound, a run
  of the graph from an initial state, or shows that there is none
  (`Geyser.CheckWithBmc`).
- The translated system starts, steps and fails as the graph does, latch by
  latch and input by input, and its transition relation is total and
  deterministic, which is what the engines' assertions about unsatisfiable
  queries rest on.
- Renumbering, the cycle check and the binary gate section of the AIGER library
  do what the builder needs of them.
- CaDiCaL's online proof checker accepts only clauses that the originals imply.
  Over a whole proof it keeps every clause that has been added and not deleted,
  or knows it to be true: it refuses a derivation only if unit propagation over
  those clauses cannot confirm it, a deletion only of a clause that is not among
  them, and it reports an inconsistency as soon as unit propagation finds one
  (`Checkers.CheckProof`).

## How to read it

States and inputs are sets of the variables that are true; formulas are
sequences of clauses of non-zero integers, and their meaning is given by
`Logic.Models`. The engines, pools, the solver, the variable store, the
renumbering and the proof checker are classes with the fields of the originals,
updated by loops; their methods are proved against predicates over those fields.
The solver class fixes what an answer has to carry (a model, or a failed subset
of the assumptions) and leaves the choice open; an enumeration of assignments
shows that the contract can be met.

| file | content |
|---|---|
| Logic, FlatFormula | literals, clauses, cubes; the zero-terminated vectors formulas are stored in |
| TransitionSystem, Solver | transition systems and their meaning; the solver's interface; the variable store |
| Aig, DepthFirst, Cycles, Numbering, Reencoding, BinaryFormat | and-inverter graphs and the algorithms of the AIGER library |
| Builder | from graphs to transition systems |
| Frames, FrameInvariant, Chains, Queries, Queues | what PDR and CAR share: clause database, frames, successor chains, query lemmas, the obligation queue |
| PdrQueries, PdrObligations, Pdr | the PDR engine |
| LostStart | a system on which PDR's counterexample does not start initially |
| CarQueries, CarInductive, CarObligations, Car | the forward CAR engine |
| Unrolling, Bmc | bounded model checking |
| Watching, Records, Checker | the proof checker: watches and propagation, the clause records and the active clauses of a proof, the checker itself |
| Geyser | the whole path, one method an engine |

## Where the code differs from what it says

- `build_counterexample` completes missing variables with false
  (src/engine/pdr.cpp:199, src/engine/car.cpp:188). The start state it reports
  is initial exactly if the cube mentions every variable that starts at one
  (`Chains.CompletionIsInitial`). With those variables set it is always initial
  and in the cube (`Chains.ResetsGiveInitial`), so the reported inputs lead from
  it to an error (`Chains.ChainViolates`). `LostStart.StartCanLeaveInit` gives a system
  and answers to PDR's queries, allowed by the solver's interface, after which
  an obligation at level 0 has lost such a variable, and the start is not initial.
- `assert( step == _activators.size() )` (src/engine/bmc.cpp:195) holds exactly
  for the steps below one hundred, since a refresh clears the activators
  (src/engine/bmc.cpp:49). `Bmc.BmcEngine.Run` states this for every step it
  takes; `Bmc.RunPastRefresh` is a run on a safe system that gets to a step at
  which the assertion is false.
- `aiger_is_reencoded` lets a gate refer to itself (dep/aiger/aiger.c:1368).
  `Aigs.NumberedIsOrdered` shows that a graph that passes is in normal form
  exactly if it is acyclic; `Aigs.SelfLoopIsNumbered` is a graph that passes and
  is not.
- `formula_as_cube` checks that half of the stored entries, rounded down, are
  separators (src/logic.hpp:392). A formula consists of unit clauses exactly if
  it passes this test, has an even number of entries and no empty clause
  (`FlatFormulas.UnitsPassTest`); `FlatFormulas.HalfSeparatorsIsNoCube` shows
  that neither of the latter can be left out. The builder's initial formulas are
  cubes (`Builder.BuiltInitIsCube`).
- `aiger_read_delta` lets a code of six groups through and then shifts by more
  than the width of a word (dep/aiger/aiger.c:2379); the model answers
  `Overwide` there. This happens exactly if five marked bytes are followed by a
  byte below 8 (`BinaryFormat.DeltaErrors`); `BinaryFormat.OverwideIsLetThrough`
  gives such bytes.

## Model

| member | source | states |
|---|---|---|
| Logic.SubsumesMeaning | src/logic.hpp:327-334 | A cube subsumes another exactly if its literals form a subset (for cubes without repeated literals), and then the subsumed cube entails it |
| Logic.IncludesIsSubset | src/logic.hpp:331-334 | The forward scan over two sorted vectors succeeds only if every literal of the one occurs in the other |
| Logic.SubsetIsIncluded | src/logic.hpp:331-334 | On a sorted vector and a strictly sorted one the scan finds every subset |
| Logic.MakeCube | src/logic.hpp:318-321 | A cube holds exactly the literals it was given, with their multiplicities, in the cube order |
| Logic.NegateCube | src/logic.hpp:336-349 | The one-clause negation holds exactly where the cube does not |
| Logic.ActivatedHolds | src/logic.hpp:275-289 | An activated formula is equivalent to: the activator implies the formula |
| FlatFormulas.FlattenIsInjective | src/logic.hpp:202-232 | A zero-terminated vector stands for one formula only |
| FlatFormulas.CnfFormula.Constant | src/logic.hpp:208-217 | The constant formula is true, or false, everywhere |
| FlatFormulas.CnfFormula.AddClause | src/logic.hpp:227-232 | Appending literals and a separator appends one clause to the formula the vector stands for |
| FlatFormulas.CnfFormula.AddCnf | src/logic.hpp:249-253 | Appending vectors concatenates formulas |
| FlatFormulas.CnfFormula.Map | src/logic.hpp:257-266 | Mapping the entries other than separators maps every literal of the formula |
| FlatFormulas.CnfFormula.Activate | src/logic.hpp:275-289 | Inserting the negated activator before every separator adds it to every clause |
| FlatFormulas.CnfFormula.AsCube | src/logic.hpp:389-401 | The cube made of a formula holds exactly the literals of its clauses, and means the same if the formula passes the test, is of even length and has no empty clause |
| FlatFormulas.UnitsPassTest | src/logic.hpp:389-392 | A formula consists of unit clauses exactly if half of its entries are separators, the number of entries is even and no clause is empty |
| FlatFormulas.HalfSeparatorsIsNoCube | src/logic.hpp:391-392 | Two formulas that pass the test without being unit clauses: one with an empty clause, one with an odd number of entries |
| TransitionSystems.TransitionSystem.GetVarInfo | src/transition_system.hpp:57-71 | The kind and offset of a variable in the range that contains it |
| TransitionSystems.TransitionSystem.Unprime | src/transition_system.hpp:73-87 | Unpriming a next-state literal gives the state literal whose priming it is |
| TransitionSystems.TransitionSystem.PrimedCubeMeaning | src/transition_system.hpp:73-79 | A primed cube says of the next state what the cube says of the state |
| TransitionSystems.TransitionSystem.InvariantProvesSafety | src/engine/pdr.cpp:294-316 | A set of states that contains the initial ones, is closed under steps and shows no error excludes every violating run |
| Solvers.Solver.IsSat | src/engine/solver.hpp:86-96 | A positive answer carries a model of clauses, assumptions and constraint; a negative one a subset of the assumptions that already has none |
| Solvers.Solver.GetModel | src/engine/solver.hpp:123-133 | The literals of a range with their signs in the model, in order |
| Solvers.Solver.GetCore | src/engine/solver.hpp:144-154 | Exactly those of the given literals that are failed assumptions |
| Solvers.Solver.GetCoreOver | src/engine/solver.hpp:156-172 | Exactly the failed assumptions of either sign over a range |
| Solvers.Search | src/engine/solver.hpp:86-96 | The contract of a query can be met: enumerating the assignments of the variables in use yields a model or a failed subset |
| Solvers.VariableStore.MakeRange | src/logic.hpp:165-179 | A range of consecutive variables that were never handed out before |
| Aigs.NumberedIsOrdered | dep/aiger/aiger.c:1334-1378 | A graph that passes the normal-form test is in normal form exactly if it is acyclic |
| Aigs.SelfLoopIsNumbered | dep/aiger/aiger.c:1368-1369 | A graph with a gate that refers to itself passes the test |
| Aigs.OrderedIsAcyclic | dep/aiger/aiger.c:1360-1375 | The gates of a graph in normal form are in topological order |
| DepthFirst.AcyclicHasNoCycle | dep/aiger/aiger.c:826-902 | A graph whose gates can be ordered has no closed path |
| DepthFirst.ReopenedIsCycle | dep/aiger/aiger.c:852-860 | A stack entry that is open further down closes a path of gates |
| DepthFirst.CloseKeepsInvariant | dep/aiger/aiger.c:885-897 | When the mark of a gate comes up all inputs of the gate are settled |
| DepthFirst.OpenKeepsInvariant | dep/aiger/aiger.c:868-883 | Opening a gate and pushing its inputs keeps every entry an input of the gate opened last below it |
| Cycles.Visit | dep/aiger/aiger.c:846-900 | The search from one gate ends; it stops on a cycle or finishes the gate and everything below it |
| Cycles.CheckForCycles | dep/aiger/aiger.c:826-902 | Started with clear marks, the check reports an error exactly if the gates contain a cycle, and otherwise they can be ordered |
| Reencoding.IsReencoded | dep/aiger/aiger.c:1334-1378 | The loops decide exactly the consecutive numbering with literals that do not grow within a gate |
| Reencoding.Renumbering.NumberCone | dep/aiger/aiger.c:1411-1478 | The search ends and gives numbers to the gates below a root in exactly the recursive post-order with the smaller input variable first, each after its inputs and only gates in the root's cone |
| Reencoding.Renumbering.ReencodeLit | dep/aiger/aiger.c:1391-1495 | A root gets the literal of its variable's number with the same sign; earlier numbers stay, and the new ones follow the post-order of its cone |
| Reencoding.Renumbering.NumberLeaves | dep/aiger/aiger.c:1527-1549 | Inputs, then latches, get the first numbers |
| Reencoding.Renumbering.RewriteGates | dep/aiger/aiger.c:1604-1632 | The in-place compaction leaves exactly the rewritten gates that have a number, in their order |
| Reencoding.NoGaps | dep/aiger/aiger.c:1632-1634 | Sorted, the remaining left-hand sides are consecutive |
| Reencoding.ConeIsKept | dep/aiger/aiger.c:1391-1495 | A gate keeps its place exactly if it lies in the cone of some root |
| Reencoding.Renumber | dep/aiger/aiger.c:1505-1697 | The result lists the roots and the gates of their cones under the new numbers, which go to inputs, latches and the cones of the roots as these are listed |
| Reencoding.ReencodingIsUnique | dep/aiger/aiger.c:1505-1697 | The order of the new numbers determines the whole renumbered graph |
| Numbering.FinishOpen | dep/aiger/aiger.c:1419-1479 | Opening a gate on the explicit stack, with its mark and its inputs, leads to the same numbering as the recursive post-order |
| Reencoding.ReencodingIsOrdered | dep/aiger/aiger.c:1618-1634 | In the renumbered graph every gate has lhs > rhs0 >= rhs1 with consecutive left-hand sides |
| Reencoding.ReencodingSimulates | dep/aiger/aiger.c:1505-1697 | Renaming a valuation of the graph gives a valuation of the renumbered one |
| Reencoding.RootsAgree | dep/aiger/aiger.c:1554-1600 | Next literals, outputs, bad, constraint, justice and fairness literals have the same values in both graphs |
| Reencoding.ReencodingIsAlike | dep/aiger/aiger.c:1505-1697 | The renumbered graph has the same initial latch values, steps and bad states |
| Reencoding.ReencodingKeepsSafety | dep/aiger/aiger.c:1505-1697 | The renumbered graph has the same violating runs |
| Reencoding.Reencode | dep/aiger/aiger.c:1505-1697 | Every well-defined acyclic graph is brought into normal form, with the numbering of the post-order, and starts, steps and fails as before; one in that form is left alone |
| BinaryFormat.WriteDelta | dep/aiger/aiger.c:977-996 | The bytes written are the seven-bit groups of the number, lowest first, all but the last one marked |
| BinaryFormat.Reader.ReadDelta | dep/aiger/aiger.c:2342-2385 | The reader computes the decoding of the bytes at its position and stops after the code; for each of its errors, exactly which bytes lead to it |
| BinaryFormat.DeltaErrors | dep/aiger/aiger.c:2342-2385 | Five marked bytes and a sixth one are let through below 8 and rejected from 8 on; the input ends too early if it stops within five marked bytes; all else is a number |
| BinaryFormat.OverwideIsLetThrough | dep/aiger/aiger.c:2376-2379 | Six bytes on which the reader shifts by 35 |
| BinaryFormat.DeltaRoundTrip | dep/aiger/aiger.c:977-996 | Decoding inverts encoding on every 32-bit word, whatever precedes and follows the code |
| BinaryFormat.WriteGates | dep/aiger/aiger.c:1709-1742 | The bytes written for a graph in normal form are the codes of the two differences of every gate |
| BinaryFormat.Reader.ReadGates | dep/aiger/aiger.c:2387-2426 | The reader rebuilds the gates from the differences or reports the first error |
| BinaryFormat.GatesRoundTrip | dep/aiger/aiger.c:2387-2426 | Reading the written gates of any graph in normal form with 32-bit literals gives the same gates and ends where they end |
| Builder.LiteralByPosition | src/aiger_builder.hpp:26-49 | A literal maps to the solver variable at the position where the graph lists its variable, with the same sign; every non-constant literal has one |
| Builder.VarsAreDistinct | src/aiger_builder.hpp:28-43 | Different graph variables get different solver variables |
| Builder.ClausifyAndMeaning | src/aiger_builder.cpp:25-78 | The clauses of a gate hold exactly if its variable equals the conjunction of its inputs, constants included |
| Builder.ClausifySubgraph | src/aiger_builder.cpp:80-118 | The sweep from the last gate collects a set of literals closed under gate inputs; the models of the clauses are exactly the assignments in which its gates hold |
| Builder.ConeValues | src/aiger_builder.cpp:80-118 | In every model of the cone's clauses each literal of the cone has its value in the graph |
| Builder.BuildInit | src/aiger_builder.cpp:120-137 | The initial formula holds exactly in the states that have all constant reset values |
| Builder.BuildTrans | src/aiger_builder.cpp:139-178 | In every model each next-state variable equals the latch's next literal; if all gates and links hold, the formula does |
| Builder.BuildError | src/aiger_builder.cpp:180-194 | In every model the bad literal is true; if all gates hold and it is true, the formula holds |
| Builder.BuiltIsWellFormed | src/aiger_builder.cpp:252-259 | The built transition relation is total and deterministic, over disjoint ranges, and its initial formula is a cube |
| Builder.StepIsNextState | src/aiger_builder.cpp:139-178 | A state steps under an input exactly to the state the graph computes |
| Builder.ErrorIsBad | src/aiger_builder.cpp:180-194 | The error formula is satisfiable at a state and an input exactly if the bad literal is true there |
| Builder.BuiltInitIsCube | src/aiger_builder.cpp:120-137 | The initial formula consists of unit clauses without contradiction |
| Builder.BuiltRepresents | src/aiger_builder.cpp:252-259 | The built system starts, steps and fails as the graph does at the same latch and input values |
| Builder.SameViolations | src/aiger_builder.cpp:252-259 | A run violates the system exactly if it violates the graph |
| Builder.InvariantOfGraph | src/aiger_builder.cpp:252-259 | The latch values of an inductive invariant of the system are an inductive invariant of the graph |
| Builder.SameSafety | src/aiger_builder.cpp:252-259 | A system has violating runs of the same lengths as the graph it represents |
| Builder.MakeContext | src/aiger_builder.cpp:204-250 | Rejected exactly if there is not one property, or justice or fairness, or constraints, with the reason that is tested first; otherwise a context over new disjoint variables for a graph that behaves alike |
| Builder.BuildFromAiger | src/aiger_builder.cpp:198-202 | A graph is turned down with exactly that reason; a supported acyclic one yields a well-formed system over new variables that represents it and has the same violating runs, constraints taken into account |
| Frames.SyncedAfterBlocking | src/engine/pdr.cpp:263-292 | Adding a blocking clause and deleting subsumed cubes keeps solver and frames in agreement, stale clauses included |
| Frames.BlockingMeaning | src/engine/pdr.cpp:263-292 | Blocking a cube at frame k takes exactly its states out of R_k, and of the frames below if frames are cumulative |
| Frames.LoadSolver | src/engine/pdr.cpp:318-334 | Reloading the solver from the frames re-establishes the agreement, so a refresh changes no answer |
| Frames.RemoveSubsumed | src/engine/pdr.cpp:275-284 | What is left of a frame is exactly what the cube does not subsume |
| Frames.ModelLiesInFrame | src/engine/pdr.cpp:179-183 | A model under a frame's activators encodes a state of that frame |
| Frames.StepIsModel | src/engine/pdr.cpp:249-261 | Every step of a state in the activated frames extends to a model of the clauses |
| FrameInvariants.BlockingKeepsInvariant | src/engine/pdr.cpp:263-292 | Blocking a cube that is inductive relative to its level, and in PDR misses the initial states, keeps the frame invariant |
| FrameInvariants.PushKeepsInvariant | src/engine/pdr.hpp:165-171 | Opening a frame keeps the invariant if the newest frame excludes errors |
| FrameInvariants.ReachableInFrame | src/engine/pdr.cpp:33-52 | R_k contains every state reachable in exactly k steps |
| FrameInvariants.BlockingShrinksFrames | src/engine/pdr.cpp:68-108 | Blocking a cube that still meets a frame strictly shrinks the total size of the frames |
| FrameInvariants.StatesCount | src/engine/pdr.cpp:33-52 | There are 2^n states |
| Chains.ChainViolates | src/engine/pdr.cpp:186-218 | From every state of a pooled cube the recorded inputs lead to an error |
| Chains.BuildCounterexample | src/engine/pdr.cpp:186-218 | The walk along successor handles ends, and its inputs lead from the completed start state to an error |
| Chains.CompletionIsInitial | src/engine/pdr.cpp:190-206 | The completion of a cube that contains an initial state is initial exactly if the cube fixes every variable that starts at one |
| Chains.ResetsGiveInitial | src/engine/pdr.cpp:190-206 | For any resets: with the variables that start at one set, the completion of a cube that contains an initial state is initial and in the cube |
| LostStart.StartCanLeaveInit | src/engine/pdr.cpp:186-218 | A system and answers to PDR's three queries after which a level-0 obligation leads to a counterexample that does not start initially |
| Queries.InitTestIsExact | src/engine/pdr.cpp:240-247 | A cube meets the initial states exactly if no negated literal of it is in the initial cube |
| Queries.PredecessorCheckFails | src/engine/pdr.cpp:118-126 | The query whose unsatisfiability the engines assert is unsatisfiable, since every state has one successor |
| Queries.PredecessorCoreLeadsIn | src/engine/pdr.cpp:110-129 | Every state of the generalised predecessor steps into the obligation's cube under the recorded input |
| Pdr.CtiPool.Make | src/engine/pdr.hpp:64-83 | Reusing flushed entries appends one entry to those in use and returns its index |
| Pdr.PdrEngine.IsAlreadyBlocked | src/engine/pdr.cpp:220-238 | The answer is yes exactly if the cube has no state in its frame |
| Pdr.PdrEngine.IsRelativeInductive | src/engine/pdr.cpp:249-261 | The answer is yes exactly if no state of the frame below and outside the cube steps into it |
| Pdr.PdrEngine.GetPredecessor | src/engine/pdr.cpp:110-129 | The new pool entry is a predecessor of the obligation's cube and an obligation one level down; its literals are exactly the failed ones of the state in the model |
| Pdr.PdrEngine.DropUnfailed | src/engine/pdr.cpp:149-161 | Exactly the literals whose primed version failed are left, and those without which an initial state gets in |
| Pdr.PdrEngine.RaiseLevel | src/engine/pdr.cpp:175-181 | The level returned is the last one, or the cube is not inductive relative to it any more |
| Pdr.PdrEngine.GeneralizeInductive | src/engine/pdr.cpp:131-184 | The result covers the obligation, misses the initial states and is inductive relative to its level, which is no lower than the obligation's and cannot be raised; it is what dropping literals one by one in their order leaves of the failed ones |
| Pdr.PdrEngine.AddBlockedAt | src/engine/pdr.cpp:263-292 | The invariant is kept, only subsumed cubes at or below the level go, the cube is blocked up to its level, and the frames shrink if it was not |
| Pdr.PdrEngine.SolveObligation | src/engine/pdr.cpp:68-108 | A counterexample is genuine whatever the resets are; without one the cube of the starting obligation is blocked at its level, and frames have only lost states |
| Queues.LowerComesFirst | src/engine/pdr.cpp:100-104 | A predecessor pushed before its obligation is the next one to be popped |
| PdrObligations.ObligationMissesInit | src/engine/pdr.cpp:82-88 | An obligation at level one or more never meets the initial states |
| PdrObligations.RaisedObligation | src/engine/pdr.cpp:97-98 | No state of a blocked obligation's cube is reachable in as many steps as the next level asks for |
| PdrObligations.PredecessorObligation | src/engine/pdr.cpp:100-104 | No state of a generalised predecessor is reachable in fewer steps than its level |
| PdrObligations.RemainingCubeSeparates | src/engine/pdr.cpp:295-316 | If propagation leaves a cube in frame i, then R_i lies strictly below R_i+1 |
| PdrObligations.DepthBound | src/engine/pdr.cpp:33-52 | Strictly growing frames are no more than there are states |
| PdrObligations.EmptyFrameIsInvariant | src/engine/pdr.cpp:309-310 | A frame found empty by propagation is an inductive invariant that excludes errors |
| Pdr.PdrEngine.Propagate | src/engine/pdr.cpp:294-316 | It returns true only with an empty frame, and false only if the frames grow strictly; no cube of a frame that has been visited can be pushed any more |
| Pdr.PdrEngine.PropagateLevel | src/engine/pdr.cpp:301-307 | Every cube that is inductive relative to its frame is blocked in the next one, no cube left is, and R_0, ..., R_i keep their states |
| Pdr.PdrEngine.Check | src/engine/pdr.cpp:33-52 | The main loop ends within 2^n + 1 levels with an invariant or a genuine counterexample |
| Pdr.PdrEngine.Run | src/engine/pdr.cpp:10-16 | The answer is ok exactly if no reachable state with any input is an error; ok exhibits an inductive invariant, a counterexample is a genuine run |
| CarQueries.RefutedIsMonotone | src/engine/car.cpp:325-342 | More assumptions never make a refuted query satisfiable |
| Car.CarEngine.GetMinimalCore | src/engine/car.cpp:325-342 | The result is a part of the seed that is still unsatisfiable and from which no single literal can be dropped, for any cores the solver reports |
| Car.CarEngine.HasPredecessor | src/engine/car.cpp:249-260 | The answer is yes exactly if some state of the frame below steps into the cube |
| Car.CarEngine.IsAlreadyBlocked | src/engine/car.cpp:233-247 | The answer is yes exactly if the cube has no state in its frame |
| Car.CarEngine.GetPredecessor | src/engine/car.cpp:262-299 | The stored entry is a predecessor of the obligation's cube, one step further from the error; with minimisation no literal of it can be left out, without it has exactly the failed ones |
| Car.CarEngine.GeneralizeBlocked | src/engine/car.cpp:301-323 | The result covers the blocked cube and still has no predecessor in the frame below; with minimisation no literal of it can be left out, without it has exactly those whose primed version failed |
| Car.CarEngine.AddReachingAt | src/engine/car.cpp:344-366 | The handle joins its coframe, only subsumed handles leave it, and the cotrace keeps its meaning |
| Car.CarEngine.AddBlockedAt | src/engine/car.cpp:368-390 | The invariant is kept, other frames do not change, and the frame shrinks if the cube met it |
| Car.CarEngine.SolveObligation | src/engine/car.cpp:128-176 | With and without repushing: a counterexample is genuine whatever the resets are; without one the cube of the starting obligation is blocked at its level, and frames have only lost states |
| Car.CarEngine.CheckExistingCotrace | src/engine/car.cpp:77-91 | Without a counterexample every cube stored before is blocked in the newest frame |
| CarObligations.CotraceMeaning | src/engine/car.cpp:109-126 | From every state of every cube in coframe j the recorded inputs lead to an error in exactly j steps |
| CarObligations.ReachingKeepsCover | src/engine/car.cpp:344-366 | Deleting subsumed handles loses no covered state and adds only those of the new cube |
| CarQueries.ClosedFrameIsSafe | src/engine/car.cpp:392-431 | If all cubes of a frame could be pushed, the union of the frames up to it is an inductive invariant |
| CarQueries.CoveredFrameIsSafe | src/engine/car.cpp:433-503 | If a frame lies within the earlier ones, their union is an inductive invariant |
| CarQueries.UnionGrows | src/engine/car.cpp:433-503 | While no frame is covered, every further frame adds a state to the union |
| CarInductive.ClausifyFrameNegation | src/engine/car.cpp:437-479 | The fresh-variable encoding projects to exactly the states outside the frame |
| Car.CarEngine.IsInductive | src/engine/car.cpp:433-503 | It returns true exactly if some frame is contained in the initial states and the frames before it |
| Car.CarEngine.Propagate | src/engine/car.cpp:392-431 | It returns true exactly if some frame is closed, that is all of its cubes could be pushed; otherwise every cube without predecessors in its frame is blocked in the next one, at every level |
| Car.CarEngine.PropagateLevel | src/engine/car.cpp:398-427 | All cubes could be pushed exactly if no state of the frame steps out of it; only the next frame changes, and every cube that can be pushed is blocked there |
| Car.CarEngine.PushableCube | src/engine/car.cpp:402-421 | A cube is pushed exactly if no state of its frame steps into it; with cores, the literals are exactly those whose primed version failed |
| Car.CarEngine.Check | src/engine/car.cpp:52-75 | The main loop ends with depth at most 2^n, with an invariant or a genuine counterexample |
| Car.CarEngine.Run | src/engine/car.cpp:10-16 | The answer is ok exactly if no reachable state with any input is an error; ok exhibits an inductive invariant, a counterexample is a genuine run |
| Unrolling.Renaming.MapMeaning | src/engine/bmc.cpp:163-180 | A renamed formula holds of the copies exactly if the formula holds of what they stand for |
| Unrolling.NextVersion | src/engine/bmc.cpp:134-153 | A version made of new variables overlaps with no earlier one |
| Unrolling.ModelViolates | src/engine/bmc.cpp:56-89 | A model of unrolled steps and an error in the last version is a violating run |
| Unrolling.RunIsModel | src/engine/bmc.cpp:56-89 | Every violating run is an assignment of the versions |
| Bmc.AfterTrans | src/engine/bmc.cpp:65-66 | Asserting a step, for the first time or again, leaves the solver with the runs of that many steps |
| Bmc.AfterError | src/engine/bmc.cpp:183-216 | Asserting an activated error formula adds the error under its activator only |
| Bmc.BmcEngine.MakeTrans | src/engine/bmc.cpp:122-181 | The cached formula of a step says that its version steps to the next one; the cache grows by at most one |
| Bmc.BmcEngine.RefreshSolver | src/engine/bmc.cpp:39-54 | After a refresh the solver holds the runs up to the bound and no error formula |
| Bmc.NoAnswerNoRun | src/engine/bmc.cpp:76-88 | A negative answer rules out every violating run of this length, whatever disabled errors the solver still holds |
| Bmc.BmcEngine.CheckFor | src/engine/bmc.cpp:56-89 | It finds a model exactly if some run of exactly this many steps ends in an error |
| Bmc.BmcEngine.Run | src/engine/bmc.cpp:9-37 | A counterexample is a shortest violating run within the bound; otherwise there is none; at every step the number of activators is the number of the step exactly below one hundred |
| Bmc.BmcEngine.CheckNext | src/engine/bmc.cpp:25-34 | One step of the loop, refresh included: it finds a run of this length or shows there is none, and counts activators from the last refresh |
| Bmc.RunPastRefresh | src/engine/bmc.cpp:192-196 | A safe system on which the run gets to step 100, where the number of activators is not the number of the step |
| Watching.Xor3IsOther | dep/cadical/src/checker.cpp:413-415 | The exclusive or of both watches with the false one is the other watch, in 32-bit two's complement |
| Watching.MarkedGarbage | dep/cadical/src/checker.cpp:552-562 | A clause can become garbage while its watches stay in the lists |
| Watching.CollectedGarbage | dep/cadical/src/checker.cpp:119-159 | After a collection no watch refers to a freed clause and every live clause keeps its two watches |
| Watching.GuardedIsClosed | dep/cadical/src/checker.cpp:379-443 | A finished propagation leaves every live clause with a true literal or two that are not false |
| Watching.ClosedHasNoConflict | dep/cadical/src/checker.cpp:445-455 | Then unit propagation from the assumptions cannot falsify a clause |
| Checkers.Checker.VisitWatch | dep/cadical/src/checker.cpp:392-437 | One watch: kept, dropped or moved, with a unit or a conflict that the originals entail |
| Checkers.Checker.PropagateLiteral | dep/cadical/src/checker.cpp:385-441 | Rebuilding a watch list in place keeps all watches right and handles every clause in it |
| Checkers.Checker.Propagate | dep/cadical/src/checker.cpp:379-443 | A conflict refutes the assumptions; otherwise everything entailed by unit clauses is on the trail and nothing is left to propagate |
| Checkers.Checker.Backtrack | dep/cadical/src/checker.cpp:360-375 | The trail and the values are those before the assumptions |
| Checkers.Checker.Check | dep/cadical/src/checker.cpp:445-455 | Yes only if the originals imply the clause; no only if unit propagation over live clauses and known units cannot refute its negation |
| Checkers.Checker.Tautological | dep/cadical/src/checker.cpp:256-285 | Sorting finds complementary pairs and true literals; otherwise the clause keeps its literals without repetition |
| Checkers.Checker.AddClause | dep/cadical/src/checker.cpp:459-494 | Afterwards the state is inconsistent, or the clause has a known true literal, or one record with its literals and hash joins the table in front; no record goes or changes its literals |
| Checkers.Checker.AddOriginalClause | dep/cadical/src/checker.cpp:496-513 | The clause joins the originals and, unless the state is inconsistent, is satisfied by known literals or stored; every record stays with its literals, size and hash |
| Checkers.Checker.AddDerivedClause | dep/cadical/src/checker.cpp:515-539 | A clause is accepted only if the originals imply it, and then satisfied or stored beside all earlier records; it is refused only if unit propagation cannot derive it |
| Checkers.Checker.DeleteClause | dep/cadical/src/checker.cpp:543-579 | A satisfied clause changes nothing; otherwise it fails exactly if no record has these literals and this hash, and of the others only records with a literal on the trail may go with the one that matches |
| Checkers.Checker.CollectGarbageClauses | dep/cadical/src/checker.cpp:119-159 | Exactly the records with a literal on the trail leave the table, and no garbage is left |
| Checkers.Checker.AddAssumptionClause | dep/cadical/src/checker.cpp:581-587 | An assumption clause is accepted only if the originals imply it and refused only if unit propagation cannot derive it; afterwards every unsatisfied key has as many records as before |
| Records.AdditionCounts | dep/cadical/src/checker.cpp:332-340 | An addition gives its key one more record, unless it is satisfied, and no other key any |
| Records.DeletionCounts | dep/cadical/src/checker.cpp:543-579 | A deletion takes one record of its key, unless it is satisfied, and of no other key that is not satisfied |
| Records.ActiveGetStuck | dep/cadical/src/checker.cpp:445-455 | If unit propagation gets stuck on the stored clauses and the known units, it gets stuck on the active clauses |
| Records.EmptyClauseConflicts | dep/cadical/src/checker.cpp:477-480 | An empty clause that has been added is a conflict of the active clauses |
| Checkers.Checker.Step | dep/cadical/src/checker.cpp:496-579 | One step of a proof keeps every active clause stored or satisfied, and is refused only if it is refusable over the active clauses |
| Checkers.CheckProof | dep/cadical/src/checker.cpp:496-579 | In an accepted proof every derived clause follows from the originals before it. A proof is refused only at a derivation that unit propagation over the clauses added and not deleted cannot confirm, or at the deletion of a clause that is not among them. Inconsistency shows that the originals have no model; without it unit propagation over the active clauses had no conflict after any step, so an empty clause is always reported |
| Geyser.GenuineIsBadRun | src/main.cpp:115-121 | A genuine run of a system that represents a graph is, read by position, a run of the graph that ends badly, and it starts initially in the one exactly if in the other |
| Geyser.BadRunFromResets | src/main.cpp:115-121 | The run of a counterexample, started with the latches that start at one set, is read by position a bad run of the graph from an initial state |
| Geyser.CheckWithPdr | src/main.cpp:80-123 | For every well-defined graph PDR answers ok exactly if the graph is safe, and then the graph has an inductive invariant; a counterexample read by position is a bad run of the graph, and its start agrees with an initial one that fails under the same inputs on every latch whose reset is not one; cyclic and unsupported graphs are told apart, the latter with the exact reason |
| Geyser.CheckWithCar | src/main.cpp:80-123 | The same for forward CAR, under all of its options |
| Geyser.CheckWithBmc | src/main.cpp:80-123 | For every well-defined graph and bound: a shortest bad run of the graph from an initial state within the bound, or none exists |

## Left out

- Backward CAR (`reverse_system`, the non-forward branches, `negate_cnf`): its reversed systems are not functional, so the theorems here do not carry over.
- The CDCL search of CaDiCaL: replaced by the contract of its interface and an enumeration of assignments; UNKNOWN answers do not occur.
- Names of variables, log output, the command line, witness printing: they do not affect a verdict.
- Reading AIGER files beyond the gate section; justice, fairness and invariant constraints are kept as roots by the renumbering and rejected by the builder.
- Machine integers: variables, handles and bounds are unbounded; words matter in the delta coding and in the exclusive or of the proof checker, where they are modelled.
- Engines are run once: `run` is modelled on a freshly constructed engine whose activators come before the system's variables, as src/main.cpp orders them.
- The private type table of the AIGER library: looking up how a variable is defined is modelled on the lists of inputs, latches and gates, so keeping that table in step with them is not captured.
- Library functions: `std::sort`, `std::includes`, `std::binary_search`, `qsort` and the priority queue are modelled by functions with their contracts.
- The two engines' refresh rate of five million queries is kept; that a refresh at any other moment would change no answer is `Frames.LoadSolver` together with the agreement every query starts from.
- The hash buckets of the proof checker: the model keeps one chain, newest clause first, with the stored hashes; statistics are left out.
- The value table and the watch lists of the proof checker, indexed by literal in the original, are maps keyed by the literal; enlarging them keeps their entries.
- Solvers.Solver.IsSat: leaves open which model or which failed assumptions are reported, as the interface does.
