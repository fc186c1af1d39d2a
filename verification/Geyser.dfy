/**
 * The whole checker (src/main.cpp): a graph is checked for cycles, translated
 * into a transition system and given to one of the engines.
 */
module Geyser {
  import opened Logic
  import opened Aigs
  import opened TransitionSystems
  import opened Frames
  import opened FrameInvariants
  import opened Solvers
  import opened Chains
  import opened Queries
  import opened Builder
  import opened DepthFirst
  import opened Cycles
  import opened Pdr
  import opened CarQueries
  import opened Car
  import opened Bmc

  datatype Verdict = CyclicGraph | Unsupported(reason: Rejection) | Answer(result: Result)

  /** The engine's two activators come before all variables of the system. */
  lemma SetupBeforeBuilding(sys: TransitionSystem, trans: int, error: int, bound: int)
    requires sys.WellFormed() && 0 < trans < error
    requires forall v :: v in sys.Vars() ==> error < v < bound
    requires error < bound
    ensures Setup(sys, Activators([], trans, error), 0, bound)
  {
    var act := Activators([], trans, error);
    assert act.All() == {trans, error};
  }

  method HasCycle(aig: Aig) returns (cyclic: bool)
    requires WellDefined(aig)
    ensures cyclic <==> Cyclic(aig)
    ensures cyclic <==> !Acyclic(aig)
  {
    var mark := new bool[aig.maxvar + 1](_ => false);
    var onstack := new bool[aig.maxvar + 1](_ => false);
    cyclic := CheckForCycles(aig, mark, onstack);
  }

  // ------------------------------------------------------------------
  // What an answer says about the graph
  // ------------------------------------------------------------------

  /** The positions printed as one in a row of the witness. */
  function Ones(row: seq<Literal>): (r: set<nat>)
    ensures forall i: nat :: i in r <==> i < |row| && row[i] > 0
  {
    set i: nat | i < |row| && row[i] > 0
  }

  function OnesOfRows(rows: seq<seq<Literal>>): (r: seq<set<nat>>)
    ensures |r| == |rows| && forall i :: 0 <= i < |rows| ==> r[i] == Ones(rows[i])
  {
    seq(|rows|, i requires 0 <= i < |rows| => Ones(rows[i]))
  }

  /** Read by position, the counterexample is a run of the graph that makes the bad literal true at its end. */
  ghost predicate BadRun(aig: Aig, cex: Result)
  {
    && cex.Counterexample?
    && |cex.initialState| == |aig.latches|
    && (forall i :: 0 <= i < |cex.inputs| ==> |cex.inputs[i]| == |aig.inputs|)
    && Aigs.Violates(aig, Ones(cex.initialState), OnesOfRows(cex.inputs))
  }

  ghost predicate StartsInitial(aig: Aig, cex: Result) {
    cex.Counterexample? && InitialLatches(aig, Ones(cex.initialState))
  }

  predicate NoLatchStartsAtOne(aig: Aig) {
    forall i :: 0 <= i < |aig.latches| ==> aig.latches[i].reset != 1
  }

  /** The latches that start at one. */
  function ResetOnesOf(aig: Aig): (r: set<nat>)
    ensures forall i: nat :: i in r <==> i < |aig.latches| && aig.latches[i].reset == 1
  {
    set i: nat | i < |aig.latches| && aig.latches[i].reset == 1
  }

  /**
   * With the latches set that start at one, the first row of the counterexample
   * is initial, and the inputs still lead to a bad end.
   */
  ghost predicate BadFromResets(aig: Aig, cex: Result)
  {
    && cex.Counterexample?
    && var latches := Ones(cex.initialState) + ResetOnesOf(aig);
       && ReadsLatches(aig, latches) && InitialLatches(aig, latches)
       && Aigs.Violates(aig, latches, OnesOfRows(cex.inputs))
  }

  ghost predicate SafeByInvariant(aig: Aig)
  {
    exists inv :: Aigs.InductiveInvariant(aig, inv)
  }

  /** What an answer of PDR and CAR promises. */
  ghost predicate Decides(aig: Aig, result: Result)
  {
    && (result.Ok? || result.Counterexample?)
    && (result.Ok? <==> !Aigs.Unsafe(aig))
    && (result.Ok? ==> SafeByInvariant(aig))
    && (result.Counterexample? ==> BadRun(aig, result) && BadFromResets(aig, result))
    && (result.Counterexample? && NoLatchStartsAtOne(aig) ==> StartsInitial(aig, result))
  }

  lemma RowPosition(range: VariableRange, row: seq<Literal>, i: nat)
    requires range.Valid() && RowOver(range, row)
    ensures |row| == range.Size()
    ensures i < |row| ==> (range.Nth(i) in TrueVars(row) <==> row[i] > 0)
  {
    if i < |row| && range.Nth(i) in TrueVars(row) {
      var k :| 0 <= k < |row| && row[k] == range.Nth(i);
      assert VarOf(row[k]) == range.Nth(k);
    }
  }

  lemma RowPositions(range: VariableRange, row: seq<Literal>)
    requires range.Valid() && RowOver(range, row)
    ensures Indices(range, TrueVars(row)) == Ones(row)
  {
    hide Indices, RowOver;
    forall i: nat
      ensures i in Indices(range, TrueVars(row)) <==> i in Ones(row)
    {
      RowPosition(range, row, i);
    }
  }

  /** A counterexample of the system is one of the graph it represents. */
  lemma GenuineIsBadRun(sys: TransitionSystem, aig: Aig, cex: Result)
    requires sys.WellFormed() && Represents(sys, aig) && GenuineRun(sys, cex)
    ensures BadRun(aig, cex)
    ensures sys.Init(StartOf(cex)) <==> StartsInitial(aig, cex)
  {
    hide TransitionSystem.Functional, TransitionSystem.InitIsCube, CnfOver, TransitionSystem.Violates, Aigs.Violates,
      InitialLatches, SameStep, TrueVars, Indices;
    RowPositions(sys.states, cex.initialState);
    RunRows(sys, aig, cex);
    SameViolations(sys, aig, StartOf(cex), RunOf(cex));
  }

  lemma RunRows(sys: TransitionSystem, aig: Aig, cex: Result)
    requires sys.WellFormed() && Represents(sys, aig) && GenuineRun(sys, cex)
    ensures forall i :: 0 <= i < |cex.inputs| ==> |cex.inputs[i]| == |aig.inputs|
    ensures InputIndices(sys.inputs, RunOf(cex)) == OnesOfRows(cex.inputs)
  {
    hide TransitionSystem.Functional, TransitionSystem.InitIsCube, CnfOver, TransitionSystem.Violates,
      InitialLatches, SameStep, TrueVars, Indices;
    forall i | 0 <= i < |cex.inputs|
      ensures |cex.inputs[i]| == |aig.inputs|
      ensures InputIndices(sys.inputs, RunOf(cex))[i] == OnesOfRows(cex.inputs)[i]
    {
      assert RowOver(sys.inputs, cex.inputs[i]);
      RowPositions(sys.inputs, cex.inputs[i]);
    }
  }

  /** The variables that start at one are those of the latches that do. */
  lemma SameResets(sys: TransitionSystem, aig: Aig)
    requires sys.WellFormed() && Represents(sys, aig)
    ensures Indices(sys.states, ResetOnes(sys)) == ResetOnesOf(aig)
  {
    hide TransitionSystem.Functional, CnfOver, SameStep, TransitionSystem.Init;
    var r, latches := ResetOnes(sys), ResetOnesOf(aig);
    LeastInitial(sys);
    assert InitialLatches(aig, Indices(sys.states, r));
    var s := StateOf(sys, aig, latches);
    assert InitialLatches(aig, latches);
    assert sys.Init(s);
    HoldsResets(sys, s);
  }

  /** The set of the variables that start at one is an initial state. */
  lemma LeastInitial(sys: TransitionSystem)
    requires sys.WellFormed()
    ensures sys.IsState(ResetOnes(sys)) && sys.Init(ResetOnes(sys))
  {
    var p := InitIsNotEmpty(sys);
    assert TrueVars([]) == {} && CubeTrue(p, []);
    assert MeetsInit(sys, []);
    ResetsGiveInitial(sys, []);
    assert {} + ResetOnes(sys) == ResetOnes(sys);
  }

  lemma HoldsResets(sys: TransitionSystem, s: State)
    requires sys.InitIsCube() && sys.Init(s)
    ensures ResetOnes(sys) <= s
  {
    forall v | v in ResetOnes(sys)
      ensures v in s
    {
      var l: Literal := v;
      assert [l] in sys.init && ClauseTrue(s, [l]);
    }
  }

  /** The run from the start with its resets is one of the graph. */
  lemma BadRunFromResets(sys: TransitionSystem, aig: Aig, cex: Result)
    requires sys.WellFormed() && Represents(sys, aig)
    requires GenuineRun(sys, cex) && RunsFromResets(sys, cex)
    ensures BadFromResets(aig, cex)
  {
    hide TransitionSystem.Functional, TransitionSystem.InitIsCube, CnfOver, TransitionSystem.Violates, Aigs.Violates,
      InitialLatches, SameStep, TrueVars, TransitionSystem.Init;
    var s := StartOf(cex) + ResetOnes(sys);
    RowPositions(sys.states, cex.initialState);
    RunRows(sys, aig, cex);
    SameResets(sys, aig);
    assert Indices(sys.states, s) == Ones(cex.initialState) + ResetOnesOf(aig);
    SameViolations(sys, aig, s, RunOf(cex));
  }

  /** Without latches that start at one the system has no such variables either. */
  lemma ResetsOfSystem(sys: TransitionSystem, aig: Aig)
    requires sys.WellFormed() && Represents(sys, aig) && NoLatchStartsAtOne(aig)
    ensures NoResetOnes(sys)
  {
    hide TransitionSystem.Functional, TransitionSystem.InitIsCube, TransitionSystem.Init, CnfOver, SameStep;
    assert sys.IsState({}) && Indices(sys.states, {}) == {};
    NoUnitIsPositive(sys);
  }

  lemma NoUnitIsPositive(sys: TransitionSystem)
    requires sys.InitIsCube() && sys.Init({})
    ensures NoResetOnes(sys)
  {
    forall c, l | c in sys.init && l in c
      ensures l < 0
    {
      assert |c| == 1 && ClauseTrue({}, c);
    }
  }

  lemma SafeAnswer(sys: TransitionSystem, aig: Aig, inv: set<State>)
    requires sys.WellFormed() && Represents(sys, aig)
    requires sys.InductiveInvariant(inv) && !Aigs.Unsafe(aig)
    ensures Decides(aig, Ok)
  {
    InvariantOfGraph(sys, aig, inv);
  }

  lemma UnsafeAnswer(sys: TransitionSystem, aig: Aig, cex: Result)
    requires sys.WellFormed() && Represents(sys, aig)
    requires GoodCounterexample(sys, cex) && Aigs.Unsafe(aig)
    ensures Decides(aig, cex)
  {
    hide TransitionSystem.WellFormed, TransitionSystem.Unsafe, Aigs.Unsafe, GenuineRun, Aigs.Violates,
      StartsInitial, NoResetOnes, Represents, RunsFromResets, BadFromResets;
    GenuineIsBadRun(sys, aig, cex);
    BadRunFromResets(sys, aig, cex);
    if NoLatchStartsAtOne(aig) {
      ResetsOfSystem(sys, aig);
    }
  }

  // ------------------------------------------------------------------
  // The engines
  // ------------------------------------------------------------------

  /**
   * PDR decides whether the graph is safe: it exhibits an inductive invariant
   * or a bad run, which starts initially if no latch starts at one.
   */
  method CheckWithPdr(aig: Aig) returns (v: Verdict)
    requires WellDefined(aig)
    ensures v.CyclicGraph? <==> Cyclic(aig)
    ensures forall reason :: v == Unsupported(reason) <==> !Cyclic(aig) && RejectedFor(aig, reason)
    ensures v.Answer? ==> Supported(aig) && Decides(aig, v.result)
  {
    hide WellDefined, Acyclic, Cyclic, TransitionSystem.WellFormed, TransitionSystem.Unsafe, Aigs.Unsafe,
      Represents, Decides, GoodCounterexample;
    var cyclic := HasCycle(aig);
    if cyclic {
      return CyclicGraph;
    }
    var store := new VariableStore();
    var engine := new PdrEngine(store);
    var built := BuildFromAiger(store, aig);
    match built
    case NotBuilt(reason) =>
      return Unsupported(reason);
    case Built(sys) =>
      SetupBeforeBuilding(sys, engine.transitionActivator, engine.errorActivator, store.size);
      var r := engine.Run(sys);
      if r.Ok? {
        ghost var i :| 1 <= i < engine.Depth() && engine.trace[i] == []
                       && sys.InductiveInvariant(FrameStates(sys, engine.trace, true, i));
        SafeAnswer(sys, aig, FrameStates(sys, engine.trace, true, i));
      } else {
        UnsafeAnswer(sys, aig, r);
      }
      return Answer(r);
  }

  /** Forward CAR decides the same, with any of its options. */
  method CheckWithCar(aig: Aig, opts: CarOptions) returns (v: Verdict)
    requires WellDefined(aig)
    ensures v.CyclicGraph? <==> Cyclic(aig)
    ensures forall reason :: v == Unsupported(reason) <==> !Cyclic(aig) && RejectedFor(aig, reason)
    ensures v.Answer? ==> Supported(aig) && Decides(aig, v.result)
  {
    hide WellDefined, Acyclic, Cyclic, TransitionSystem.WellFormed, TransitionSystem.Unsafe, Aigs.Unsafe,
      Represents, Decides, GoodCounterexample;
    var cyclic := HasCycle(aig);
    if cyclic {
      return CyclicGraph;
    }
    var store := new VariableStore();
    var engine := new CarEngine(opts, store);
    var built := BuildFromAiger(store, aig);
    match built
    case NotBuilt(reason) =>
      return Unsupported(reason);
    case Built(sys) =>
      SetupBeforeBuilding(sys, engine.transitionActivator, engine.errorActivator, store.size);
      var r := engine.Run(sys);
      if r.Ok? {
        ghost var i :| 1 <= i <= engine.Depth() && sys.InductiveInvariant(UnionBelow(sys, engine.trace, i));
        SafeAnswer(sys, aig, UnionBelow(sys, engine.trace, i));
      } else {
        UnsafeAnswer(sys, aig, r);
      }
      return Answer(r);
  }

  /**
   * Bounded model checking decides whether some run within the bound is bad,
   * and finds a shortest one.
   */
  method CheckWithBmc(aig: Aig, bound: int) returns (v: Verdict)
    requires WellDefined(aig)
    ensures v.CyclicGraph? <==> Cyclic(aig)
    ensures forall reason :: v == Unsupported(reason) <==> !Cyclic(aig) && RejectedFor(aig, reason)
    ensures v.Answer? ==> Supported(aig) && (v.result.Unknown? || v.result.Counterexample?)
    ensures v.Answer? && v.result.Unknown? ==> forall n: nat :: n <= bound + 1 ==> !UnsafeIn(aig, n)
    ensures v.Answer? && v.result.Counterexample? ==>
              && BadRun(aig, v.result) && StartsInitial(aig, v.result)
              && |v.result.inputs| <= bound + 1
              && forall n: nat :: n < |v.result.inputs| ==> !UnsafeIn(aig, n)
  {
    hide WellDefined, Acyclic, Cyclic, TransitionSystem.WellFormed, Aigs.Unsafe, UnsafeIn, Represents, BadRun,
      StartsInitial, GenuineRun;
    var cyclic := HasCycle(aig);
    if cyclic {
      return CyclicGraph;
    }
    var store := new VariableStore();
    var engine := new BmcEngine(store);
    var built := BuildFromAiger(store, aig);
    match built
    case NotBuilt(reason) =>
      return Unsupported(reason);
    case Built(sys) =>
      var r := engine.Run(sys, bound);
      if r.Counterexample? {
        GenuineIsBadRun(sys, aig, r);
      }
      return Answer(r);
  }
}
