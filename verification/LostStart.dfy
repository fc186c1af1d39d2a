/**
 * A system on which PDR reports a counterexample whose first row is no initial
 * state (src/engine/pdr.cpp): the literal that starts at one is dropped from
 * the generalised predecessor, and the completion sets it to zero.
 */
module LostStart {
  import opened Logic
  import opened TransitionSystems
  import opened Solvers
  import opened Frames
  import opened FrameInvariants
  import opened Chains
  import opened Queries
  import opened PdrQueries
  import opened PdrObligations

  /** Two latches that are one after every step; they start at one and at zero, and the second one is the error. */
  function TwoLatches(): TransitionSystem {
    TransitionSystem(
      VariableRange(3, 3), VariableRange(3, 5), VariableRange(5, 7), VariableRange(7, 7),
      [[3], [-4]], [[5], [6]], [[4]])
  }

  /** The activators of the engine after one frame was opened. */
  function TwoFrames(): Activators {
    Activators([7, 8], 1, 2)
  }

  const EMPTY_TRACE: Trace := [[], []]

  /** The unit clauses of two literals. */
  lemma TwoUnits(a: Assignment, l: Literal, m: Literal)
    ensures Models(a, [[l], [m]]) <==> LitTrue(a, l) && LitTrue(a, m)
  {
    var f := [[l], [m]];
    assert l in [l] && m in [m] && f[0] in f && f[1] in f;
  }

  lemma OneUnit(a: Assignment, l: Literal)
    ensures Models(a, [[l]]) <==> LitTrue(a, l)
  {
    assert l in [l] && [l] in [[l]];
  }

  lemma Step(s: State, y: Input, t: State)
    requires TwoLatches().IsState(s) && TwoLatches().IsInput(y) && TwoLatches().IsState(t)
    ensures TwoLatches().Step(s, y, t) <==> t == {3, 4}
  {
    var sys := TwoLatches();
    forall w | sys.IsAux(w)
      ensures Models(sys.Join(s, y, t, w), sys.trans) <==> t == {3, 4}
    {
      sys.JoinParts(s, y, t, w);
      TwoUnits(sys.Join(s, y, t, w), 5, 6);
      assert sys.PrimeVar(3) == 5 && sys.PrimeVar(4) == 6;
      assert sys.states.Contains(3) && sys.states.Contains(4);
      assert forall v :: v in t ==> v == 3 || v == 4;
    }
    assert sys.IsAux({});
  }

  lemma OneSuccessor(s: State, y: Input)
    requires TwoLatches().IsState(s) && TwoLatches().IsInput(y)
    ensures TwoLatches().HasSuccessor(s, y)
    ensures forall t :: TwoLatches().IsState(t) && TwoLatches().Step(s, y, t) ==> t == {3, 4}
  {
    assert TwoLatches().IsState({3, 4});
    Step(s, y, {3, 4});
    hide TransitionSystem.Step;
    forall t | TwoLatches().IsState(t)
      ensures TwoLatches().Step(s, y, t) ==> t == {3, 4}
    {
      Step(s, y, t);
    }
  }

  lemma FormulasFit()
    ensures var sys := TwoLatches();
            && sys.DisjointRanges() && sys.InitIsCube()
            && CnfOver(sys.trans, sys.Vars())
            && CnfOver(sys.error, sys.inputs.Vars() + sys.states.Vars() + sys.aux.Vars())
  {
    var sys := TwoLatches();
    assert 5 in sys.nexts.Vars() && 6 in sys.nexts.Vars() && 4 in sys.states.Vars();
  }

  lemma IsWellFormed()
    ensures TwoLatches().WellFormed()
    ensures forall s, y :: TwoLatches().IsState(s) && TwoLatches().IsInput(y) ==> TwoLatches().Succ(s, y) == {3, 4}
  {
    hide TransitionSystem.Step, TransitionSystem.HasSuccessor, TransitionSystem.InitIsCube,
      TransitionSystem.DisjointRanges, CnfOver, TransitionSystem.IsState, TransitionSystem.IsInput, TwoLatches;
    FormulasFit();
    forall s, y | TwoLatches().IsState(s) && TwoLatches().IsInput(y)
      ensures TwoLatches().HasSuccessor(s, y)
      ensures forall t :: TwoLatches().IsState(t) && TwoLatches().Step(s, y, t) ==> t == {3, 4}
    {
      OneSuccessor(s, y);
    }
  }

  lemma StatesOfTwo(s: State)
    ensures TwoLatches().IsState(s) <==> s <= {3, 4}
    ensures TwoLatches().Init(s) <==> 3 in s && 4 !in s
  {
    TwoUnits(s, 3, -4);
    if TwoLatches().IsState(s) {
      forall v | v in s
        ensures v in {3, 4}
      {
        assert TwoLatches().states.Contains(v);
      }
    }
    if s <= {3, 4} {
      forall v | v in s
        ensures TwoLatches().states.Contains(v)
      {
        assert v in {3, 4};
      }
    }
  }

  lemma ErrorOfTwo(s: State, y: Input)
    requires TwoLatches().IsState(s) && TwoLatches().IsInput(y)
    ensures TwoLatches().Error(s, y) <==> 4 in s
  {
    forall w | TwoLatches().IsAux(w)
      ensures Models(s + y + w, [[4]]) <==> 4 in s
    {
      OneUnit(s + y + w, 4);
      assert !TwoLatches().inputs.Contains(4) && !TwoLatches().aux.Contains(4);
    }
    assert TwoLatches().IsAux({});
  }

  lemma IsSetUp()
    ensures Setup(TwoLatches(), TwoFrames(), 2, 9)
  {
    IsWellFormed();
    hide TransitionSystem.WellFormed;
    var sys, act := TwoLatches(), TwoFrames();
    assert act.frames[0] == 7 && act.frames[1] == 8;
    forall v | v in act.All()
      ensures v == 1 || v == 2 || v == 7 || v == 8
    {
      assert v in [7, 8] ==> v == 7 || v == 8;
    }
    forall v | v in sys.Vars()
      ensures 3 <= v < 7
    {
      assert sys.inputs.Contains(v) || sys.states.Contains(v) || sys.nexts.Contains(v) || sys.aux.Contains(v);
    }
  }

  lemma EmptyFrames()
    requires TwoLatches().WellFormed()
    ensures FrameInvariant(TwoLatches(), EMPTY_TRACE, true)
  {
    hide TransitionSystem.WellFormed, TransitionSystem.Error, TransitionSystem.Init;
    var sys := TwoLatches();
    forall p, y | sys.IsState(p) && sys.IsInput(y) && InFrame(sys, EMPTY_TRACE, true, 0, p)
      ensures !sys.Error(p, y)
    {
      StatesOfTwo(p);
      ErrorOfTwo(p, y);
    }
  }

  // ------------------------------------------------------------------
  // Three answers the solver may give
  // ------------------------------------------------------------------

  /** An error state in the newest frame: both latches are one. */
  const ERROR_MODEL: Assignment := {2, 3, 4, 8}

  /** A step from the initial state into it. */
  const STEP_MODEL: Assignment := {1, 3, 5, 6, 7, 8}

  ghost function ErrorEntryOfTwo(): Entry {
    var sys := TwoLatches();
    Entry(MakeCube(ValuationOf(ERROR_MODEL, sys.states)), MakeCube(ValuationOf(ERROR_MODEL, sys.inputs)), None)
  }

  /** What remains of the predecessor when none of its literals failed. */
  ghost function LostEntry(): Entry {
    Entry(MakeCube([]), MakeCube(ValuationOf(STEP_MODEL, TwoLatches().inputs)), Some(0))
  }

  lemma TwoLiterals()
    ensures forall l :: l in ErrorEntryOfTwo().state.literals <==> l == 3 || l == 4
  {
    hide ValuationOf, MakeCube;
    forall l: Literal
      ensures TwoLatches().states.Contains(VarOf(l)) && LitTrue(ERROR_MODEL, l) <==> l == 3 || l == 4
    {
    }
  }

  /** The error cube fixes both latches to one. */
  lemma ErrorCube()
    ensures TwoLatches().DisjointRanges() && TwoLatches().IsStateCube(ErrorEntryOfTwo().state.literals)
    ensures var s := ErrorEntryOfTwo().state.literals;
            && (forall l :: l in s <==> l == 3 || l == 4)
            && (forall l :: l in TwoLatches().PrimeAll(s) <==> l == 5 || l == 6)
  {
    var sys := TwoLatches();
    FormulasFit();
    var s := ErrorEntryOfTwo().state.literals;
    TwoLiterals();
    hide ErrorEntryOfTwo, TransitionSystem.PrimeAll;
    var ps := sys.PrimeAll(s);
    assert sys.Prime(3) == 5 && sys.Prime(4) == 6;
    forall l | l in ps
      ensures l == 5 || l == 6
    {
      var i :| 0 <= i < |ps| && ps[i] == l;
      assert s[i] in s;
    }
  }

  lemma AnyModel(clauses: Cnf, a: Assignment)
    requires Synced(clauses, TwoLatches(), TwoFrames(), EMPTY_TRACE, true)
    requires 7 in a ==> 3 in a && 4 !in a
    requires 1 in a ==> 5 in a && 6 in a
    requires 2 in a ==> 4 in a
    ensures Models(a, clauses)
  {
    TwoUnits(a, 3, -4);
    TwoUnits(a, 5, 6);
    OneUnit(a, 4);
    assert BaseHolds(a, TwoLatches(), TwoFrames());
    assert ActiveFramesHold(a, TwoFrames(), EMPTY_TRACE, true);
  }

  lemma ErrorAnswer(clauses: Cnf)
    requires Synced(clauses, TwoLatches(), TwoFrames(), EMPTY_TRACE, true)
    ensures Allowed(Satisfied(ERROR_MODEL), clauses, ActivatorsFrom(TwoFrames(), 1) + {TwoFrames().error}, [])
  {
    AnyModel(clauses, ERROR_MODEL);
    assert TwoFrames().frames[1..] == [8];
  }

  lemma StepAnswer(clauses: Cnf)
    requires Synced(clauses, TwoLatches(), TwoFrames(), EMPTY_TRACE, true)
    requires TwoLatches().DisjointRanges() && TwoLatches().IsStateCube(ErrorEntryOfTwo().state.literals)
    ensures var s := ErrorEntryOfTwo().state.literals;
            Allowed(
              Satisfied(STEP_MODEL), clauses,
              ActivatorsFrom(TwoFrames(), 0) + LitSet([TwoFrames().trans]) + LitSet(TwoLatches().PrimeAll(s)),
              [NotAll(s)])
  {
    var s := ErrorEntryOfTwo().state.literals;
    hide Synced, ErrorEntryOfTwo;
    ErrorCube();
    AnyModel(clauses, STEP_MODEL);
    assert TwoFrames().frames[0..] == [7, 8];
    NegatedCube(STEP_MODEL, s);
    assert 4 in s && !LitTrue(STEP_MODEL, 4);
    assert forall d :: d in [NotAll(s)] ==> d == NotAll(s);
  }

  /** No state at all steps out of the error cube, so none of the predecessor's literals has to fail. */
  lemma CoreAnswer(clauses: Cnf, others: set<Literal>)
    requires Synced(clauses, TwoLatches(), TwoFrames(), EMPTY_TRACE, true)
    requires TwoLatches().DisjointRanges() && TwoLatches().IsStateCube(ErrorEntryOfTwo().state.literals)
    ensures var s := ErrorEntryOfTwo().state.literals;
            Allowed(
              Unsatisfied({1}), clauses, LitSet([TwoFrames().trans]) + others,
              [NotAll(TwoLatches().PrimeAll(s))])
  {
    var s := ErrorEntryOfTwo().state.literals;
    hide ErrorEntryOfTwo;
    ErrorCube();
    var ps := TwoLatches().PrimeAll(s);
    forall a: Assignment
      ensures !Answers(a, clauses, {1}, [NotAll(ps)])
    {
      if Models(a, clauses) && AllTrue(a, {1}) {
        var one: Literal := 1;
        assert LitTrue(a, one);
        assert BaseHolds(a, TwoLatches(), TwoFrames());
        TwoUnits(a, 5, 6);
        NegatedCube(a, ps);
        assert NotAll(ps) in [NotAll(ps)];
      }
    }
    assert 1 in [TwoFrames().trans];
  }

  // ------------------------------------------------------------------
  // The counterexample that does not start initially
  // ------------------------------------------------------------------

  function LostCounterexample(): Result {
    Counterexample([-3, -4], [[], []])
  }

  /**
   * The completion of a cube without literals starts a run that leads to an
   * error, but it is not initial.
   */
  lemma StartIsNotInitial()
    ensures TwoLatches().WellFormed() && GenuineRun(TwoLatches(), LostCounterexample())
    ensures StartOf(LostCounterexample()) == TrueVars(LostEntry().state.literals)
    ensures !TwoLatches().Init(StartOf(LostCounterexample()))
    ensures !FixesResetOnes(TwoLatches(), LostEntry().state.literals)
  {
    var sys, cex := TwoLatches(), LostCounterexample();
    IsWellFormed();
    assert TrueVars(LostEntry().state.literals) == {} == TrueVars(cex.initialState);
    var none: Input := {};
    assert TrueVars([]) == none;
    assert RunOf(cex) == [none, none];
    StatesOfTwo({});
    assert sys.IsState({3, 4}) && sys.IsInput(none);
    ErrorOfTwo({3, 4}, none);
    assert [none, none][1..] == [none];
    assert sys.Violates({3, 4}, [none]);
    assert [3] in sys.init;
  }

  /**
   * With one frame opened and the solver in step, these are answers the engine
   * may get to the queries it asks: for an error in the newest frame, for a
   * step into it, and for the failed part of the predecessor. The pool they
   * leave has a cube without literals as an obligation at level 0, and the run
   * read off from there leads to an error but does not start initially.
   */
  lemma StartCanLeaveInit(clauses: Cnf)
    requires Synced(clauses, TwoLatches(), TwoFrames(), EMPTY_TRACE, true)
    ensures Setup(TwoLatches(), TwoFrames(), 2, 9) && FrameInvariant(TwoLatches(), EMPTY_TRACE, true)
    ensures var (sys, act, m) := (TwoLatches(), TwoFrames(), STEP_MODEL);
            var s := ErrorEntryOfTwo().state.literals;
            && sys.DisjointRanges() && sys.IsStateCube(s)
            && Allowed(Satisfied(ERROR_MODEL), clauses, ActivatorsFrom(act, 1) + {act.error}, [])
            && Allowed(
                 Satisfied(m), clauses,
                 ActivatorsFrom(act, 0) + LitSet([act.trans]) + LitSet(sys.PrimeAll(s)), [NotAll(s)])
            && Allowed(
                 Unsatisfied({1}), clauses,
                 LitSet([act.trans]) + (LitSet(ValuationOf(m, sys.inputs)) + LitSet(ValuationOf(m, sys.states))),
                 [NotAll(sys.PrimeAll(s))])
            && 1 !in ValuationOf(m, sys.states)
    ensures var (sys, pool) := (TwoLatches(), [ErrorEntryOfTwo(), LostEntry()]);
            && PoolOk(sys, pool)
            && ObligationOk(sys, EMPTY_TRACE, pool[..1], Obligation(1, 0))
            && ObligationOk(sys, EMPTY_TRACE, pool, Obligation(0, 1))
    ensures var (sys, cex) := (TwoLatches(), LostCounterexample());
            && GenuineRun(sys, cex) && StartOf(cex) == TrueVars(LostEntry().state.literals)
            && !sys.Init(StartOf(cex))
  {
    hide Synced, Setup, FrameInvariant, TransitionSystem.WellFormed, PoolOk, ObligationOk, Allowed, LeadsInto,
      ModelSteps, Answers, GenuineRun, TransitionSystem.Init, LostEntry, StartOf;
    StartIsNotInitial();
    var (sys, act, m) := (TwoLatches(), TwoFrames(), STEP_MODEL);
    IsWellFormed();
    IsSetUp();
    EmptyFrames();
    ErrorCube();
    ErrorAnswer(clauses);
    StepAnswer(clauses);
    CoreAnswer(clauses, LitSet(ValuationOf(m, sys.inputs)) + LitSet(ValuationOf(m, sys.states)));
    LostPool(clauses);
  }

  lemma LostPool(clauses: Cnf)
    requires Synced(clauses, TwoLatches(), TwoFrames(), EMPTY_TRACE, true)
    requires Setup(TwoLatches(), TwoFrames(), 2, 9) && FrameInvariant(TwoLatches(), EMPTY_TRACE, true)
    ensures var (sys, pool) := (TwoLatches(), [ErrorEntryOfTwo(), LostEntry()]);
            && PoolOk(sys, pool)
            && ObligationOk(sys, EMPTY_TRACE, pool[..1], Obligation(1, 0))
            && ObligationOk(sys, EMPTY_TRACE, pool, Obligation(0, 1))
  {
    hide Synced, Setup, FrameInvariant, TransitionSystem.WellFormed, PoolOk, ObligationOk, LeadsInto, ModelSteps,
      Blocked, Blockable, Models;
    var (sys, act, m) := (TwoLatches(), TwoFrames(), STEP_MODEL);
    var s := ErrorEntryOfTwo().state.literals;
    ErrorCube();
    ErrorAnswer(clauses);
    EmptyPoolOk(sys, act, 2, 9);
    ErrorCtiFound(clauses, sys, act, EMPTY_TRACE, 9, [], ERROR_MODEL);
    assert [] + [ErrorEntryOfTwo()] == [ErrorEntryOfTwo()];
    StepAnswer(clauses);
    NotRelativelyInductive(clauses, sys, act, EMPTY_TRACE, 9, s, 0, m);
    IntoErrorCube(s, m * sys.inputs.Vars());
    PredecessorIsObligation(
      sys, act, 9, EMPTY_TRACE, [ErrorEntryOfTwo()], Obligation(1, 0), m, [], LostEntry());
    assert [ErrorEntryOfTwo()] + [LostEntry()] == [ErrorEntryOfTwo(), LostEntry()];
    assert [ErrorEntryOfTwo(), LostEntry()][..1] == [ErrorEntryOfTwo()];
  }

  lemma IntoErrorCube(s: seq<Literal>, y: Input)
    requires forall l :: l in s ==> l == 3 || l == 4
    requires TwoLatches().IsInput(y)
    ensures TwoLatches().WellFormed() && LeadsInto(TwoLatches(), [], y, s)
  {
    IsWellFormed();
  }
}
