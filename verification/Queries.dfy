/**
 * What the queries of the PDR and CAR engines have in common
 * (src/engine/pdr.cpp, src/engine/car.cpp), stated on values.
 */
module Queries {
  import opened Logic
  import opened TransitionSystems
  import opened Solvers
  import opened Frames
  import opened FrameInvariants
  import opened Chains

  // ------------------------------------------------------------------
  // Activators
  // ------------------------------------------------------------------

  /** The activation literals of the frames i, i + 1, ... as a set. */
  function ActivatorsFrom(act: Activators, i: nat): set<Literal>
    requires i <= |act.frames|
  {
    LitSet(act.frames[i..])
  }

  lemma ActivatorsHold(act: Activators, i: nat, m: Assignment, n: nat)
    requires i <= |act.frames| == n
    requires AllTrue(m, ActivatorsFrom(act, i)) && forall l :: l in act.frames ==> l > 0
    ensures forall j :: i <= j < n ==> act.frames[j] in m
  {
    forall j | i <= j < n
      ensures act.frames[j] in m
    {
      assert act.frames[i..][j - i] == act.frames[j];
      assert act.frames[j] in ActivatorsFrom(act, i);
      assert act.frames[j] in act.frames;
    }
  }

  lemma OnlyActivatorsFrom(sys: TransitionSystem, act: Activators, i: nat, on: set<int>)
    requires act.Fresh(sys) && i <= |act.frames|
    requires on == {act.error} + (set l | l in act.frames[i..] :: l)
             || on == (set l | l in act.frames[i..] :: l)
    ensures on <= act.All() && act.trans !in on
    ensures act.error in on ==> on == {act.error} + (set l | l in act.frames[i..] :: l)
    ensures forall k :: 0 <= k < |act.frames| && act.frames[k] in on ==> i <= k
    ensures forall l :: l in ActivatorsFrom(act, i) ==> l > 0 && l in on
  {
    forall l | l in act.frames[i..]
      ensures l in act.frames
    {
    }
    forall k | 0 <= k < |act.frames| && act.frames[k] in on
      ensures i <= k
    {
      assert act.frames[k] in act.frames;
      var m :| 0 <= m < |act.frames[i..]| && act.frames[i..][m] == act.frames[k];
      assert act.frames[i + m] == act.frames[k];
    }
  }

  lemma InvariantHasStateTrace(
    sys: TransitionSystem, act: Activators, bound: int, trace: Trace, cumulative: bool)
    requires Setup(sys, act, |trace|, bound) && FrameInvariant(sys, trace, cumulative)
    ensures StateTrace(sys, trace)
  {
  }

  /** Opening a frame above an error-free newest one keeps the engine's configuration and invariant. */
  lemma AfterPush(
    clauses: Cnf, sys: TransitionSystem, act: Activators, bound: int, trace: Trace, cumulative: bool)
    requires Setup(sys, act, |trace|, bound) && bound > 0 && FrameInvariant(sys, trace, cumulative)
    requires Synced(clauses, sys, act, trace, cumulative)
    requires NoErrorIn(sys, trace, cumulative, |trace| - 1)
    ensures Setup(sys, PushActivator(act, bound), |trace| + 1, bound + 1)
    ensures FrameInvariant(sys, trace + [[]], cumulative)
    ensures Synced(clauses, sys, PushActivator(act, bound), trace + [[]], cumulative)
    ensures PushActivator(act, bound).frames[0] == act.frames[0]
  {
    SetupAfterPush(sys, act, |trace|, bound);
    PushKeepsInvariant(sys, trace, cumulative);
    SyncedAfterPush(clauses, sys, act, PushActivator(act, bound), trace, cumulative);
  }

  // ------------------------------------------------------------------
  // Blocked cubes
  // ------------------------------------------------------------------

  /** No state of R_i lies in the cube. */
  ghost predicate Blocked(sys: TransitionSystem, trace: Trace, cumulative: bool, i: nat, s: seq<Literal>) {
    forall p :: sys.IsState(p) && InFrame(sys, trace, cumulative, i, p) ==> !CubeTrue(p, s)
  }

  lemma BlockedUnsat(
    clauses: Cnf, sys: TransitionSystem, act: Activators, trace: Trace, cumulative: bool,
    s: seq<Literal>, i: nat, on: set<int>, core: set<Literal>)
    requires Synced(clauses, sys, act, trace, cumulative)
    requires act.Fresh(sys) && sys.WellFormed() && StateTrace(sys, trace)
    requires sys.IsStateCube(s) && i < |trace|
    requires on <= act.All() && act.error !in on && act.trans !in on
    requires forall k :: 0 <= k < |trace| && act.frames[k] in on ==> i <= k && (cumulative || k == i)
    requires forall l :: l in core ==> (l > 0 && l in on) || l in s
    requires forall a :: !Answers(a, clauses, core, [])
    ensures Blocked(sys, trace, cumulative, i, s)
  {
    forall p | sys.IsState(p) && InFrame(sys, trace, cumulative, i, p)
      ensures !CubeTrue(p, s)
    {
      var y: Input := {};
      var a := StepIsModel(clauses, sys, act, trace, cumulative, p, y, on);
      sys.StateCubeMeaning(a, s);
      if CubeTrue(p, s) {
        assert Answers(a, clauses, core, []);
        assert false;
      }
    }
  }

  lemma SubsumedIsBlocked(
    sys: TransitionSystem, trace: Trace, cumulative: bool, i: nat, j: nat, c: Cube, s: Cube)
    requires i <= j < |trace| && (cumulative || j == i) && c in trace[j] && Subsumes(c, s)
    ensures Blocked(sys, trace, cumulative, i, s.literals)
  {
    SubsumesMeaning(c, s);
    forall p | sys.IsState(p) && InFrame(sys, trace, cumulative, i, p)
      ensures !CubeTrue(p, s.literals)
    {
      assert Avoids(p, trace[j]);
    }
  }

  /** No frame has gained a state. */
  ghost predicate FramesShrink(sys: TransitionSystem, trace: Trace, trace': Trace, cumulative: bool) {
    && |trace'| == |trace|
    && forall k: nat, s {:trigger InFrame(sys, trace', cumulative, k, s)} ::
         InFrame(sys, trace', cumulative, k, s) ==> InFrame(sys, trace, cumulative, k, s)
  }

  lemma SameNumberOfFrames(sys: TransitionSystem, trace: Trace, trace': Trace, cumulative: bool)
    requires FramesShrink(sys, trace, trace', cumulative)
    ensures |trace'| == |trace|
  {
  }

  lemma ShrunkItself(sys: TransitionSystem, trace: Trace, cumulative: bool)
    ensures FramesShrink(sys, trace, trace, cumulative)
  {
  }

  lemma ShrunkTwice(sys: TransitionSystem, trace: Trace, trace': Trace, trace'': Trace, cumulative: bool)
    requires FramesShrink(sys, trace, trace', cumulative) && FramesShrink(sys, trace', trace'', cumulative)
    ensures FramesShrink(sys, trace, trace'', cumulative)
  {
    forall k: nat, s | InFrame(sys, trace'', cumulative, k, s)
      ensures InFrame(sys, trace, cumulative, k, s)
    {
      assert InFrame(sys, trace', cumulative, k, s);
    }
  }

  lemma ShrunkByBlocking(sys: TransitionSystem, trace: Trace, trace': Trace, cumulative: bool, c: Cube, k: int)
    requires 0 <= k < |trace| == |trace'| && BlockedIn(trace, trace', cumulative, c, k)
    ensures FramesShrink(sys, trace, trace', cumulative)
  {
    forall m: nat, s | InFrame(sys, trace', cumulative, m, s)
      ensures InFrame(sys, trace, cumulative, m, s)
    {
      BlockingMeaning(sys, trace, trace', cumulative, c, k, m, s);
    }
  }

  /** What is blocked stays blocked. */
  lemma StaysBlocked(
    sys: TransitionSystem, trace: Trace, trace': Trace, cumulative: bool, i: nat, ls: seq<Literal>)
    requires FramesShrink(sys, trace, trace', cumulative) && Blocked(sys, trace, cumulative, i, ls)
    ensures Blocked(sys, trace', cumulative, i, ls)
  {
  }

  /** A cube with fewer literals blocks more. */
  lemma BlockedIsMonotone(
    sys: TransitionSystem, trace: Trace, cumulative: bool, i: nat, c: seq<Literal>, s: seq<Literal>)
    requires forall l :: l in c ==> l in s
    requires Blocked(sys, trace, cumulative, i, c)
    ensures Blocked(sys, trace, cumulative, i, s)
  {
  }

  /** The trace after c went to frame k, its subsumed cubes leaving the frames from, ..., k. */
  ghost predicate BlockedBetween(trace: Trace, trace': Trace, c: Cube, from: int, k: int)
    requires 0 <= k < |trace|
  {
    && |trace| == |trace'|
    && c in trace'[k]
    && (forall j, d {:trigger d in trace'[j]} :: 0 <= j < |trace'| && d in trace'[j] ==>
          (d in trace[j] && !(from <= j <= k && Subsumes(c, d))) || (j == k && d == c))
    && (forall j, d {:trigger d in trace[j]} ::
          0 <= j < |trace| && d in trace[j] && !(from <= j <= k && Subsumes(c, d)) ==> d in trace'[j])
  }

  lemma BlockedBetweenIsBlockedIn(trace: Trace, trace': Trace, c: Cube, from: int, k: int)
    requires 1 <= from <= k < |trace| && BlockedBetween(trace, trace', c, from, k)
    ensures BlockedIn(trace, trace', true, c, k)
  {
  }

  lemma SameLength(trace: Trace, trace': Trace, c: Cube, from: int, k: int)
    requires 0 <= k < |trace| && BlockedBetween(trace, trace', c, from, k)
    ensures |trace'| == |trace|
  {
  }

  // ------------------------------------------------------------------
  // Errors
  // ------------------------------------------------------------------

  /** A model of an error query is an error state of R_i. */
  lemma ErrorSat(
    clauses: Cnf, sys: TransitionSystem, act: Activators, trace: Trace, cumulative: bool, i: nat, m: Assignment)
    requires Synced(clauses, sys, act, trace, cumulative)
    requires sys.WellFormed() && StateTrace(sys, trace) && i < |trace|
    requires Models(m, clauses) && LitTrue(m, act.error) && act.error > 0
    requires forall j :: i <= j < |trace| && (cumulative || j == i) ==> act.frames[j] in m
    ensures sys.IsState(m * sys.states.Vars()) && sys.IsInput(m * sys.inputs.Vars())
    ensures InFrame(sys, trace, cumulative, i, m * sys.states.Vars())
    ensures sys.Error(m * sys.states.Vars(), m * sys.inputs.Vars())
  {
    ModelLiesInFrame(clauses, sys, act, trace, cumulative, m, i);
    sys.ModelOfErrorIsError(m);
  }

  lemma ErrorUnsat(
    clauses: Cnf, sys: TransitionSystem, act: Activators, trace: Trace, cumulative: bool,
    i: nat, on: set<int>, core: set<Literal>)
    requires Synced(clauses, sys, act, trace, cumulative)
    requires act.Fresh(sys) && sys.WellFormed() && StateTrace(sys, trace) && i < |trace|
    requires on <= act.All() && act.trans !in on
    requires forall k :: 0 <= k < |trace| && act.frames[k] in on ==> i <= k && (cumulative || k == i)
    requires forall l :: l in core ==> l > 0 && l in on
    requires forall a :: !Answers(a, clauses, core, [])
    ensures NoErrorIn(sys, trace, cumulative, i)
  {
    forall p, y | sys.IsState(p) && sys.IsInput(y) && InFrame(sys, trace, cumulative, i, p)
      ensures !sys.Error(p, y)
    {
      if sys.Error(p, y) {
        var a := ErrorIsModel(clauses, sys, act, trace, cumulative, p, y, on);
        assert Answers(a, clauses, core, []);
        assert false;
      }
    }
  }

  // ------------------------------------------------------------------
  // Predecessors
  // ------------------------------------------------------------------

  /** From every state of the cube c, input y leads into s. */
  ghost predicate LeadsInto(sys: TransitionSystem, c: seq<Literal>, y: Input, s: seq<Literal>)
    requires sys.WellFormed() && sys.IsInput(y)
  {
    forall q :: sys.IsState(q) && CubeTrue(q, c) ==> CubeTrue(sys.Succ(q, y), s)
  }

  /** Exactly the literals of the model's state that failed. */
  ghost predicate FailedState(sys: TransitionSystem, m: Assignment, failed: set<Literal>, c: seq<Literal>)
    requires sys.WellFormed()
  {
    forall l :: l in c <==> l in ValuationOf(m, sys.states) && l in failed
  }

  /** The failed part of a predecessor still leads into s from every one of its states. */
  lemma PredecessorCoreLeadsIn(
    clauses: Cnf, sys: TransitionSystem, act: Activators, trace: Trace, cumulative: bool,
    s: seq<Literal>, ins: seq<Literal>, c: seq<Literal>, core: set<Literal>, y: Input)
    requires Synced(clauses, sys, act, trace, cumulative)
    requires act.Fresh(sys) && sys.WellFormed() && StateTrace(sys, trace)
    requires sys.IsStateCube(s) && sys.IsStateCube(c)
    requires sys.IsInput(y) && LitsOver(ins, sys.inputs.Vars()) && CubeTrue(y, ins)
    requires forall l :: l in core ==> l == act.trans || l in ins || l in c
    requires forall a :: !Answers(a, clauses, core, [NotAll(sys.PrimeAll(s))])
    ensures forall q :: sys.IsState(q) && CubeTrue(q, c) ==> CubeTrue(sys.Succ(q, y), s)
  {
    forall q | sys.IsState(q) && CubeTrue(q, c)
      ensures CubeTrue(sys.Succ(q, y), s)
    {
      var on: set<int> := {act.trans};
      assert forall k :: 0 <= k < |trace| ==> act.frames[k] in act.frames;
      var a := StepIsModel(clauses, sys, act, trace, cumulative, q, y, on);
      sys.StateCubeMeaning(a, c);
      AgreeOnCube(a, y, sys.inputs.Vars(), ins) by {
        forall v | v in sys.inputs.Vars()
          ensures v in a <==> v in y
        {
          assert v in a * sys.inputs.Vars() <==> v in y;
        }
      }
      assert LitTrue(a, act.trans);
      assert AllTrue(a, core);
      assert !Answers(a, clauses, core, [NotAll(sys.PrimeAll(s))]);
      assert !Models(a, [NotAll(sys.PrimeAll(s))]);
      NegatedCube(a, sys.PrimeAll(s));
      assert forall d :: d in [NotAll(sys.PrimeAll(s))] ==> d == NotAll(sys.PrimeAll(s));
      sys.PrimedCubeMeaning(a, s);
    }
  }

  /** Any part of an assumed cube that contains its failed literals still leads into s. */
  lemma FailedPartLeadsIn(
    clauses: Cnf, sys: TransitionSystem, act: Activators, trace: Trace, cumulative: bool, bound: int,
    s: seq<Literal>, m: Assignment, core: set<Literal>, c: seq<Literal>)
    requires Synced(clauses, sys, act, trace, cumulative) && Setup(sys, act, |trace|, bound)
    requires StateTrace(sys, trace) && sys.IsStateCube(s) && sys.IsStateCube(c)
    requires forall a :: !Answers(a, clauses, core, [NotAll(sys.PrimeAll(s))])
    requires forall l :: l in core ==> l == act.trans || l in ValuationOf(m, sys.inputs) || l in c
    ensures sys.IsInput(m * sys.inputs.Vars()) && LeadsInto(sys, c, m * sys.inputs.Vars(), s)
  {
    var ins := ValuationOf(m, sys.inputs);
    FullInput(sys, m, MakeCube(ins));
    assert LitsOver(ins, sys.inputs.Vars());
    PredecessorCoreLeadsIn(clauses, sys, act, trace, cumulative, s, ins, c, core, m * sys.inputs.Vars());
  }

  /** A step into s cannot also lead out of s: the check before taking the core is unsatisfiable. */
  lemma NoStepLeadsOut(
    clauses: Cnf, sys: TransitionSystem, act: Activators, trace: Trace, cumulative: bool,
    s: seq<Literal>, m: Assignment, a: Assignment)
    requires Synced(clauses, sys, act, trace, cumulative)
    requires act.Fresh(sys) && sys.WellFormed() && sys.IsStateCube(s)
    requires sys.IsState(m * sys.states.Vars()) && sys.IsInput(m * sys.inputs.Vars())
    requires CubeTrue(sys.Succ(m * sys.states.Vars(), m * sys.inputs.Vars()), s)
    requires Models(a, clauses) && LitTrue(a, act.trans)
    requires CubeTrue(a, ValuationOf(m, sys.inputs)) && CubeTrue(a, ValuationOf(m, sys.states))
    ensures !Models(a, [NotAll(sys.PrimeAll(s))])
  {
    ValuationMeaning(m, sys.inputs, a);
    ValuationMeaning(m, sys.states, a);
    sys.ModelOfTransIsStep(a);
    sys.PrimedCubeMeaning(a, s);
    NegatedCube(a, sys.PrimeAll(s));
    assert NotAll(sys.PrimeAll(s)) in [NotAll(sys.PrimeAll(s))];
  }

  /** Asking for a step out of s, from the model that steps into s, is unsatisfiable. */
  lemma PredecessorCheckFails(
    clauses: Cnf, sys: TransitionSystem, act: Activators, trace: Trace, cumulative: bool, bound: int,
    s: seq<Literal>, m: Assignment, a: Assignment)
    requires Synced(clauses, sys, act, trace, cumulative) && Setup(sys, act, |trace|, bound)
    requires sys.IsStateCube(s)
    requires sys.IsState(m * sys.states.Vars()) && sys.IsInput(m * sys.inputs.Vars())
    requires CubeTrue(sys.Succ(m * sys.states.Vars(), m * sys.inputs.Vars()), s)
    ensures !Answers(a, clauses,
                     LitSet([act.trans]) + LitSet(ValuationOf(m, sys.inputs)) + LitSet(ValuationOf(m, sys.states)),
                     [NotAll(sys.PrimeAll(s))])
  {
    var ins, p := ValuationOf(m, sys.inputs), ValuationOf(m, sys.states);
    var assumed := LitSet([act.trans]) + LitSet(ins) + LitSet(p);
    if Models(a, clauses) && AllTrue(a, assumed) {
      assert act.trans in [act.trans];
      NoStepLeadsOut(clauses, sys, act, trace, cumulative, s, m, a);
    }
  }

  lemma PrimedLiteralFalse(sys: TransitionSystem, s: seq<Literal>, a: Assignment, f: Literal, c: seq<Literal>)
    requires sys.WellFormed() && sys.IsStateCube(s)
    requires f in sys.PrimeAll(s) && !LitTrue(a, f)
    requires forall l :: l in s && sys.Prime(l) == f ==> l in c
    ensures !CubeTrue(sys.UnprimeState(a), c)
  {
    var i :| 0 <= i < |s| && sys.PrimeAll(s)[i] == f;
    assert s[i] in s && sys.Prime(s[i]) == f;
    sys.PrimedCubeMeaning(a, [s[i]]);
    assert sys.PrimeAll([s[i]])[0] == f;
    assert f in sys.PrimeAll([s[i]]);
    assert s[i] in c;
  }

  // ------------------------------------------------------------------
  // Initial states
  // ------------------------------------------------------------------

  predicate ClashesWith(initCube: Cube, ls: seq<Literal>) {
    exists l :: l in ls && Not(l) in initCube.literals
  }

  lemma SameClash(initCube: Cube, ls: seq<Literal>, ms: seq<Literal>)
    requires ClashesWith(initCube, ls) && forall l :: l in ls ==> l in ms
    ensures ClashesWith(initCube, ms)
  {
  }

  /** The syntactic test decides whether a consistent cube contains an initial state. */
  lemma InitTestIsExact(sys: TransitionSystem, ls: seq<Literal>)
    requires sys.WellFormed() && sys.IsStateCube(ls) && Consistent(ls)
    ensures ClashesWith(sys.InitCube(), ls) <==> MissesInit(sys, ls)
    ensures ClashesWith(sys.InitCube(), ls) <==> !MeetsInit(sys, ls)
  {
    var init := sys.InitCube().literals;
    if ClashesWith(sys.InitCube(), ls) {
      ClashMissesInit(sys, ls);
    } else {
      var both := ls + init;
      forall l | l in both
        ensures Not(l) !in both
      {
        assert Not(Not(l)) == l;
        assert [l][0] == l && [Not(l)][0] == Not(l);
      }
      forall l | l in both
        ensures sys.states.Contains(VarOf(l))
      {
        if l in init {
          assert [l] in sys.init && [l][0] == l;
        }
      }
      CubeOfState(sys, both);
      var s := TrueVars(both);
      assert CubeTrue(s, init) && CubeTrue(s, ls);
      sys.InitIsCubeMeaning(s);
    }
  }

  lemma ClashMissesInit(sys: TransitionSystem, ls: seq<Literal>)
    requires sys.WellFormed() && ClashesWith(sys.InitCube(), ls)
    ensures MissesInit(sys, ls)
  {
    var l :| l in ls && Not(l) in sys.InitCube().literals;
    forall s | sys.IsState(s) && sys.Init(s)
      ensures !CubeTrue(s, ls)
    {
      sys.InitIsCubeMeaning(s);
      assert LitTrue(s, Not(l));
      assert !LitTrue(s, l);
    }
  }

  /** Some state is initial. */
  lemma InitIsNotEmpty(sys: TransitionSystem) returns (s: State)
    requires sys.WellFormed()
    ensures sys.IsState(s) && sys.Init(s)
  {
    InitTestIsExact(sys, []);
    s :| sys.IsState(s) && sys.Init(s);
  }

  // ------------------------------------------------------------------
  // New entries of the pool
  // ------------------------------------------------------------------

  /** The cube of a full valuation contains one state. */
  lemma FullCube(sys: TransitionSystem, m: Assignment, c: Cube)
    requires sys.WellFormed() && c == MakeCube(ValuationOf(m, sys.states))
    ensures sys.IsStateCube(c.literals) && Consistent(c.literals)
    ensures forall p :: sys.IsState(p) ==> (CubeTrue(p, c.literals) <==> p == m * sys.states.Vars())
  {
    forall p | sys.IsState(p)
      ensures CubeTrue(p, c.literals) <==> p == m * sys.states.Vars()
    {
      ValuationMeaning(m, sys.states, p);
      assert p * sys.states.Vars() == p;
      assert CubeTrue(p, c.literals) <==> CubeTrue(p, ValuationOf(m, sys.states));
    }
  }

  lemma FullInput(sys: TransitionSystem, m: Assignment, c: Cube)
    requires sys.WellFormed() && c == MakeCube(ValuationOf(m, sys.inputs))
    ensures LitsOver(c.literals, sys.inputs.Vars())
    ensures TrueVars(c.literals) == m * sys.inputs.Vars()
    ensures sys.IsInput(m * sys.inputs.Vars())
    ensures CubeTrue(m * sys.inputs.Vars(), ValuationOf(m, sys.inputs))
  {
    var y := m * sys.inputs.Vars();
    ValuationMeaning(m, sys.inputs, y);
    assert y * sys.inputs.Vars() == m * sys.inputs.Vars();
    assert TrueVars(c.literals) == TrueVars(ValuationOf(m, sys.inputs));
  }

  lemma ErrorEntry(sys: TransitionSystem, pool: Pool, m: Assignment, e: Entry)
    requires sys.WellFormed()
    requires e == Entry(MakeCube(ValuationOf(m, sys.states)), MakeCube(ValuationOf(m, sys.inputs)), None)
    requires sys.Error(m * sys.states.Vars(), m * sys.inputs.Vars())
    ensures EntryOk(sys, pool + [e], |pool|)
  {
    FullCube(sys, m, e.state);
    FullInput(sys, m, e.input);
  }

  lemma PredecessorEntry(sys: TransitionSystem, pool: Pool, m: Assignment, core: seq<Literal>, n: nat, e: Entry)
    requires sys.WellFormed() && n < |pool|
    requires forall l :: l in core ==> l in ValuationOf(m, sys.states)
    requires e == Entry(MakeCube(core), MakeCube(ValuationOf(m, sys.inputs)), Some(n))
    requires sys.IsInput(m * sys.inputs.Vars())
    requires forall q :: sys.IsState(q) && CubeTrue(q, core) ==>
                           CubeTrue(sys.Succ(q, m * sys.inputs.Vars()), pool[n].state.literals)
    ensures EntryOk(sys, pool + [e], |pool|)
    ensures CubeTrue(m * sys.states.Vars(), e.state.literals)
  {
    FullInput(sys, m, e.input);
    forall q | CubeTrue(q, e.state.literals)
      ensures CubeTrue(q, core)
    {
    }
    assert (pool + [e])[n] == pool[n];
    assert (pool + [e])[|pool|] == e;
    forall l | l in e.state.literals
      ensures sys.states.Contains(VarOf(l)) && Not(l) !in e.state.literals && LitTrue(m * sys.states.Vars(), l)
    {
      assert l in ValuationOf(m, sys.states);
    }
  }

  lemma PooledCube(sys: TransitionSystem, act: Activators, frames: int, bound: int, pool: Pool, h: nat)
    requires Setup(sys, act, frames, bound) && PoolOk(sys, pool) && h < |pool|
    ensures sys.DisjointRanges()
    ensures sys.IsStateCube(pool[h].state.literals) && Consistent(pool[h].state.literals)
  {
    assert EntryOk(sys, pool, h);
  }

  lemma EmptyPoolOk(sys: TransitionSystem, act: Activators, frames: int, bound: int)
    requires Setup(sys, act, frames, bound)
    ensures PoolOk(sys, [])
  {
  }

  // ------------------------------------------------------------------
  // Counterexamples
  // ------------------------------------------------------------------

  /**
   * With the variables set that start at one, the counterexample's start is
   * initial, and its inputs still lead to an error.
   */
  ghost predicate RunsFromResets(sys: TransitionSystem, cex: Result)
    requires sys.WellFormed() && GenuineRun(sys, cex)
  {
    var s := StartOf(cex) + ResetOnes(sys);
    sys.IsState(s) && sys.Init(s) && sys.Violates(s, RunOf(cex))
  }

  /** What the counterexample promises. */
  ghost predicate GoodCounterexample(sys: TransitionSystem, cex: Result)
    requires sys.WellFormed()
  {
    && GenuineRun(sys, cex)
    && RunsFromResets(sys, cex)
    && sys.Unsafe()
    && (NoResetOnes(sys) ==> sys.Init(StartOf(cex)))
  }

  lemma LevelZeroIsCounterexample(sys: TransitionSystem, pool: Pool, h: nat, cex: Result)
    requires sys.WellFormed() && PoolOk(sys, pool) && h < |pool|
    requires MeetsInit(sys, pool[h].state.literals)
    requires ReadOff(sys, pool, h, cex)
    ensures GoodCounterexample(sys, cex)
  {
    assert EntryOk(sys, pool, h);
    var s := StartOf(cex) + ResetOnes(sys);
    ResetsGiveInitial(sys, pool[h].state.literals);
    ChainViolates(sys, pool, h, s);
    CompletionIsInitial(sys, pool[h].state.literals);
  }
}
