/** Bounded model checking (src/engine/bmc.hpp, src/engine/bmc.cpp). */
module Bmc {
  import opened Logic
  import opened TransitionSystems
  import opened Solvers
  import opened Chains
  import opened Unrolling

  // ------------------------------------------------------------------
  // What the solver holds
  // ------------------------------------------------------------------

  ghost predicate Shaped(sys: TransitionSystem, vs: Versions) {
    sys.DisjointRanges() && |vs.states| == |vs.inputs| == |vs.aux| > 0
  }

  /** The assignment is a run of some steps; it shows the errors whose activators are true. */
  ghost predicate Unrolls(
    a: Assignment, sys: TransitionSystem, vs: Versions, steps: nat, base: nat, activators: seq<Literal>)
    requires Shaped(sys, vs) && steps < |vs.states| && base + |activators| <= |vs.states|
  {
    && Models(a, sys.init)
    && (forall i :: 0 <= i < steps ==> TransHolds(sys, vs, i, a))
    && (forall j :: 0 <= j < |activators| && activators[j] in a ==> ErrorHolds(sys, vs, base + j, a))
  }

  /** The clauses say exactly that. */
  ghost predicate Unrolled(
    clauses: Cnf, sys: TransitionSystem, vs: Versions, steps: nat, base: nat, activators: seq<Literal>)
    requires Shaped(sys, vs) && steps < |vs.states| && base + |activators| <= |vs.states|
  {
    forall a :: Models(a, clauses) <==> Unrolls(a, sys, vs, steps, base, activators)
  }

  /** Each cached formula is the transition from its version to the next. */
  ghost predicate CacheOk(sys: TransitionSystem, vs: Versions, cache: seq<Cnf>)
    requires Shaped(sys, vs) && |cache| < |vs.states|
  {
    forall i, a :: 0 <= i < |cache| ==> (Models(a, cache[i]) <==> TransHolds(sys, vs, i, a))
  }

  /** Activators are distinct positive variables outside all versions. */
  ghost predicate ActivatorsOk(vs: Versions, activators: seq<Literal>, bound: int)
    requires |vs.states| == |vs.inputs| == |vs.aux|
  {
    && (forall j :: 0 <= j < |activators| ==> 0 < activators[j] < bound)
    && (forall j, k :: 0 <= j < k < |activators| ==> activators[j] != activators[k])
    && (forall i, j :: 0 <= i < |vs.states| && 0 <= j < |activators| ==> !Owns(vs, i, activators[j]))
  }

  ghost predicate SamePrefix(vs: Versions, vs': Versions) {
    && vs.states <= vs'.states && vs.inputs <= vs'.inputs && vs.aux <= vs'.aux
    && |vs'.states| == |vs'.inputs| == |vs'.aux|
  }

  lemma MoreVersions(
    clauses: Cnf, sys: TransitionSystem, vs: Versions, vs': Versions, steps: nat, base: nat, activators: seq<Literal>)
    requires Shaped(sys, vs) && steps < |vs.states| && base + |activators| <= |vs.states| && SamePrefix(vs, vs')
    requires Unrolled(clauses, sys, vs, steps, base, activators)
    ensures Unrolled(clauses, sys, vs', steps, base, activators)
  {
    forall a
      ensures Unrolls(a, sys, vs', steps, base, activators) <==> Unrolls(a, sys, vs, steps, base, activators)
    {
      forall i | 0 <= i < steps
        ensures TransHolds(sys, vs', i, a) <==> TransHolds(sys, vs, i, a)
      {
      }
      forall j {:trigger activators[j]} | 0 <= j < |activators|
        ensures ErrorHolds(sys, vs', base + j, a) <==> ErrorHolds(sys, vs, base + j, a)
      {
      }
    }
  }

  lemma CacheInMoreVersions(sys: TransitionSystem, vs: Versions, vs': Versions, cache: seq<Cnf>)
    requires Shaped(sys, vs) && |cache| < |vs.states| && SamePrefix(vs, vs') && CacheOk(sys, vs, cache)
    ensures CacheOk(sys, vs', cache)
  {
    forall i, a | 0 <= i < |cache|
      ensures TransHolds(sys, vs', i, a) <==> TransHolds(sys, vs, i, a)
    {
    }
  }

  lemma CacheOneMore(sys: TransitionSystem, vs: Versions, bound: int, cache: seq<Cnf>)
    requires sys.WellFormed() && Apart(sys, vs, bound) && |cache| + 1 < |vs.states| && CacheOk(sys, vs, cache)
    ensures StepRenaming(vs, |cache|).Fits(sys)
    ensures CacheOk(sys, vs, cache + [StepRenaming(vs, |cache|).Map(sys, sys.trans)])
  {
    hide TransitionSystem.WellFormed, Apart, Renaming.Map, TransHolds, Models, Renaming.Fits;
    Lengths(sys, vs, bound);
    VersionFits(sys, vs, bound, |cache|);
    var f := StepRenaming(vs, |cache|).Map(sys, sys.trans);
    forall a
      ensures Models(a, f) <==> TransHolds(sys, vs, |cache|, a)
    {
      MappedTrans(sys, vs, bound, |cache|, a);
    }
  }

  /** Asserting a transition, once more or for the first time. */
  lemma AfterTrans(
    clauses: Cnf, sys: TransitionSystem, vs: Versions, cache: seq<Cnf>, steps: nat, base: nat,
    activators: seq<Literal>, i: nat)
    requires Shaped(sys, vs) && |cache| < |vs.states| && CacheOk(sys, vs, cache)
    requires steps < |vs.states| && base + |activators| <= |vs.states|
    requires Unrolled(clauses, sys, vs, steps, base, activators)
    requires i < |cache| && i <= steps
    ensures Unrolled(clauses + cache[i], sys, vs, if i == steps then steps + 1 else steps, base, activators)
  {
    forall a: Assignment
      ensures Models(a, clauses + cache[i]) <==>
              Unrolls(a, sys, vs, if i == steps then steps + 1 else steps, base, activators)
    {
      ModelsConcat(a, clauses, cache[i]);
      assert Models(a, cache[i]) <==> TransHolds(sys, vs, i, a);
    }
  }

  /** Asserting the next error formula under a new activator. */
  lemma AfterError(
    clauses: Cnf, sys: TransitionSystem, vs: Versions, bound: int, steps: nat, base: nat,
    activators: seq<Literal>, v: int)
    requires sys.WellFormed() && Apart(sys, vs, bound) && v > 0
    requires steps < |vs.states| && base + |activators| < |vs.states|
    requires Unrolled(clauses, sys, vs, steps, base, activators)
    ensures StepRenaming(vs, base + |activators|).Fits(sys) && CnfOver(sys.error, sys.Vars())
    ensures Unrolled(
              clauses + Activate(StepRenaming(vs, base + |activators|).Map(sys, sys.error), v),
              sys, vs, steps, base, activators + [v])
  {
    hide TransitionSystem.WellFormed, Apart, Renaming.Map, ErrorHolds, Models, Unrolls, Renaming.Fits;
    var n := base + |activators|;
    Lengths(sys, vs, bound);
    VersionFits(sys, vs, bound, n);
    ErrorIsOverAll(sys);
    var f := StepRenaming(vs, n).Map(sys, sys.error);
    var activators' := activators + [v];
    forall a: Assignment
      ensures Models(a, clauses + Activate(f, v)) <==> Unrolls(a, sys, vs, steps, base, activators')
    {
      ModelsConcat(a, clauses, Activate(f, v));
      ActivatedHolds(a, f, v);
      MappedError(sys, vs, bound, n, a);
      OneMoreError(a, sys, vs, steps, base, activators, v);
    }
  }

  lemma OneMoreError(
    a: Assignment, sys: TransitionSystem, vs: Versions, steps: nat, base: nat, activators: seq<Literal>, v: int)
    requires Shaped(sys, vs) && steps < |vs.states| && base + |activators| < |vs.states| && v > 0
    ensures Unrolls(a, sys, vs, steps, base, activators + [v]) <==>
            Unrolls(a, sys, vs, steps, base, activators)
            && (v in a ==> ErrorHolds(sys, vs, base + |activators|, a))
  {
    var activators' := activators + [v];
    assert forall j :: 0 <= j < |activators| ==> activators'[j] == activators[j];
    assert activators'[|activators|] == v;
  }

  // ------------------------------------------------------------------
  // What an answer means
  // ------------------------------------------------------------------

  /** All activators but the last are assumed false, the last one true. */
  ghost predicate OnlyLast(assumed: set<Literal>, activators: seq<Literal>) {
    && |activators| > 0
    && activators[|activators| - 1] in assumed
    && (forall l :: l in assumed ==>
          l == activators[|activators| - 1] || exists j :: 0 <= j < |activators| - 1 && l == Not(activators[j]))
  }

  lemma ModelIsRun(
    clauses: Cnf, sys: TransitionSystem, vs: Versions, bound: int, base: nat, activators: seq<Literal>,
    assumed: set<Literal>, a: Assignment, step: nat)
    requires sys.WellFormed() && Apart(sys, vs, bound)
    requires step < |vs.states| && base + |activators| == step + 1
    requires Unrolled(clauses, sys, vs, step, base, activators)
    requires ActivatorsOk(vs, activators, bound) && OnlyLast(assumed, activators)
    requires Answers(a, clauses, assumed, [])
    ensures Shaped(sys, vs)
    ensures sys.Init(StateAt(sys, vs, 0, a))
    ensures sys.Violates(StateAt(sys, vs, 0, a), InputsBetween(sys, vs, 0, step, a))
  {
    hide Apart, TransitionSystem.Violates, TransHolds, ErrorHolds, TransitionSystem.Init;
    Lengths(sys, vs, bound);
    assert LitTrue(a, activators[|activators| - 1]);
    assert Unrolls(a, sys, vs, step, base, activators);
    LastErrorHolds(a, sys, vs, step, base, activators);
    ModelViolates(sys, vs, bound, 0, step, a);
    sys.InitMeaning(a);
    FirstState(sys, vs, bound, a);
  }

  lemma LastErrorHolds(
    a: Assignment, sys: TransitionSystem, vs: Versions, steps: nat, base: nat, activators: seq<Literal>)
    requires Shaped(sys, vs) && steps < |vs.states| && base + |activators| <= |vs.states| && |activators| > 0
    requires Unrolls(a, sys, vs, steps, base, activators) && activators[|activators| - 1] in a
    ensures ErrorHolds(sys, vs, base + (|activators| - 1), a)
  {
    hide TransHolds, ErrorHolds;
  }

  lemma FirstState(sys: TransitionSystem, vs: Versions, bound: int, a: Assignment)
    requires sys.WellFormed() && Apart(sys, vs, bound)
    ensures Shaped(sys, vs) && StateAt(sys, vs, 0, a) == a * sys.states.Vars()
  {
  }

  /** Without the activators in question a run is still a model of the rest. */
  lemma RunAnswers(
    clauses: Cnf, sys: TransitionSystem, vs: Versions, bound: int, base: nat, activators: seq<Literal>,
    assumed: set<Literal>, step: nat, s: State, ys: seq<Input>) returns (a: Assignment)
    requires sys.WellFormed() && Apart(sys, vs, bound)
    requires step < |vs.states| && base + |activators| == step + 1
    requires Unrolled(clauses, sys, vs, step, base, activators)
    requires ActivatorsOk(vs, activators, bound) && OnlyLast(assumed, activators)
    requires sys.IsState(s) && sys.AreInputs(ys) && sys.Init(s) && |ys| == step + 1 && sys.Violates(s, ys)
    ensures Answers(a, clauses, assumed, [])
  {
    hide TransHolds, ErrorHolds, TransitionSystem.Violates, TransitionSystem.Functional, TransitionSystem.Init;
    var b := RunIsModel(sys, vs, bound, 0, step, s, ys);
    var last: Literal := activators[|activators| - 1];
    a := b + {last};
    forall j | 0 <= j < |activators|
      ensures activators[j] in a <==> j == |activators| - 1
    {
      NotOwned(vs, step, b, activators[j]);
    }
    AddedActivator(sys, vs, bound, b, last, step);
    sys.InitMeaning(a);
    FirstState(sys, vs, bound, a);
    assert sys.Init(s) && Models(a, sys.init);
    assert Unrolls(a, sys, vs, step, base, activators);
    OnlyLastTrue(a, activators, assumed);
  }

  lemma OnlyLastTrue(a: Assignment, activators: seq<Literal>, assumed: set<Literal>)
    requires OnlyLast(assumed, activators) && activators != []
    requires forall j :: 0 <= j < |activators| ==>
               activators[j] > 0 && (activators[j] in a <==> j == |activators| - 1)
    ensures AllTrue(a, assumed)
  {
    forall l | l in assumed
      ensures LitTrue(a, l)
    {
      if l != activators[|activators| - 1] {
        var j :| 0 <= j < |activators| - 1 && l == Not(activators[j]);
        assert VarOf(l) == activators[j];
      }
    }
  }

  lemma NotOwned(vs: Versions, step: nat, b: Assignment, v: int)
    requires step < |vs.states| == |vs.inputs| == |vs.aux| && OnlyBetween(vs, 0, step, b)
    requires forall i :: 0 <= i < |vs.states| ==> !Owns(vs, i, v)
    ensures v !in b
  {
  }

  /** A variable outside all versions can be set freely. */
  lemma AddedActivator(sys: TransitionSystem, vs: Versions, bound: int, b: Assignment, v: int, step: nat)
    requires sys.WellFormed() && Apart(sys, vs, bound) && step < |vs.states|
    requires forall i :: 0 <= i < |vs.states| ==> !Owns(vs, i, v)
    ensures Shaped(sys, vs)
    ensures forall i :: 0 <= i <= step ==> StateAt(sys, vs, i, b + {v}) == StateAt(sys, vs, i, b)
    ensures forall i :: 0 <= i < step ==> (TransHolds(sys, vs, i, b + {v}) <==> TransHolds(sys, vs, i, b))
    ensures ErrorHolds(sys, vs, step, b + {v}) <==> ErrorHolds(sys, vs, step, b)
  {
    forall i | 0 <= i <= step
      ensures StateAt(sys, vs, i, b + {v}) == StateAt(sys, vs, i, b)
      ensures InputAt(sys, vs, i, b + {v}) == InputAt(sys, vs, i, b)
      ensures AuxAt(sys, vs, i, b + {v}) == AuxAt(sys, vs, i, b)
    {
      SameVersionSameParts(sys, vs, i, b + {v}, b);
    }
  }

  /** A negative answer rules out every run of this length. */
  lemma NoAnswerNoRun(
    clauses: Cnf, sys: TransitionSystem, vs: Versions, bound: int, base: nat, activators: seq<Literal>,
    assumed: set<Literal>, core: set<Literal>, step: nat)
    requires sys.WellFormed() && Apart(sys, vs, bound)
    requires step < |vs.states| && base + |activators| == step + 1
    requires Unrolled(clauses, sys, vs, step, base, activators)
    requires ActivatorsOk(vs, activators, bound) && OnlyLast(assumed, activators)
    requires core <= assumed && forall a :: !Answers(a, clauses, core, [])
    ensures !sys.UnsafeIn(step + 1)
  {
    if sys.UnsafeIn(step + 1) {
      var s, ys :|
        sys.IsState(s) && sys.AreInputs(ys) && sys.Init(s) && |ys| == step + 1 && sys.Violates(s, ys);
      var a := RunAnswers(clauses, sys, vs, bound, base, activators, assumed, step, s, ys);
      assert AllTrue(a, assumed);
      assert Answers(a, clauses, core, []);
    }
  }

  // ------------------------------------------------------------------
  // Violating runs by length
  // ------------------------------------------------------------------

  /** No violating run has at most this many inputs. */
  ghost predicate NoRunUpTo(sys: TransitionSystem, length: int)
    requires sys.WellFormed()
  {
    forall n: nat :: n <= length ==> !sys.UnsafeIn(n)
  }

  /** A counterexample that starts in an initial state, and no shorter one exists. */
  ghost predicate ShortestCounterexample(sys: TransitionSystem, cex: Result)
    requires sys.WellFormed()
  {
    && GenuineRun(sys, cex) && sys.Init(StartOf(cex))
    && |cex.inputs| > 0 && NoRunUpTo(sys, |cex.inputs| - 1)
  }

  class BmcEngine {
    const SOLVER_REFRESH_RATE := 100
    const store: VariableStore
    const solver: Solver
    var system: TransitionSystem
    var versions: Versions
    // the transition formulas made so far, one a step
    var cache: seq<Cnf>
    // the activators of the error formulas in the solver, the first of them for step `base`
    var activators: seq<Literal>
    ghost var base: nat
    // for every error formula made so far, whether its step was the number of activators
    ghost var asserted: seq<bool>

    constructor (store: VariableStore)
      ensures this.store == store && fresh(solver) && solver.clauses == []
      ensures versions == Versions([], [], []) && cache == [] && activators == [] && asserted == []
    {
      this.store := store;
      solver := new Solver();
      versions := Versions([], [], []);
      cache, activators, base, asserted := [], [], 0, [];
      system := TransitionSystem(
        VariableRange(1, 1), VariableRange(1, 1), VariableRange(1, 1), VariableRange(1, 1), [], [], []);
    }

    ghost predicate Valid()
      reads this`system, this`versions, this`cache, this`activators, this`base, store
    {
      && system.WellFormed()
      && Apart(system, versions, store.size) && store.size > 0
      && |cache| + 1 == |versions.states| && CacheOk(system, versions, cache)
      && ActivatorsOk(versions, activators, store.size)
      && base + |activators| <= |versions.states|
    }

    /** The solver holds the runs of the given number of steps. */
    ghost predicate Loaded(steps: nat)
      requires Valid() && steps < |versions.states|
      reads this`system, this`versions, this`cache, this`activators, this`base, store, solver
    {
      Unrolled(solver.clauses, system, versions, steps, base, activators)
    }

    method SetupVersioning()
      requires system.WellFormed() && store.size > 0 && (forall v :: v in system.Vars() ==> v < store.size)
      requires versions == Versions([], [], []) && cache == [] && activators == []
      modifies this`versions, this`base
      ensures Valid() && |versions.states| == 1 && base == 0
    {
      FirstVersion(system, store.size);
      versions := Versions([system.states], [system.inputs], [system.aux]);
      base := 0;
    }

    /** Hands out one more version of all variables. */
    method AddVersion()
      requires Apart(system, versions, store.size) && store.size > 0
      requires ActivatorsOk(versions, activators, store.size)
      requires forall j :: 0 <= j < |activators| ==> activators[j] < store.size
      modifies this`versions, store
      ensures Apart(system, versions, store.size) && store.size > 0
      ensures ActivatorsOk(versions, activators, store.size)
      ensures SamePrefix(old(versions), versions) && |versions.states| == |old(versions.states)| + 1
    {
      assert VersionOk(system, versions.states[0], versions.inputs[0], versions.aux[0]);
      ghost var bound, vs := store.size, versions;
      var s := store.MakeRange(system.states.Size());
      var y := store.MakeRange(system.inputs.Size());
      var w := store.MakeRange(system.aux.Size());
      NextVersion(system, versions, bound, s, y, w, store.size);
      versions := Versions(versions.states + [s], versions.inputs + [y], versions.aux + [w]);
      ActivatorsStayApart(vs, versions, bound, store.size);
    }

    lemma ActivatorsStayApart(vs: Versions, vs': Versions, bound: int, bound': int)
      requires |vs.states| == |vs.inputs| == |vs.aux| && ActivatorsOk(vs, activators, bound) && bound <= bound'
      requires SamePrefix(vs, vs') && |vs'.states| == |vs.states| + 1
      requires forall v :: Owns(vs', |vs.states|, v) ==> bound <= v
      ensures ActivatorsOk(vs', activators, bound')
    {
      forall i, j | 0 <= i < |vs'.states| && 0 <= j < |activators|
        ensures !Owns(vs', i, activators[j])
      {
        if i < |vs.states| {
          assert Owns(vs', i, activators[j]) <==> Owns(vs, i, activators[j]);
        }
      }
    }

    /** The formula of a step, made at its first use; steps are first used in order. */
    method MakeTrans(step: nat, ghost steps: nat) returns (f: Cnf)
      requires Valid() && step <= |cache| && steps < |versions.states| && Loaded(steps)
      modifies this`versions, this`cache, store
      ensures Valid() && step < |cache| && f == cache[step]
      ensures |cache| >= |old(cache)| && |versions.states| >= |old(versions.states)|
      ensures |cache| == if step == |old(cache)| then step + 1 else |old(cache)|
      ensures Loaded(steps)
    {
      if step < |cache| {
        return cache[step];
      }
      ghost var vs := versions;
      AddVersion();
      MoreVersions(solver.clauses, system, vs, versions, steps, base, activators);
      CacheInMoreVersions(system, vs, versions, cache);
      CacheOneMore(system, versions, store.size, cache);
      f := StepRenaming(versions, step).Map(system, system.trans);
      cache := cache + [f];
    }

    /** The error formula of a step under a new activator. */
    method MakeError(step: nat, ghost steps: nat) returns (f: Cnf)
      requires Valid() && step < |versions.states| && step == base + |activators|
      requires steps < |versions.states| && Loaded(steps)
      modifies this`activators, this`asserted, store
      ensures Valid() && |activators| == |old(activators)| + 1
      ensures asserted == old(asserted) + [step == |old(activators)|]
      ensures Unrolled(solver.clauses + f, system, versions, steps, base, activators)
    {
      hide TransitionSystem.WellFormed, CacheOk, Unrolled;
      asserted := asserted + [step == |activators|];
      var activator := store.Make();
      AfterError(solver.clauses, system, versions, old(store.size), steps, base, activators, activator);
      NewActivator(versions, activators, old(store.size));
      HigherBound(system, versions, old(store.size), store.size);
      activators := activators + [activator];
      f := Activate(StepRenaming(versions, step).Map(system, system.error), activator);
    }

    /** Starts over with the initial formula and the steps up to the bound; no error formula is kept. */
    method RefreshSolver(bound: nat)
      requires Valid()
      modifies this`versions, this`cache, this`activators, this`base, store, solver
      ensures Valid() && bound <= |cache| && Loaded(bound) && base == bound && activators == []
      ensures |cache| >= |old(cache)|
    {
      hide CacheOk, Unrolls, Unrolled, ActivatorsOk;
      solver.Reset();
      activators := [];
      base := 0;
      NoActivators(versions, store.size);
      solver.AssertFormula(system.init);
      InitUnrolled(system, versions, solver.clauses);
      AssertSteps(bound);
      Rebased(solver.clauses, system, versions, bound, bound);
      base := bound;
    }

    method AssertSteps(bound: nat)
      requires Valid() && Loaded(0)
      modifies this`versions, this`cache, store, solver
      ensures Valid() && bound <= |cache| && Loaded(bound) && |cache| >= |old(cache)|
    {
      hide CacheOk, Unrolls, Unrolled, ActivatorsOk, Apart;
      for i := 0 to bound
        invariant Valid() && i <= |cache| && |cache| >= |old(cache)|
        invariant Loaded(i)
      {
        var f := MakeTrans(i, i);
        ValidIsShaped();
        AfterTrans(solver.clauses, system, versions, cache, i, base, activators, i);
        solver.AssertFormula(f);
      }
    }

    /** Assumes all activators but the last one false and the last one true. */
    method ErrorQuery() returns (q: Query)
      requires Valid() && |activators| > 0
      modifies solver`status
      ensures OnlyLast(q.assumed, activators) && q.constraint == []
    {
      q := solver.NewQuery();
      for j := 0 to |activators| - 1
        modifies {}
        invariant q.constraint == []
        invariant forall l :: l in q.assumed ==> exists k :: 0 <= k < |activators| - 1 && l == Not(activators[k])
      {
        q := q.Assume([Not(activators[j])]);
      }
      q := q.Assume([activators[|activators| - 1]]);
    }

    /** Decides whether a violating run takes exactly this many steps. */
    method CheckFor(step: nat, ghost steps: nat) returns (r: Option<Result>)
      requires Valid() && steps < |versions.states| && Loaded(steps)
      requires steps <= step <= steps + 1 && step == base + |activators|
      modifies this`versions, this`cache, this`activators, this`asserted, store, solver
      ensures Valid() && step < |versions.states| && Loaded(step)
      ensures step + 1 == base + |activators|
      ensures asserted == old(asserted) + [step == |old(activators)|]
      ensures r.None? ==> !system.UnsafeIn(step + 1)
      ensures r.Some? ==>
                && GenuineRun(system, r.value) && system.Init(StartOf(r.value))
                && |r.value.inputs| == step + 1
    {
      hide TransitionSystem.WellFormed, CacheOk, Unrolls, Apart, ActivatorsOk, OnlyLast, Answers;
      AssertLastTrans(step, steps);
      var f := MakeError(step, step);
      solver.AssertFormula(f);
      var q := ErrorQuery();
      var sat := solver.IsSat(q);
      if sat {
        ModelIsRun(
          solver.clauses, system, versions, store.size, base, activators, q.assumed, solver.status.model, step);
        var cex := BuildCounterexample(step);
        return Some(cex);
      }
      NoAnswerNoRun(
        solver.clauses, system, versions, store.size, base, activators, q.assumed, solver.status.core, step);
      return None;
    }

    /** Asserts the step before the given one; right after a refresh this repeats what is there. */
    method AssertLastTrans(step: nat, ghost steps: nat)
      requires Valid() && steps < |versions.states| && Loaded(steps)
      requires steps <= step <= steps + 1 && step == base + |activators|
      modifies this`versions, this`cache, store, solver
      ensures Valid() && step < |versions.states| && Loaded(step)
    {
      hide TransitionSystem.WellFormed, CacheOk, Unrolls, Apart, ActivatorsOk;
      if step > 0 {
        var f := MakeTrans(step - 1, steps);
        ValidIsShaped();
        AfterTrans(solver.clauses, system, versions, cache, steps, base, activators, step - 1);
        solver.AssertFormula(f);
      }
    }

    lemma ValidIsShaped()
      requires Valid()
      ensures Shaped(system, versions)
    {
    }

    /** Reads the start state off version 0 and the inputs off all versions. */
    method BuildCounterexample(step: nat) returns (cex: Result)
      requires Valid() && step < |versions.states| && solver.status.Satisfied?
      requires var a := solver.status.model;
               system.Violates(StateAt(system, versions, 0, a), InputsBetween(system, versions, 0, step, a))
      ensures cex.Counterexample? && |cex.inputs| == step + 1
      ensures StartOf(cex) == StateAt(system, versions, 0, solver.status.model)
      ensures GenuineRun(system, cex)
    {
      hide CacheOk, ActivatorsOk, Pull, TransitionSystem.Functional, TransitionSystem.InitIsCube,
        TransitionSystem.Violates;
      ghost var a := solver.status.model;
      var initialState := ReadRange(system.states, versions.states[0]);
      var inputs := [];
      for i := 0 to step + 1
        modifies {}
        invariant |inputs| == i
        invariant forall k :: 0 <= k < i ==> TrueVars(inputs[k]) == InputAt(system, versions, k, a)
        invariant RowsOver(system.inputs, inputs)
      {
        assert VersionOk(system, versions.states[i], versions.inputs[i], versions.aux[i]);
        var row := ReadRange(system.inputs, versions.inputs[i]);
        inputs := inputs + [row];
      }
      cex := Counterexample(initialState, inputs);
      assert RunOf(cex) == InputsBetween(system, versions, 0, step, a);
    }

    /** The original variables with the signs of their copies. */
    method ReadRange(original: VariableRange, copy: VariableRange) returns (row: seq<Literal>)
      requires solver.status.Satisfied? && original.Valid() && copy.Valid() && original.Size() == copy.Size()
      ensures RowOver(original, row)
      ensures TrueVars(row) == Pull(original, copy, solver.status.model)
    {
      row := [];
      for i := 0 to original.Size()
        invariant |row| == i
        invariant forall k :: 0 <= k < i ==>
                    && VarOf(row[k]) == original.Nth(k)
                    && (row[k] > 0 <==> copy.Nth(k) in solver.status.model)
      {
        row := row + [Substitute(if solver.IsTrueInModel(copy.Nth(i)) then 1 else -1, original.Nth(i))];
      }
      forall v
        ensures v in TrueVars(row) <==> v in Pull(original, copy, solver.status.model)
      {
        if original.Contains(v) {
          assert VarOf(row[original.Offset(v)]) == v;
        }
        if v in row && v > 0 {
          var k :| 0 <= k < |row| && row[k] == v;
          assert VarOf(row[k]) == v;
        }
      }
    }

    /** The first i steps have been checked; activators are counted from the last refresh. */
    ghost predicate Checked(i: nat)
      reads this, store, solver
    {
      && Valid()
      && (i > 0 ==>
            && i == base + |activators| && i - 1 < |versions.states| && Loaded(i - 1)
            && |activators| == (i - 1) % SOLVER_REFRESH_RATE + 1)
    }

    /** Checks one step, after a refresh if it is due. */
    method CheckNext(i: nat) returns (r: Option<Result>)
      requires Checked(i)
      modifies this`versions, this`cache, this`activators, this`base, this`asserted, store, solver
      ensures Checked(i + 1)
      ensures asserted == old(asserted) + [i < SOLVER_REFRESH_RATE]
      ensures r.None? ==> !system.UnsafeIn(i + 1)
      ensures r.Some? ==>
                && r.value.Counterexample? && GenuineRun(system, r.value) && system.Init(StartOf(r.value))
                && |r.value.inputs| == i + 1
    {
      hide TransitionSystem.WellFormed, CacheOk, Unrolls, Unrolled, Apart, ActivatorsOk, TransitionSystem.UnsafeIn;
      ghost var steps := i - 1;
      if i % SOLVER_REFRESH_RATE == 0 {
        RefreshSolver(i);
        steps := i;
      }
      CountOnward(i);
      r := CheckFor(i, steps);
    }

    /**
     * Looks for a violating run of 0, 1, 2, ... steps up to the bound: it finds
     * a shortest one, if there is one within the bound. The number of the step
     * is the number of activators before the first refresh only.
     */
    method Run(sys: TransitionSystem, bound: int) returns (r: Result)
      requires sys.WellFormed() && store.size > 0 && (forall v :: v in sys.Vars() ==> v < store.size)
      requires versions == Versions([], [], []) && cache == [] && activators == [] && asserted == []
      modifies this, store, solver
      ensures r.Counterexample? || r.Unknown?
      ensures r.Counterexample? ==> ShortestCounterexample(sys, r) && |r.inputs| <= bound + 1
      ensures r.Unknown? ==> NoRunUpTo(sys, bound + 1)
      ensures |asserted| == if r.Counterexample? then |r.inputs| else if bound < 0 then 0 else bound + 1
      ensures forall i :: 0 <= i < |asserted| ==> (asserted[i] <==> i < SOLVER_REFRESH_RATE)
      ensures asserted != [] ==> |activators| == (|asserted| - 1) % SOLVER_REFRESH_RATE + 1
    {
      hide CacheOk, Unrolls, Unrolled, Apart, ActivatorsOk, GenuineRun, TransitionSystem.UnsafeIn;
      system := sys;
      SetupVersioning();
      NoEmptyRun(sys);
      assert Checked(0);
      hide BmcEngine.Checked, TransitionSystem.WellFormed;
      var i := 0;
      while i <= bound
        invariant 0 <= i && (bound >= 0 ==> i <= bound + 1) && (bound < 0 ==> i == 0)
        invariant system == sys && Checked(i)
        invariant |asserted| == i
        invariant forall k :: 0 <= k < i ==> (asserted[k] <==> k < SOLVER_REFRESH_RATE)
        invariant NoRunUpTo(sys, i)
        decreases bound - i
      {
        var found := CheckNext(i);
        if found.Some? {
          return found.value;
        }
        i := i + 1;
      }
      return Unknown;
    }
  }

  /** A system without variables that never shows an error. */
  function NeverError(): TransitionSystem {
    var none := VariableRange(1, 1);
    TransitionSystem(none, none, none, none, [], [], [[]])
  }

  lemma NeverErrorIsSafe()
    ensures NeverError().WellFormed() && NeverError().Vars() == {}
    ensures forall n :: !NeverError().UnsafeIn(n)
  {
    var sys := NeverError();
    assert sys.InitIsCube() && CnfOver(sys.trans, sys.Vars());
    assert sys.states.Vars() == sys.inputs.Vars() == sys.nexts.Vars() == sys.aux.Vars() == {};
    forall s, y | sys.IsState(s) && sys.IsInput(y)
      ensures sys.HasSuccessor(s, y) && !sys.Error(s, y)
    {
      assert sys.IsAux({}) && Models(sys.Join(s, y, {}, {}), sys.trans);
      assert sys.IsState({}) && sys.Step(s, y, {});
      assert [] in sys.error;
    }
    forall t | sys.IsState(t)
      ensures t == {}
    {
      assert forall v :: v !in t;
    }
    forall s, ys | sys.IsState(s) && sys.AreInputs(ys)
      ensures !sys.Violates(s, ys)
    {
      NeverViolates(s, ys);
    }
  }

  lemma {:induction false} NeverViolates(s: State, ys: seq<Input>)
    requires var sys := NeverError(); sys.WellFormed() && sys.IsState(s) && sys.AreInputs(ys)
    ensures !NeverError().Violates(s, ys)
    decreases |ys|
  {
    var sys := NeverError();
    assert [] in sys.error;
    if |ys| > 1 {
      NeverViolates(sys.Succ(s, ys[0]), ys[1..]);
    }
  }

  lemma CounterexampleLength(sys: TransitionSystem, cex: Result)
    requires sys.WellFormed() && GenuineRun(sys, cex) && sys.Init(StartOf(cex))
    ensures sys.UnsafeIn(|cex.inputs|)
  {
  }

  /** At step 100 the number of the step is not the number of activators. */
  method RunPastRefresh() returns (r: Result, engine: BmcEngine)
    ensures r.Unknown? && |engine.asserted| == 101
    ensures (forall i :: 0 <= i < 100 ==> engine.asserted[i]) && !engine.asserted[100]
  {
    NeverErrorIsSafe();
    hide TransitionSystem.WellFormed;
    var store := new VariableStore();
    engine := new BmcEngine(store);
    r := engine.Run(NeverError(), 100);
    if r.Counterexample? {
      CounterexampleLength(NeverError(), r);
    }
  }

  lemma CountOnward(i: nat)
    ensures i > 0 && i % 100 != 0 ==> (i - 1) % 100 + 1 == i % 100
    ensures i % 100 == i <==> i < 100
  {
  }

  lemma NoEmptyRun(sys: TransitionSystem)
    requires sys.WellFormed()
    ensures NoRunUpTo(sys, 0)
  {
  }

  lemma NoActivators(vs: Versions, bound: int)
    requires |vs.states| == |vs.inputs| == |vs.aux|
    ensures ActivatorsOk(vs, [], bound)
  {
  }

  lemma NewActivator(vs: Versions, activators: seq<Literal>, bound: int)
    requires |vs.states| == |vs.inputs| == |vs.aux| && ActivatorsOk(vs, activators, bound) && bound > 0
    requires forall i, v :: 0 <= i < |vs.states| && Owns(vs, i, v) ==> v < bound
    ensures ActivatorsOk(vs, activators + [bound], bound + 1)
  {
  }

  lemma HigherBound(sys: TransitionSystem, vs: Versions, bound: int, bound': int)
    requires Apart(sys, vs, bound) && bound <= bound'
    ensures Apart(sys, vs, bound')
  {
  }

  lemma InitUnrolled(sys: TransitionSystem, vs: Versions, clauses: Cnf)
    requires Shaped(sys, vs) && clauses == [] + sys.init
    ensures Unrolled(clauses, sys, vs, 0, 0, [])
  {
    assert clauses == sys.init;
  }

  /** Without activators the step of the first one does not matter. */
  lemma Rebased(clauses: Cnf, sys: TransitionSystem, vs: Versions, steps: nat, base: nat)
    requires Shaped(sys, vs) && steps < |vs.states| && base <= |vs.states|
    requires Unrolled(clauses, sys, vs, steps, 0, [])
    ensures Unrolled(clauses, sys, vs, steps, base, [])
  {
    forall a
      ensures Unrolls(a, sys, vs, steps, base, []) <==> Unrolls(a, sys, vs, steps, 0, [])
    {
    }
  }
}