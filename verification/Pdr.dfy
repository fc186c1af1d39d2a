/**
 * Property directed reachability (src/engine/pdr.hpp, src/engine/pdr.cpp).
 */
module Pdr {
  import opened Logic
  import opened TransitionSystems
  import opened Solvers
  import opened Frames
  import opened FrameInvariants
  import opened Chains
  import opened Queries
  import opened PdrQueries
  import opened PdrObligations

  /** The pool of counterexamples to induction; flushed entries are reused. */
  class CtiPool {
    var entries: seq<Entry>
    var numEntries: nat

    ghost predicate Valid()
      reads this
    {
      numEntries <= |entries|
    }

    ghost function View(): Pool
      requires Valid()
      reads this
    {
      entries[..numEntries]
    }

    constructor ()
      ensures Valid() && View() == []
    {
      entries, numEntries := [], 0;
    }

    method Make(state: Cube, input: Cube, successor: Option<nat>) returns (h: nat)
      requires Valid()
      modifies this
      ensures Valid() && View() == old(View()) + [Entry(state, input, successor)]
      ensures h == |old(View())|
    {
      if numEntries >= |entries| {
        entries := entries + [Entry(state, input, successor)];
      } else {
        entries := entries[numEntries := Entry(state, input, successor)];
      }
      h := numEntries;
      numEntries := numEntries + 1;
    }

    method Get(h: nat) returns (e: Entry)
      requires Valid() && h < |View()|
      ensures e == View()[h]
    {
      e := entries[h];
    }

    method Flush()
      requires Valid()
      modifies this
      ensures Valid() && View() == []
    {
      numEntries := 0;
    }
  }

  class PdrEngine {
    const solver: Solver
    const store: VariableStore
    const ctis: CtiPool
    const transitionActivator: Literal
    const errorActivator: Literal
    var system: TransitionSystem
    var activatedInit: Cnf
    var activatedTrans: Cnf
    var activatedError: Cnf
    var initCube: Cube
    var trace: Trace
    var traceActivators: seq<Literal>
    var queries: int

    const SOLVER_REFRESH_RATE := 5000000

    function Act(): Activators
      reads this`traceActivators
    {
      Activators(traceActivators, transitionActivator, errorActivator)
    }

    function Depth(): int
      reads this`trace
    {
      |trace| - 1
    }

    /** The parts that stay as they are between two frames. */
    ghost predicate Configured()
      reads this`system, this`trace, this`traceActivators, store
      reads this`activatedInit, this`activatedTrans, this`activatedError, this`initCube
    {
      && system.WellFormed()
      && Setup(system, Act(), |trace|, store.size)
      && |trace| == |traceActivators| > 0 && store.size > 0
      && FormulasMatch(system, Act(), activatedInit, activatedTrans, activatedError)
      && initCube == system.InitCube()
    }

    ghost predicate InSync()
      reads this`system, this`trace, this`traceActivators, solver
    {
      Synced(solver.clauses, system, Act(), trace, true)
    }

    ghost predicate Valid()
      reads this, solver, store, ctis
    {
      && Configured()
      && FrameInvariant(system, trace, true)
      && ctis.Valid() && PoolOk(system, ctis.View())
      && 0 <= queries && (queries > 0 ==> InSync())
    }

    ghost function Size(): nat
      reads this`system, this`trace
    {
      SizeFrom(system, trace, true, 1)
    }

    constructor (store: VariableStore)
      requires store.size > 0
      modifies store
      ensures this.store == store && fresh(solver) && fresh(ctis)
      ensures transitionActivator == old(store.size) && errorActivator == old(store.size) + 1
      ensures store.size == old(store.size) + 2
      ensures trace == [] && traceActivators == [] && queries == 0
      ensures ctis.Valid() && ctis.View() == []
    {
      this.store := store;
      var t := store.Make();
      var e := store.Make();
      transitionActivator, errorActivator := t, e;
      solver := new Solver();
      ctis := new CtiPool();
      trace, traceActivators, queries := [], [], 0;
      activatedInit, activatedTrans, activatedError, initCube := [], [], [], Cube([]);
      system := TransitionSystem(
        VariableRange(1, 1), VariableRange(1, 1), VariableRange(1, 1), VariableRange(1, 1), [], [], []);
    }

    // ----------------------------------------------------------------
    // The solver
    // ----------------------------------------------------------------

    method RefreshSolver()
      requires Configured()
      modifies this`queries, solver
      ensures queries == 0 && InSync()
    {
      assert forall k :: 0 <= k < |traceActivators| ==> traceActivators[k] in Act().frames;
      LoadSolver(solver, system, Act(), trace, activatedInit, activatedTrans, activatedError);
      queries := 0;
    }

    /** Before every query the solver may be refreshed; afterwards it is in step with the frames. */
    method WithSolver() returns (q: Query)
      requires Configured() && 0 <= queries && (queries > 0 ==> InSync())
      modifies this`queries, solver
      ensures Configured() && queries > 0 && InSync() && q == Query({}, [])
    {
      hide TransitionSystem.WellFormed, Synced, Setup, FormulasMatch;
      if queries % SOLVER_REFRESH_RATE == 0 {
        RefreshSolver();
      }
      queries := queries + 1;
      q := solver.NewQuery();
    }

    method GetErrorCti() returns (cti: Option<nat>)
      requires Valid()
      modifies this`queries, solver, ctis
      ensures Valid() && queries > 0
      ensures match cti
              case None => NoErrorIn(system, trace, true, Depth())
              case Some(h) =>
                && h < |ctis.View()|
                && ObligationOk(system, trace, ctis.View(), Obligation(Depth(), h))
                && !Blocked(system, trace, true, Depth(), ctis.View()[h].state.literals)
    {
      hide TransitionSystem.WellFormed, FrameInvariant, PoolOk, Synced, Setup, FormulasMatch;
      var q := WithSolver();
      q := q.Assume(traceActivators[Depth()..]);
      q := q.Assume([errorActivator]);
      assert q.constraint == [];
      var sat := solver.IsSat(q);
      if sat {
        ghost var m := solver.status.model;
        ErrorCtiFound(solver.clauses, system, Act(), trace, store.size, ctis.View(), m);
        var state := solver.GetModel(system.states);
        var input := solver.GetModel(system.inputs);
        var h := ctis.Make(MakeCube(state), MakeCube(input), None);
        cti := Some(h);
      } else {
        NoErrorCti(solver.clauses, system, Act(), trace, store.size, solver.status.core);
        cti := None;
      }
    }

    /** Whether some cube of the frames from the given level on subsumes the cube. */
    method IsSubsumed(c: Cube, level: nat) returns (r: bool)
      requires level <= Depth()
      ensures r ==> Blocked(system, trace, true, level, c.literals)
    {
      for j := level to |trace| {
        for k := 0 to |trace[j]| {
          if Subsumes(trace[j][k], c) {
            SubsumedIsBlocked(system, trace, true, level, j, trace[j][k], c);
            return true;
          }
        }
      }
      r := false;
    }

    /** Asks the solver whether the cube has a state in the frame. */
    method MeetsFrame(s: seq<Literal>, level: nat) returns (sat: bool)
      requires Valid() && level <= Depth() && system.IsStateCube(s)
      modifies this`queries, solver
      ensures Valid() && queries > 0
      ensures sat <==> !Blocked(system, trace, true, level, s)
    {
      hide FrameInvariant, PoolOk, Synced, TransitionSystem.WellFormed, Setup, FormulasMatch, Blocked;
      var q := WithSolver();
      q := q.Assume(s);
      q := q.Assume(traceActivators[level..]);
      assert q.constraint == [];
      sat := solver.IsSat(q);
      if sat {
        StillMeets(solver.clauses, system, Act(), trace, store.size, s, level, solver.status.model);
      } else {
        MeetsNoMore(solver.clauses, system, Act(), trace, store.size, s, level, solver.status.core);
      }
    }

    method IsAlreadyBlocked(po: Obligation) returns (blocked: bool)
      requires Valid() && 1 <= po.level && po.handle < |ctis.View()|
      modifies this`queries, solver
      ensures Valid() && (old(queries) > 0 ==> queries > 0)
      ensures blocked <==> po.level <= Depth()
                           && Blocked(system, trace, true, po.level, ctis.View()[po.handle].state.literals)
    {
      hide FrameInvariant, PoolOk, InSync, TransitionSystem.WellFormed, Setup, FormulasMatch, Blocked;
      if po.level > Depth() {
        return false;
      }
      var e := ctis.Get(po.handle);
      PooledCube(system, Act(), |trace|, store.size, ctis.View(), po.handle);
      blocked := IsSubsumed(e.state, po.level);
      if !blocked {
        var sat := MeetsFrame(e.state.literals, po.level);
        blocked := !sat;
      }
    }

    method IntersectsInitialStates(c: seq<Literal>) returns (r: bool)
      requires Configured()
      ensures r <==> !ClashesWith(system.InitCube(), c)
    {
      for i := 0 to |c|
        invariant forall k :: 0 <= k < i ==> Not(c[k]) !in system.InitCube().literals
      {
        if Not(c[i]) in initCube.literals {
          return false;
        }
      }
      r := true;
    }

    /** Whether the negated cube is inductive relative to R_{i-1}. */
    method IsRelativeInductive(s: seq<Literal>, i: nat) returns (r: bool)
      requires Valid() && 1 <= i <= |trace| && system.IsStateCube(s)
      modifies this`queries, solver
      ensures Valid() && queries > 0
      ensures r <==> Blockable(system, trace, true, s, i - 1)
      ensures r ==> solver.status.Unsatisfied? && CoreBlocks(system, Act(), trace, s, i - 1, solver.status.core)
      ensures !r ==> solver.status.Satisfied? && ModelSteps(system, trace, s, i - 1, solver.status.model)
    {
      hide TransitionSystem.WellFormed, FrameInvariant, PoolOk, Synced, Setup, FormulasMatch, Blockable, CoreBlocks,
        ModelSteps;
      SetupRanges(system, Act(), |trace|, store.size);
      var q := WithSolver();
      q := q.ConstrainNot(s);
      q := q.Assume(traceActivators[i - 1..]);
      q := q.Assume([transitionActivator]);
      q := q.Assume(system.PrimeAll(s));
      assert q.constraint == [NotAll(s)];
      var sat := solver.IsSat(q);
      if sat {
        NotRelativelyInductive(solver.clauses, system, Act(), trace, store.size, s, i - 1, solver.status.model);
      } else {
        RelativelyInductive(solver.clauses, system, Act(), trace, store.size, s, i - 1, solver.status.core);
      }
      r := !sat;
    }

    /** The failed part of the state p, given that p steps into s under the inputs. */
    method PredecessorCore(
      s: seq<Literal>, from: nat, ins: seq<Literal>, p: seq<Literal>, ghost m: Assignment) returns (core: seq<Literal>)
      requires Configured() && InSync() && queries > 0 && StateTrace(system, trace)
      requires system.IsStateCube(s) && ModelSteps(system, trace, s, from, m)
      requires ins == ValuationOf(m, system.inputs) && p == ValuationOf(m, system.states)
      modifies this`queries, solver
      ensures Configured() && InSync() && queries > 0
      ensures solver.status.Unsatisfied? && forall l :: l in core <==> l in p && l in solver.status.core
      ensures system.IsInput(m * system.inputs.Vars()) && LeadsInto(system, core, m * system.inputs.Vars(), s)
    {
      hide TransitionSystem.WellFormed, Synced, Setup, FormulasMatch, ModelSteps, Answers, LeadsInto, StateTrace,
        NotAll, LitSet, ValuationOf;
      SetupRanges(system, Act(), |trace|, store.size);
      var q := WithSolver();
      q := q.ConstrainNot(system.PrimeAll(s));
      q := q.Assume([transitionActivator]);
      q := q.Assume(ins);
      q := q.Assume(p);
      assert q.constraint == [NotAll(system.PrimeAll(s))];
      assert q.assumed == LitSet([transitionActivator]) + LitSet(ins) + LitSet(p);
      var sat := solver.IsSat(q);
      if sat {
        StepsIntoCube(system, Act(), store.size, trace, s, from, m);
        PredecessorCheckFails(solver.clauses, system, Act(), trace, true, store.size, s, m, solver.status.model);
      }
      assert !sat;
      core := solver.GetCore(p);
      FailedPartLeadsIn(solver.clauses, system, Act(), trace, true, store.size, s, m, solver.status.core, core);
    }

    /** Fetches a generalised predecessor from the model of the last relative induction query. */
    method GetPredecessor(po: Obligation) returns (h: nat)
      requires Valid() && queries > 0
      requires po.level >= 1 && ObligationOk(system, trace, ctis.View(), po)
      requires solver.status.Satisfied?
      requires ModelSteps(system, trace, ctis.View()[po.handle].state.literals, po.level - 1, solver.status.model)
      modifies this`queries, solver, ctis
      ensures Valid() && queries > 0
      ensures h == |old(ctis.View())| && |ctis.View()| == h + 1 && ctis.View()[..h] == old(ctis.View())
      ensures ObligationOk(system, trace, ctis.View(), Obligation(po.level - 1, h))
      ensures !Blocked(system, trace, true, po.level - 1, ctis.View()[h].state.literals)
      ensures solver.status.Unsatisfied?
              && FailedState(system, old(solver.status).model, solver.status.core, ctis.View()[h].state.literals)
    {
      hide TransitionSystem.WellFormed, FrameInvariant, PoolOk, Synced, Setup, FormulasMatch, Blocked, ModelSteps,
        ObligationOk, LeadsInto, StateTrace;
      ghost var m := solver.status.model;
      HandleInPool(system, Act(), store.size, trace, ctis.View(), po);
      InvariantHasStateTrace(system, Act(), store.size, trace, true);
      PooledCube(system, Act(), |trace|, store.size, ctis.View(), po.handle);
      var e := ctis.Get(po.handle);
      var ins := solver.GetModel(system.inputs);
      var p := solver.GetModel(system.states);
      var core := PredecessorCore(e.state.literals, po.level - 1, ins, p, m);
      PredecessorIsObligation(
        system, Act(), store.size, trace, ctis.View(), po, m, core,
        Entry(MakeCube(core), MakeCube(ins), Some(po.handle)));
      h := ctis.Make(MakeCube(core), MakeCube(ins), Some(po.handle));
    }

    /** The lowest frame from the given one on whose activator failed, or the newest frame. */
    method LowestFailedFrame(from: nat) returns (j: nat)
      requires Configured() && from <= Depth() && solver.status.Unsatisfied?
      ensures from <= j <= Depth()
      ensures forall k :: from <= k < j ==> traceActivators[k] !in solver.status.core
      ensures j == Depth() || traceActivators[j] in solver.status.core
    {
      hide TransitionSystem.WellFormed, Setup, FormulasMatch;
      j := Depth();
      for i := from to Depth() + 1
        invariant j == Depth()
        invariant forall k :: from <= k < i ==> traceActivators[k] !in solver.status.core
      {
        if solver.IsInCore(traceActivators[i]) {
          j := i;
          break;
        }
      }
    }

    /** Drops the literals whose primed version did not fail, unless that lets an initial state in. */
    method DropUnfailed(s: seq<Literal>) returns (res: seq<Literal>)
      requires Configured() && system.IsStateCube(s) && solver.status.Unsatisfied?
      requires system.DisjointRanges() && ClashesWith(initCube, s)
      ensures forall l :: l in res ==> l in s
      ensures forall l :: l in s && system.Prime(l) in solver.status.core ==> l in res
      ensures ClashesWith(initCube, res)
      ensures system.IsStateCube(res) && OnlyFailedOrNeeded(system, initCube, solver.status.core, res)
    {
      hide TransitionSystem.WellFormed, Setup, FormulasMatch, ClashesWith;
      res := s;
      assert NeededUpTo(system, initCube, solver.status.core, s, res, 0);
      hide NeededUpTo;
      for n := 0 to |s|
        invariant forall l :: l in res ==> l in s
        invariant forall l :: l in s && system.Prime(l) in solver.status.core ==> l in res
        invariant ClashesWith(initCube, res) && NeededUpTo(system, initCube, solver.status.core, s, res, n)
      {
        ghost var before := res;
        var lit := s[n];
        if !solver.IsInCore(system.Prime(lit)) {
          res := Remove(res, lit);
          var intersects := IntersectsInitialStates(res);
          if intersects {
            res := res + [lit];
          }
        }
        UnfailedStep(system, initCube, solver.status.core, s, before, res, n);
      }
      AllNeededForInit(system, initCube, solver.status.core, s, res);
    }

    /** Drops one more literal if the cube still misses Init and stays relatively inductive. */
    method TryDrop(res: seq<Literal>, lit: Literal, level: nat) returns (res': seq<Literal>)
      requires Valid() && 1 <= level <= |trace| && system.IsStateCube(res + [lit])
      requires ClashesWith(initCube, res) && Blockable(system, trace, true, res, level - 1)
      modifies this`queries, solver
      ensures Valid() && (old(queries) > 0 ==> queries > 0)
      ensures forall l :: l in res' ==> l in res || l == lit
      ensures ClashesWith(initCube, res') && Blockable(system, trace, true, res', level - 1)
      ensures res' == Dropped(system, trace, initCube, res, lit, level - 1)
    {
      hide FrameInvariant, PoolOk, InSync, TransitionSystem.WellFormed, Setup, FormulasMatch, Blockable, CoreBlocks,
        ModelSteps, ClashesWith;
      res' := Remove(res, lit);
      LiteralRemoved(system, Act(), store.size, trace, initCube, res, lit, level - 1);
      var keep := IntersectsInitialStates(res');
      if !keep {
        var still := IsRelativeInductive(res', level);
        keep := !still;
      }
      if keep {
        res' := res' + [lit];
      }
    }

    /** Drops further literals as long as the cube misses Init and stays relatively inductive. */
    method DropUnneeded(s: seq<Literal>, level: nat) returns (res: seq<Literal>)
      requires Valid() && 1 <= level <= |trace| && system.IsStateCube(s)
      requires ClashesWith(initCube, s) && Blockable(system, trace, true, s, level - 1)
      modifies this`queries, solver
      ensures Valid() && (old(queries) > 0 ==> queries > 0)
      ensures forall l :: l in res ==> l in s
      ensures ClashesWith(initCube, res) && Blockable(system, trace, true, res, level - 1)
      ensures res == DroppedUpTo(system, trace, initCube, s, level - 1, |s|)
    {
      hide FrameInvariant, PoolOk, InSync, TransitionSystem.WellFormed, Setup, FormulasMatch, Blockable, ClashesWith,
        Dropped;
      res := s;
      for n := 0 to |s|
        invariant Valid() && (old(queries) > 0 ==> queries > 0)
        invariant forall l :: l in res ==> l in s
        invariant ClashesWith(initCube, res) && Blockable(system, trace, true, res, level - 1)
        invariant res == DroppedUpTo(system, trace, initCube, s, level - 1, n)
      {
        res := TryDrop(res, s[n], level);
      }
    }

    /** Moves a cube up as long as it stays relatively inductive. */
    method RaiseLevel(c: Cube, from: nat) returns (level: nat)
      requires Valid() && queries > 0 && 1 <= from <= |trace| && system.IsStateCube(c.literals)
      requires Blockable(system, trace, true, c.literals, from - 1)
      modifies this`queries, solver
      ensures Valid() && queries > 0
      ensures from <= level <= |trace| && Blockable(system, trace, true, c.literals, level - 1)
      ensures level == |trace| || !Blockable(system, trace, true, c.literals, level)
    {
      hide FrameInvariant, PoolOk, InSync, TransitionSystem.WellFormed, Setup, FormulasMatch, Blockable, CoreBlocks,
        ModelSteps, TransitionSystem.IsStateCube;
      level := from;
      while level <= Depth()
        invariant Valid() && queries > 0
        invariant from <= level <= |trace| && Blockable(system, trace, true, c.literals, level - 1)
        decreases |trace| - level
      {
        var still := IsRelativeInductive(c.literals, level + 1);
        if !still {
          return;
        }
        level := level + 1;
      }
    }

    /** Reads the lowest usable level and the failed part of the cube off the last answer. */
    method ReadCore(s: seq<Literal>, from: nat) returns (lits: seq<Literal>, j: nat)
      requires Configured() && 1 <= from <= Depth()
      requires solver.status.Unsatisfied? && system.IsStateCube(s) && ClashesWith(initCube, s)
      requires CoreBlocks(system, Act(), trace, s, from - 1, solver.status.core)
      ensures system.IsStateCube(lits) && forall l :: l in lits ==> l in s
      ensures system.DisjointRanges() && OnlyFailedOrNeeded(system, initCube, solver.status.core, lits)
      ensures ClashesWith(initCube, lits)
      ensures from - 1 <= j <= Depth() && Blockable(system, trace, true, lits, j)
    {
      hide TransitionSystem.WellFormed, Setup, FormulasMatch, Blockable, CoreBlocks, ClashesWith, OnlyFailedOrNeeded;
      SetupRanges(system, Act(), |trace|, store.size);
      j := LowestFailedFrame(from - 1);
      lits := DropUnfailed(s);
      CoreBlocksCube(system, Act(), store.size, trace, s, from - 1, solver.status.core, lits, j);
    }

    /** The failed part of the cube without the literals it does not need, at the lowest usable level. */
    method ShrinkCube(s: seq<Literal>, from: nat) returns (c: Cube, level: nat)
      requires Valid() && queries > 0 && 1 <= from <= Depth()
      requires solver.status.Unsatisfied? && system.IsStateCube(s) && ClashesWith(initCube, s)
      requires CoreBlocks(system, Act(), trace, s, from - 1, solver.status.core)
      modifies this`queries, solver
      ensures Valid() && queries > 0
      ensures forall l :: l in c.literals ==> l in s
      ensures ClashesWith(initCube, c.literals)
      ensures from <= level <= |trace| && Blockable(system, trace, true, c.literals, level - 1)
      ensures ShrunkFrom(system, trace, initCube, s, old(solver.status).core, c, level - 1)
    {
      hide FrameInvariant, PoolOk, InSync, TransitionSystem.WellFormed, Setup, FormulasMatch, Blockable, CoreBlocks,
        ClashesWith, DroppedUpTo, OnlyFailedOrNeeded, ShrunkFrom, MakeCube, TransitionSystem.IsStateCube,
        TransitionSystem.DisjointRanges;
      ghost var core := solver.status.core;
      var lits, j := ReadCore(s, from);
      var res := DropUnneeded(lits, j + 1);
      ShrunkCube(system, Act(), store.size, trace, initCube, s, core, lits, res, j);
      c, level := MakeCube(res), j + 1;
    }

    /** Shrinks the cube of a blocked obligation and moves it along the trace. */
    method GeneralizeInductive(s: seq<Literal>, from: nat) returns (c: Cube, level: nat)
      requires Valid() && queries > 0 && 1 <= from <= Depth()
      requires solver.status.Unsatisfied? && system.IsStateCube(s) && ClashesWith(initCube, s)
      requires CoreBlocks(system, Act(), trace, s, from - 1, solver.status.core)
      modifies this`queries, solver
      ensures Valid() && queries > 0
      ensures forall l :: l in c.literals ==> l in s
      ensures ClashesWith(initCube, c.literals)
      ensures from <= level <= |trace| && Blockable(system, trace, true, c.literals, level - 1)
      ensures level == |trace| || !Blockable(system, trace, true, c.literals, level)
      ensures exists j: nat :: j < level && ShrunkFrom(system, trace, initCube, s, old(solver.status).core, c, j)
    {
      hide FrameInvariant, PoolOk, InSync, TransitionSystem.WellFormed, Setup, FormulasMatch, Blockable, CoreBlocks,
        ClashesWith, ShrunkFrom;
      var start;
      c, start := ShrinkCube(s, from);
      level := RaiseLevel(c, start);
    }

    /** Blocks a cube up to a level and deletes what it subsumes in the frames from startFrom on. */
    method AddBlockedAt(c: Cube, level: nat, startFrom: nat)
      requires Valid() && queries > 0
      requires 1 <= startFrom <= level && startFrom <= Depth()
      requires system.IsStateCube(c.literals) && MissesInit(system, c.literals)
      requires Blockable(system, trace, true, c.literals, level - 1)
      modifies this`trace, solver
      ensures Valid()
      ensures BlockedBetween(old(trace), trace, c, startFrom, if level <= Depth() then level else Depth())
      ensures Size() <= old(Size())
      ensures forall m: nat :: 1 <= m <= level && m <= Depth() && !Blocked(system, old(trace), true, m, c.literals) ==>
                Size() < old(Size())
      ensures forall m: nat :: m <= level && m <= Depth() ==> Blocked(system, trace, true, m, c.literals)
    {
      hide TransitionSystem.WellFormed, FrameInvariant, PoolOk, Synced, Setup, FormulasMatch, Blockable, MissesInit,
        Blocked, SizeFrom;
      var k := if level <= Depth() then level else Depth();
      ghost var before, act := trace, Act();
      var frames := trace;
      for d := startFrom to k + 1
        modifies {}
        invariant |frames| == |before|
        invariant forall j :: 0 <= j < |before| && !(startFrom <= j < d) ==> frames[j] == before[j]
        invariant forall j, x {:trigger x in frames[j]} ::
                    startFrom <= j < d && x in frames[j] ==> x in before[j] && !Subsumes(c, x)
        invariant forall j, x {:trigger x in before[j]} ::
                    startFrom <= j < d && x in before[j] && !Subsumes(c, x) ==> x in frames[j]
      {
        var rest := RemoveSubsumed(frames[d], c);
        frames := frames[d := rest];
      }
      trace := frames[k := frames[k] + [c]];
      assert Act() == act;
      ActivatorPositive(system, act, |trace|, store.size, k);
      BlockedAt(
        solver.clauses, system, act, store.size, before, trace, c, startFrom, k, level);
      solver.AssertFormula(Activate(NegateCube(c), traceActivators[k]));
    }

    /** Generalises the cube of a relatively inductive obligation and blocks it. */
    method BlockObligation(po: Obligation)
      requires Valid() && queries > 0
      requires 1 <= po.level <= Depth() && ObligationOk(system, trace, ctis.View(), po)
      requires !Blocked(system, trace, true, po.level, ctis.View()[po.handle].state.literals)
      requires solver.status.Unsatisfied?
      requires system.IsStateCube(ctis.View()[po.handle].state.literals)
      requires CoreBlocks(
                 system, Act(), trace, ctis.View()[po.handle].state.literals, po.level - 1, solver.status.core)
      modifies this`queries, this`trace, solver
      ensures Valid() && queries > 0 && FramesShrink(system, old(trace), trace, true)
      ensures Size() < old(Size())
      ensures Blocked(system, trace, true, po.level, ctis.View()[po.handle].state.literals)
    {
      hide FrameInvariant, PoolOk, InSync, TransitionSystem.WellFormed, Setup, FormulasMatch, Blockable, CoreBlocks,
        ModelSteps, ClashesWith, Blocked, ObligationOk, BlockedBetween, BlockedIn, SizeFrom, ShrunkFrom;
      HandleInPool(system, Act(), store.size, trace, ctis.View(), po);
      ObligationMissesInit(system, Act(), store.size, trace, ctis.View(), po);
      ghost var before, s := trace, ctis.View()[po.handle].state.literals;
      var e := ctis.Get(po.handle);
      var c, level := GeneralizeInductive(e.state.literals, po.level);
      ClashMisses(system, Act(), |trace|, store.size, c.literals);
      if Blocked(system, before, true, po.level, c.literals) {
        BlockedIsMonotone(system, before, true, po.level, c.literals, s);
      }
      AddBlockedAt(c, level, 1);
      BlockedBetweenIsBlockedIn(before, trace, c, 1, if level <= Depth() then level else Depth());
      ShrunkByBlocking(system, before, trace, true, c, if level <= Depth() then level else Depth());
      BlockedIsMonotone(system, trace, true, po.level, c.literals, s);
    }

    /** Puts the predecessor found by the last query in front of the first obligation. */
    method PushPredecessor(q: seq<Obligation>) returns (q': seq<Obligation>)
      requires Valid() && queries > 0
      requires QueueOk(system, trace, ctis.View(), q) && q != [] && q[0].level >= 1
      requires q[0].handle < |ctis.View()| && ObligationOk(system, trace, ctis.View(), q[0])
      requires solver.status.Satisfied?
      requires ModelSteps(
                 system, trace, ctis.View()[q[0].handle].state.literals, q[0].level - 1, solver.status.model)
      modifies this`queries, solver, ctis
      ensures Valid() && queries > 0 && old(ctis.View()) <= ctis.View()
      ensures QueueOk(system, trace, ctis.View(), q') && q' != []
      ensures Ordered(q[1..]) && q' == Push(Push(q[1..], q'[0]), q[0]) && forall po :: po in q ==> po in q'
      ensures q'[0] == Obligation(q[0].level - 1, |old(ctis.View())|) && q'[0].handle < |ctis.View()|
      ensures !Blocked(system, trace, true, q'[0].level, ctis.View()[q'[0].handle].state.literals)
    {
      hide FrameInvariant, PoolOk, InSync, TransitionSystem.WellFormed, Setup, FormulasMatch, ModelSteps, Blocked,
        ObligationOk, QueueOk, Push;
      ghost var view := ctis.View();
      var h := GetPredecessor(q[0]);
      var pred := Obligation(q[0].level - 1, h);
      QueueAfterPredecessor(system, Act(), store.size, trace, view, ctis.View(), q, pred);
      q' := Push(Push(q[1..], pred), q[0]);
    }

    /** Blocks the first obligation and raises it by a level, unless it is at the newest frame. */
    method BlockFront(q: seq<Obligation>) returns (q': seq<Obligation>)
      requires Valid() && queries > 0
      requires QueueOk(system, trace, ctis.View(), q) && q != [] && 1 <= q[0].level <= Depth()
      requires ObligationOk(system, trace, ctis.View(), q[0]) && q[0].handle < |ctis.View()|
      requires !Blocked(system, trace, true, q[0].level, ctis.View()[q[0].handle].state.literals)
      requires solver.status.Unsatisfied?
      requires system.IsStateCube(ctis.View()[q[0].handle].state.literals)
      requires CoreBlocks(
                 system, Act(), trace, ctis.View()[q[0].handle].state.literals, q[0].level - 1, solver.status.core)
      modifies this`queries, this`trace, solver
      ensures Valid() && queries > 0 && FramesShrink(system, old(trace), trace, true)
      ensures QueueOk(system, trace, ctis.View(), q') && Ordered(q[1..]) && forall po :: po in q[1..] ==> po in q'
      ensures Size() < old(Size())
      ensures Blocked(system, trace, true, q[0].level, ctis.View()[q[0].handle].state.literals)
      ensures q' == if q[0].level < Depth() then Push(q[1..], Obligation(q[0].level + 1, q[0].handle)) else q[1..]
    {
      hide FrameInvariant, PoolOk, InSync, TransitionSystem.WellFormed, Setup, FormulasMatch, CoreBlocks,
        Blocked, ObligationOk, QueueOk, SizeFrom, Push, FramesShrink, Ordered;
      ghost var oldTrace := trace;
      BlockObligation(q[0]);
      SameNumberOfFrames(system, oldTrace, trace, true);
      QueueAfterBlocking(system, Act(), store.size, oldTrace, trace, ctis.View(), q);
      q' := q[1..];
      if q[0].level < Depth() {
        q' := Push(q', Obligation(q[0].level + 1, q[0].handle));
      }
    }

    /**
     * Handles the first obligation, which still meets its frame: blocks it and
     * raises it by a level, or puts a predecessor in front of it.
     */
    method Expand(q: seq<Obligation>) returns (q': seq<Obligation>, shrunk: bool)
      requires Valid() && queries > 0
      requires QueueOk(system, trace, ctis.View(), q) && q != [] && q[0].level >= 1
      requires q[0].handle < |ctis.View()|
      requires !Blocked(system, trace, true, q[0].level, ctis.View()[q[0].handle].state.literals)
      modifies this`queries, this`trace, solver, ctis
      ensures Valid() && queries > 0 && FramesShrink(system, old(trace), trace, true)
      ensures old(ctis.View()) <= ctis.View()
      ensures QueueOk(system, trace, ctis.View(), q') && Ordered(q[1..]) && forall po :: po in q[1..] ==> po in q'
      ensures shrunk ==>
                && Size() < old(Size())
                && Blocked(system, trace, true, q[0].level, ctis.View()[q[0].handle].state.literals)
                && q' == if q[0].level < Depth() then Push(q[1..], Obligation(q[0].level + 1, q[0].handle)) else q[1..]
      ensures !shrunk ==>
                && trace == old(trace) && q' != [] && q[0] in q' && q' == Push(Push(q[1..], q'[0]), q[0])
                && q'[0] == Obligation(q[0].level - 1, |old(ctis.View())|) && q'[0].handle < |ctis.View()|
      ensures !shrunk ==>
                !Blocked(system, trace, true, q'[0].level, ctis.View()[q'[0].handle].state.literals)
    {
      hide FrameInvariant, PoolOk, InSync, TransitionSystem.WellFormed, Setup, FormulasMatch, Blockable, CoreBlocks,
        ModelSteps, ClashesWith, Blocked, ObligationOk, QueueOk, SizeFrom, Push, FramesShrink;
      var po := q[0];
      ShrunkItself(system, trace, true);
      QueueTail(system, Act(), store.size, trace, ctis.View(), q);
      PooledCube(system, Act(), |trace|, store.size, ctis.View(), po.handle);
      ObligationMissesInit(system, Act(), store.size, trace, ctis.View(), po);
      var e := ctis.Get(po.handle);
      var intersects := IntersectsInitialStates(e.state.literals);
      assert !intersects;
      shrunk := IsRelativeInductive(e.state.literals, po.level);
      if shrunk {
        q' := BlockFront(q);
      } else {
        q' := PushPredecessor(q);
      }
    }

    /** Blocks the starting obligation, or finds a counterexample. */
    method SolveObligation(start: Obligation) returns (cex: Option<Result>)
      requires Valid() && queries > 0
      requires ObligationOk(system, trace, ctis.View(), start)
      requires !Blocked(system, trace, true, start.level, ctis.View()[start.handle].state.literals)
      modifies this`queries, this`trace, solver, ctis
      ensures Valid() && queries > 0 && |trace| == |old(trace)|
      ensures cex.None? ==> Size() < old(Size()) && FramesShrink(system, old(trace), trace, true)
      ensures cex.None? ==>
                Blocked(system, trace, true, start.level, old(ctis.View()[start.handle].state.literals))
      ensures cex.Some? ==> cex.value.Counterexample? && GoodCounterexample(system, cex.value)
    {
      hide FrameInvariant, PoolOk, InSync, TransitionSystem.WellFormed, Setup, FormulasMatch, Blocked, ObligationOk,
        QueueOk, GoodCounterexample, ReadOff, SizeFrom, Push, FramesShrink, QueuedOrBlocked;
      StartQueue(system, Act(), store.size, trace, ctis.View(), start);
      ghost var startTrace, startSize, startCube := trace, Size(), ctis.View()[start.handle].state.literals;
      StartQueued(system, trace, start, startCube);
      ShrunkItself(system, trace, true);
      var q := [start];
      ghost var unblocked := false;
      while q != []
        invariant Valid() && queries > 0 && |trace| == |startTrace| && FramesShrink(system, startTrace, trace, true)
        invariant QueueOk(system, trace, ctis.View(), q) && QueuedOrBlocked(system, trace, q, start, startCube)
        invariant start.handle < |ctis.View()| && ctis.View()[start.handle].state.literals == startCube
        invariant Size() < startSize || (trace == startTrace && start in q)
        invariant unblocked ==> (
                    && q != [] && q[0].handle < |ctis.View()|
                    && !Blocked(system, trace, true, q[0].level, ctis.View()[q[0].handle].state.literals))
        decreases Size(), if unblocked then 0 else 1, if unblocked then q[0].level else |q|
      {
        var po := q[0];
        QueueTail(system, Act(), store.size, trace, ctis.View(), q);
        if po.level == 0 {
          var found := BuildCounterexample(system, ctis.entries[..ctis.numEntries], po.handle);
          LevelZero(system, Act(), store.size, trace, ctis.View(), po, found);
          return Some(found);
        }
        ghost var before, queue := trace, q;
        var blocked := IsAlreadyBlocked(po);
        if blocked {
          ShrunkItself(system, trace, true);
          q := q[1..];
        } else {
          var shrunk;
          q, shrunk := Expand(q);
          unblocked := !shrunk;
        }
        StillQueuedOrBlocked(system, before, trace, queue, q, start, startCube);
        ShrunkTwice(system, startTrace, before, trace, true);
      }
      NothingQueued(system, trace, start, startCube);
      cex := None;
    }

    /** Pushes a cube of frame i to the next frame if it is inductive relative to R_i. */
    method PushCube(c: Cube, i: nat, ghost trace0: Trace)
      requires Valid() && queries > 0 && 1 <= i < Depth() && |trace0| == |trace| && c in trace0[i]
      requires FrameInvariant(system, trace0, true) && SameUpTo(system, trace0, trace, i)
      modifies this`queries, this`trace, solver
      ensures Valid() && queries > 0 && |trace| == |old(trace)|
      ensures SameUpTo(system, trace0, trace, i)
      ensures forall d :: d in trace[i] ==> d in old(trace)[i]
      ensures c in trace[i] ==> !Blockable(system, trace0, true, c.literals, i)
      ensures Blockable(system, trace0, true, c.literals, i) ==> Blocked(system, trace, true, i + 1, c.literals)
      ensures FramesShrink(system, old(trace), trace, true) && SameBelow(old(trace), trace, i)
    {
      hide FrameInvariant, PoolOk, InSync, TransitionSystem.WellFormed, Setup, FormulasMatch, Blockable, CoreBlocks,
        ModelSteps, Blocked, SizeFrom, SameUpTo, MissesInit, FramesShrink, SameBelow, BlockedBetween, BlockedIn;
      ghost var before := trace;
      ShrunkItself(system, trace, true);
      SameBelowItself(trace, i);
      CubeOfTrace(system, Act(), store.size, trace0, i, c);
      var still := IsRelativeInductive(c.literals, i + 1);
      if still {
        AddBlockedAt(c, i + 1, i);
        SameLength(before, trace, c, i, i + 1);
        PushingKeepsFrames(system, trace0, before, trace, c, i);
        SameBelowPushed(before, trace, c, i);
        BlockedBetweenIsBlockedIn(before, trace, c, i, i + 1);
        ShrunkByBlocking(system, before, trace, true, c, i + 1);
      } else if Blockable(system, trace0, true, c.literals, i) {
        SameFrameSameBlockable(system, Act(), store.size, trace0, trace, c.literals, i);
      }
    }

    /** Pushes the cubes of frame i that are inductive relative to it. */
    method PropagateLevel(i: nat)
      requires Valid() && queries > 0 && 1 <= i < Depth()
      modifies this`queries, this`trace, solver
      ensures Valid() && queries > 0 && |trace| == |old(trace)|
      ensures SameUpTo(system, old(trace), trace, i)
      ensures trace[i] != [] ==> StrictlyBelow(system, trace, i)
      ensures FramesShrink(system, old(trace), trace, true) && SameBelow(old(trace), trace, i)
      ensures NothingToPush(system, trace, i)
      ensures forall c :: c in old(trace)[i] && Blockable(system, trace, true, c.literals, i) ==>
                Blocked(system, trace, true, i + 1, c.literals)
    {
      hide FrameInvariant, PoolOk, InSync, TransitionSystem.WellFormed, Setup, FormulasMatch, Blockable, SizeFrom,
        SameUpTo, StrictlyBelow, FramesShrink, SameBelow, NothingToPush, Blocked;
      ghost var trace0 := trace;
      SameAsItself(system, trace, i);
      ShrunkItself(system, trace, true);
      SameBelowItself(trace, i);
      // a copy, since frame i changes on the way
      var cubes := trace[i];
      assert StuckUpTo(system, trace0, cubes, trace[i], i, 0) && PushedUpTo(system, trace0, trace, cubes, i, 0);
      hide StuckUpTo, PushedUpTo;
      for n := 0 to |cubes|
        invariant Valid() && queries > 0 && |trace| == |trace0|
        invariant SameUpTo(system, trace0, trace, i)
        invariant StuckUpTo(system, trace0, cubes, trace[i], i, n) && PushedUpTo(system, trace0, trace, cubes, i, n)
        invariant FramesShrink(system, trace0, trace, true) && SameBelow(trace0, trace, i)
      {
        ghost var before := trace;
        PushCube(cubes[n], i, trace0);
        StuckOneMore(system, trace0, cubes, before[i], trace[i], i, n);
        PushedOneMore(system, trace0, before, trace, cubes, i, n);
        ShrunkTwice(system, trace0, before, trace, true);
        SameBelowTwice(trace0, before, trace, i);
      }
      LevelIsDone(system, Act(), store.size, trace0, trace, i);
      StuckSeparates(system, Act(), store.size, trace0, trace, cubes, i);
    }

    /** Returns true if the system has been proven safe by finding an invariant. */
    method Propagate() returns (safe: bool)
      requires Valid() && queries > 0 && |trace| >= 2 && trace[Depth()] == []
      modifies this`queries, this`trace, solver
      ensures Valid() && queries > 0 && |trace| == |old(trace)|
      ensures FramesShrink(system, old(trace), trace, true)
      ensures safe ==> exists i: nat :: 1 <= i < Depth() && trace[i] == [] && LevelsDone(system, trace, i)
      ensures !safe ==> GrowsBelow(system, trace, Depth()) && LevelsDone(system, trace, Depth())
    {
      hide FrameInvariant, PoolOk, InSync, TransitionSystem.WellFormed, Setup, FormulasMatch, SameUpTo, StrictlyBelow,
        FramesShrink, SameBelow, NothingToPush, Blockable, Blocked;
      assert GrowsBelow(system, trace, 1) && LevelsDone(system, trace, 1);
      ShrunkItself(system, trace, true);
      hide GrowsBelow;
      for i := 1 to Depth()
        invariant Valid() && queries > 0 && |trace| == |old(trace)|
        invariant GrowsBelow(system, trace, i) && LevelsDone(system, trace, i)
        invariant FramesShrink(system, old(trace), trace, true)
      {
        ghost var before := trace;
        PropagateLevel(i);
        StillGrows(system, before, trace, i);
        LevelsStayDone(system, Act(), store.size, before, trace, i);
        ShrunkTwice(system, old(trace), before, trace, true);
        if trace[i] == [] {
          return true;
        }
      }
      safe := false;
    }

    method PushFrame()
      requires store.size > 0
      modifies this`trace, this`traceActivators, store
      ensures trace == old(trace) + [[]]
      ensures traceActivators == old(traceActivators) + [old(store.size)]
      ensures store.size == old(store.size) + 1
    {
      trace := trace + [[]];
      var v := store.Make();
      traceActivators := traceActivators + [v];
    }

    /** Opens a frame after the newest one was found to exclude errors. */
    method OpenFrame()
      requires Valid() && queries > 0 && NoErrorIn(system, trace, true, Depth())
      modifies this`trace, this`traceActivators, store
      ensures Valid() && trace == old(trace) + [[]]
    {
      hide FrameInvariant, PoolOk, Synced, TransitionSystem.WellFormed, Setup;
      AfterPush(solver.clauses, system, Act(), store.size, trace, true);
      PushFrame();
      assert Act() == PushActivator(old(Act()), old(store.size));
    }

    /** An empty frame is an inductive invariant. */
    ghost predicate Proved()
      requires Configured()
      reads this`system, this`trace, this`traceActivators, store
      reads this`activatedInit, this`activatedTrans, this`activatedError, this`initCube
    {
      exists i :: 1 <= i < Depth() && trace[i] == []
                  && system.InductiveInvariant(FrameStates(system, trace, true, i))
    }

    /** Opens one more frame and propagates: this proves safety, or every frame is larger than the one below. */
    method Deepen() returns (safe: bool)
      requires Valid() && queries > 0 && NoErrorIn(system, trace, true, Depth())
      modifies this`queries, this`trace, this`traceActivators, solver, store
      ensures Valid() && |trace| == |old(trace)| + 1
      ensures safe ==> !system.Unsafe() && Proved()
      ensures !safe ==> system.states.Size() >= 0 && Depth() <= Pow2(system.states.Size())
    {
      hide FrameInvariant, PoolOk, InSync, TransitionSystem.WellFormed, Setup, FormulasMatch, StrictlyBelow,
        Pow2, NoErrorIn, TransitionSystem.InductiveInvariant, GrowsBelow;
      OpenFrame();
      safe := Propagate();
      if safe {
        ghost var i :| 1 <= i < Depth() && trace[i] == [];
        EmptyFrameIsInvariant(system, Act(), store.size, trace, i);
      } else {
        DepthBound(system, Act(), store.size, trace);
      }
    }

    /**
     * The main loop. It stops: either the depth grows, which it can only do up
     * to the number of states, or the frames lose a state.
     */
    method Check() returns (r: Result)
      requires Valid()
      requires system.states.Size() >= 0 && Depth() <= Pow2(system.states.Size())
      modifies this`queries, this`trace, this`traceActivators, solver, ctis, store
      ensures Valid()
      ensures r.Ok? || r.Counterexample?
      ensures r.Ok? ==> !system.Unsafe()
      ensures r.Ok? ==> Proved()
      ensures r.Counterexample? ==> GoodCounterexample(system, r)
      ensures Depth() <= Pow2(system.states.Size()) + 1
    {
      hide FrameInvariant, PoolOk, InSync, TransitionSystem.WellFormed, Setup, FormulasMatch, StrictlyBelow,
        GoodCounterexample, ObligationOk, Blocked, SizeFrom, Pow2, NoErrorIn, PdrEngine.Proved;
      while true
        invariant Valid() && Depth() <= Pow2(system.states.Size())
        decreases Pow2(system.states.Size()) - Depth(), Size()
      {
        var cti := GetErrorCti();
        if cti.Some? {
          var cex := SolveObligation(Obligation(Depth(), cti.value));
          if cex.Some? {
            return cex.value;
          }
        } else {
          var safe := Deepen();
          if safe {
            return Ok;
          }
        }
        EmptyPoolOk(system, Act(), |trace|, store.size);
        ctis.Flush();
      }
    }

    /** Prepares the formulas the solver is reloaded with. */
    method PrepareFormulas()
      requires Setup(system, Act(), 1, store.size)
      modifies this`activatedInit, this`activatedTrans, this`activatedError, this`initCube
      ensures FormulasMatch(system, Act(), activatedInit, activatedTrans, activatedError)
      ensures initCube == system.InitCube()
    {
      ActivatorPositive(system, Act(), 1, store.size, 0);
      activatedInit := Activate(system.init, VarOf(traceActivators[0]));
      activatedTrans := Activate(system.trans, VarOf(transitionActivator));
      activatedError := Activate(system.error, VarOf(errorActivator));
      initCube := system.InitCube();
    }

    method Initialize()
      requires system.WellFormed() && trace == [] && traceActivators == [] && queries == 0
      requires store.size > 0 && Setup(system, Act(), 0, store.size)
      requires ctis.Valid() && ctis.View() == []
      modifies this, store
      ensures Valid() && Depth() == 0
      ensures system == old(system)
    {
      hide FrameInvariant, PoolOk, TransitionSystem.WellFormed, Setup, FormulasMatch;
      SetupAfterPush(system, Act(), 0, store.size);
      PushFrame();
      assert trace == [[]] && Act() == PushActivator(old(Act()), old(store.size));
      PrepareFormulas();
      InitialTraceInvariant(system, true);
      EmptyPoolOk(system, Act(), 1, store.size);
    }

    /**
     * PDR decides safety: it always answers, the answer is ok exactly if no
     * run from an initial state ends in an error, and a counterexample is a
     * run into an error that starts in an initial state unless some latch
     * starts at one. The depth never passes 2^n + 1 for n state variables.
     */
    method Run(sys: TransitionSystem) returns (r: Result)
      requires sys.WellFormed() && trace == [] && traceActivators == [] && queries == 0
      requires store.size > 0 && Setup(sys, Act(), 0, store.size)
      requires ctis.Valid() && ctis.View() == []
      modifies this, solver, ctis, store
      ensures r.Ok? || r.Counterexample?
      ensures r.Ok? <==> !sys.Unsafe()
      ensures r.Ok? ==> exists i :: 1 <= i < Depth() && trace[i] == []
                                    && sys.InductiveInvariant(FrameStates(sys, trace, true, i))
      ensures r.Counterexample? ==> GoodCounterexample(sys, r)
      ensures sys.states.Size() >= 0 && Depth() <= Pow2(sys.states.Size()) + 1
    {
      system := sys;
      Initialize();
      StatesCount(sys);
      PowPositive(sys.states.Size());
      r := Check();
    }
  }
}
