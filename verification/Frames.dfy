/**
 * Frames of blocked cubes and the clause database that represents them in the
 * incremental solver, as shared by the PDR and CAR engines
 * (src/engine/pdr.cpp, src/engine/car.cpp). PDR frames are cumulative: R_i is
 * given by the cubes of the frames i, i + 1, ...; CAR frames stand alone.
 */
module Frames {
  import opened Logic
  import opened TransitionSystems
  import opened Solvers

  type Trace = seq<seq<Cube>>

  /** The activation literals of the frames, the transition and the error. */
  datatype Activators = Activators(frames: seq<Literal>, trans: Literal, error: Literal)
  {
    function All(): set<int> {
      {trans, error} + (set l | l in frames :: l)
    }

    /** The activators are positive, distinct and no variables of the system. */
    ghost predicate Fresh(sys: TransitionSystem) {
      && 0 < trans && 0 < error && trans != error
      && (forall l :: l in frames ==> 0 < l && l != trans && l != error)
      && (forall i, j :: 0 <= i < j < |frames| ==> frames[i] != frames[j])
      && (forall v :: v in All() ==> v !in sys.Vars())
    }
  }

  /** A well-formed system, one activator a frame, all variables below the given bound. */
  ghost predicate Setup(sys: TransitionSystem, act: Activators, frames: int, bound: int) {
    && sys.WellFormed()
    && |act.frames| == frames
    && act.Fresh(sys)
    && (forall v :: v in act.All() + sys.Vars() ==> 0 < v < bound)
  }

  lemma ActivatorPositive(sys: TransitionSystem, act: Activators, frames: int, bound: int, k: int)
    requires Setup(sys, act, frames, bound) && 0 <= k < frames
    ensures act.frames[k] > 0
  {
    assert act.frames[k] in act.frames;
  }

  lemma SetupRanges(sys: TransitionSystem, act: Activators, frames: int, bound: int)
    requires Setup(sys, act, frames, bound)
    ensures sys.DisjointRanges()
  {
  }

  /** The activators after one more frame, whose activator is the variable just handed out. */
  function PushActivator(act: Activators, v: Literal): (r: Activators)
    ensures forall l :: l in r.frames <==> l in act.frames || l == v
  {
    act.(frames := act.frames + [v])
  }

  lemma SetupAfterPush(sys: TransitionSystem, act: Activators, frames: int, bound: int)
    requires Setup(sys, act, frames, bound) && bound > 0
    ensures Setup(sys, PushActivator(act, bound), frames + 1, bound + 1)
  {
    var act' := PushActivator(act, bound);
    forall v | v in act'.All()
      ensures v in act.All() || v == bound
    {
    }
    forall v | v in act.All() || v in sys.Vars()
      ensures 0 < v < bound
    {
      assert v in act.All() + sys.Vars();
    }
    forall l | l in act.frames
      ensures 0 < l < bound
    {
      assert l in act.All();
    }
    assert act.trans in act.All() && act.error in act.All();
    forall i, j | 0 <= i < j < |act'.frames|
      ensures act'.frames[i] != act'.frames[j]
    {
      assert act.frames[i] in act.frames;
      assert act'.frames[i] == act.frames[i];
      assert j < |act.frames| ==> act'.frames[j] == act.frames[j];
    }
  }

  /** The formulas the engines keep for reloading the solver. */
  ghost predicate FormulasMatch(
    sys: TransitionSystem, act: Activators, activatedInit: Cnf, activatedTrans: Cnf, activatedError: Cnf)
  {
    && |act.frames| > 0 && act.frames[0] > 0 && act.trans > 0 && act.error > 0
    && activatedInit == Activate(sys.init, act.frames[0])
    && activatedTrans == Activate(sys.trans, act.trans)
    && activatedError == Activate(sys.error, act.error)
  }

  ghost predicate StateTrace(sys: TransitionSystem, trace: Trace) {
    forall j, c :: 0 <= j < |trace| && c in trace[j] ==> sys.IsStateCube(c.literals)
  }

  ghost predicate Avoids(a: Assignment, cubes: seq<Cube>) {
    forall c :: c in cubes ==> !CubeTrue(a, c.literals)
  }

  /** The assignment lies in no cube that frame k blocks. */
  ghost predicate AvoidsFrom(a: Assignment, trace: Trace, cumulative: bool, k: int) {
    forall j :: 0 <= k <= j < |trace| && (cumulative || j == k) ==> Avoids(a, trace[j])
  }

  /** Membership in R_k; R_0 additionally consists of initial states only. */
  ghost predicate InFrame(sys: TransitionSystem, trace: Trace, cumulative: bool, k: int, s: State) {
    (k == 0 ==> sys.Init(s)) && AvoidsFrom(s, trace, cumulative, k)
  }

  // ------------------------------------------------------------------
  // The clause database
  // ------------------------------------------------------------------

  ghost predicate BaseHolds(a: Assignment, sys: TransitionSystem, act: Activators)
    requires |act.frames| > 0
  {
    && (act.frames[0] in a ==> Models(a, sys.init))
    && (act.trans in a ==> Models(a, sys.trans))
    && (act.error in a ==> Models(a, sys.error))
  }

  /** Every clause kept for an active frame holds. */
  ghost predicate KeptCubesHold(a: Assignment, act: Activators, trace: Trace)
    requires |act.frames| == |trace|
  {
    forall k :: 0 <= k < |trace| && act.frames[k] in a ==> Avoids(a, trace[k])
  }

  /** Every active frame holds with its full meaning. */
  ghost predicate ActiveFramesHold(a: Assignment, act: Activators, trace: Trace, cumulative: bool)
    requires |act.frames| == |trace|
  {
    forall k :: 0 <= k < |trace| && act.frames[k] in a ==> AvoidsFrom(a, trace, cumulative, k)
  }

  /**
   * The solver agrees with the frames: its clauses entail those of the frames
   * and, stale ones included, are entailed by what the frames mean.
   */
  ghost predicate Synced(clauses: Cnf, sys: TransitionSystem, act: Activators, trace: Trace, cumulative: bool) {
    && |act.frames| == |trace| > 0
    && (forall a :: Models(a, clauses) ==> BaseHolds(a, sys, act) && KeptCubesHold(a, act, trace))
    && (forall a :: BaseHolds(a, sys, act) && ActiveFramesHold(a, act, trace, cumulative) ==> Models(a, clauses))
  }

  /**
   * Replacing a frame's subsumed cubes by the cube that subsumes them, while
   * the solver only gains the new clause, keeps the agreement: the clauses of
   * the deleted cubes go stale but stay implied.
   */
  lemma SyncedAfterBlocking(
    clauses: Cnf, clauses': Cnf, sys: TransitionSystem, act: Activators,
    trace: Trace, trace': Trace, cumulative: bool, c: Cube, k: int)
    requires Synced(clauses, sys, act, trace, cumulative)
    requires 0 <= k < |trace| == |trace'| && act.frames[k] > 0
    requires clauses' == clauses + Activate(NegateCube(c), act.frames[k])
    requires BlockedIn(trace, trace', cumulative, c, k)
    ensures Synced(clauses', sys, act, trace', cumulative)
  {
    forall a: Assignment
      ensures Models(a, clauses') <==> Models(a, clauses) && (act.frames[k] in a ==> !CubeTrue(a, c.literals))
    {
      ModelsConcat(a, clauses, Activate(NegateCube(c), act.frames[k]));
      ActivatedHolds(a, NegateCube(c), act.frames[k]);
    }
    forall a: Assignment | BaseHolds(a, sys, act) && ActiveFramesHold(a, act, trace', cumulative)
      ensures Models(a, clauses')
    {
      forall m | 0 <= m < |trace| && act.frames[m] in a
        ensures AvoidsFrom(a, trace, cumulative, m)
      {
        BlockingShrinks(trace, trace', cumulative, c, k, m, a);
      }
      assert ActiveFramesHold(a, act, trace, cumulative);
      if act.frames[k] in a {
        assert AvoidsFrom(a, trace', cumulative, k) && Avoids(a, trace'[k]);
      }
    }
  }

  /** The trace after blocking c at frame k and deleting subsumed cubes. */
  ghost predicate BlockedIn(trace: Trace, trace': Trace, cumulative: bool, c: Cube, k: int)
    requires 0 <= k < |trace| == |trace'|
  {
    && c in trace'[k]
    && (forall j, d {:trigger d in trace'[j]} ::
          0 <= j < |trace'| && d in trace'[j] ==> d in trace[j] || (j == k && d == c))
    && (forall j, d {:trigger d in trace[j]} :: 0 <= j < |trace| && d in trace[j] && d !in trace'[j] ==>
          Subsumes(c, d) && j <= k && (cumulative || j == k))
  }

  lemma BlockingShrinks(
    trace: Trace, trace': Trace, cumulative: bool, c: Cube, k: int, m: int, a: Assignment)
    requires 0 <= k < |trace| == |trace'| && 0 <= m
    requires BlockedIn(trace, trace', cumulative, c, k)
    requires AvoidsFrom(a, trace', cumulative, m)
    ensures AvoidsFrom(a, trace, cumulative, m)
  {
    forall j, d | m <= j < |trace| && (cumulative || j == m) && d in trace[j]
      ensures !CubeTrue(a, d.literals)
    {
      assert Avoids(a, trace'[j]);
      if d !in trace'[j] {
        SubsumesMeaning(c, d);
        assert Avoids(a, trace'[k]);
      }
    }
  }

  /** Blocking c at frame k removes exactly the states of c from R_k (and below, if cumulative). */
  lemma BlockingMeaning(
    sys: TransitionSystem, trace: Trace, trace': Trace, cumulative: bool, c: Cube, k: int, m: int, s: State)
    requires 0 <= k < |trace| == |trace'| && 0 <= m
    requires BlockedIn(trace, trace', cumulative, c, k)
    ensures InFrame(sys, trace', cumulative, m, s) <==>
            InFrame(sys, trace, cumulative, m, s)
            && ((if cumulative then m <= k else m == k) ==> !CubeTrue(s, c.literals))
  {
    if AvoidsFrom(s, trace', cumulative, m) {
      BlockingShrinks(trace, trace', cumulative, c, k, m, s);
      if m <= k && (cumulative || m == k) {
        assert Avoids(s, trace'[k]);
      }
    }
    if AvoidsFrom(s, trace, cumulative, m)
       && ((if cumulative then m <= k else m == k) ==> !CubeTrue(s, c.literals)) {
      forall j, d | m <= j < |trace'| && (cumulative || j == m) && d in trace'[j]
        ensures !CubeTrue(s, d.literals)
      {
        assert Avoids(s, trace[j]);
      }
    }
  }

  lemma SyncedAfterPush(
    clauses: Cnf, sys: TransitionSystem, act: Activators, act': Activators, trace: Trace, cumulative: bool)
    requires Synced(clauses, sys, act, trace, cumulative)
    requires |act'.frames| == |act.frames| + 1 && act'.frames[..|act.frames|] == act.frames
    requires act'.trans == act.trans && act'.error == act.error
    ensures Synced(clauses, sys, act', trace + [[]], cumulative)
  {
    var trace' := trace + [[]];
    forall k | 0 <= k < |trace|
      ensures act'.frames[k] == act.frames[k] && trace'[k] == trace[k]
    {
      assert act'.frames[..|act.frames|][k] == act.frames[k];
    }
    forall a: Assignment | Models(a, clauses)
      ensures BaseHolds(a, sys, act') && KeptCubesHold(a, act', trace')
    {
      assert KeptCubesHold(a, act, trace);
    }
    forall a: Assignment | BaseHolds(a, sys, act') && ActiveFramesHold(a, act', trace', cumulative)
      ensures Models(a, clauses)
    {
      forall k, j | 0 <= k < |trace| && act.frames[k] in a && k <= j < |trace| && (cumulative || j == k)
        ensures Avoids(a, trace[j])
      {
        assert AvoidsFrom(a, trace', cumulative, k);
        assert trace'[j] == trace[j];
      }
      assert ActiveFramesHold(a, act, trace, cumulative);
    }
  }

  // ------------------------------------------------------------------
  // What the answers to queries mean
  // ------------------------------------------------------------------

  /** A model under the activators of frame i encodes a state of R_i. */
  lemma ModelLiesInFrame(
    clauses: Cnf, sys: TransitionSystem, act: Activators, trace: Trace, cumulative: bool, a: Assignment, i: int)
    requires Synced(clauses, sys, act, trace, cumulative)
    requires sys.InitIsCube() && StateTrace(sys, trace)
    requires Models(a, clauses) && 0 <= i < |trace|
    requires forall j :: i <= j < |trace| && (cumulative || j == i) ==> act.frames[j] in a
    ensures InFrame(sys, trace, cumulative, i, a * sys.states.Vars())
  {
    var s := a * sys.states.Vars();
    assert BaseHolds(a, sys, act) && KeptCubesHold(a, act, trace);
    if i == 0 {
      assert act.frames[0] in a;
      sys.InitMeaning(a);
    }
    forall j, c | i <= j < |trace| && (cumulative || j == i) && c in trace[j]
      ensures !CubeTrue(s, c.literals)
    {
      assert Avoids(a, trace[j]);
      sys.StateCubeMeaning(a, c.literals);
    }
  }

  /**
   * Conversely, an assignment b of the system's variables together with a set
   * of activators whose formulas b satisfies is a model of the clauses.
   */
  lemma PayloadIsModel(
    clauses: Cnf, sys: TransitionSystem, act: Activators, trace: Trace, cumulative: bool,
    b: Assignment, on: set<int>)
    requires Synced(clauses, sys, act, trace, cumulative)
    requires act.Fresh(sys) && sys.DisjointRanges() && sys.InitIsCube() && StateTrace(sys, trace)
    requires CnfOver(sys.trans, sys.Vars()) && CnfOver(sys.error, sys.Vars())
    requires b <= sys.Vars() && on <= act.All()
    requires act.trans in on ==> Models(b, sys.trans)
    requires act.error in on ==> Models(b, sys.error)
    requires forall k :: 0 <= k < |trace| && act.frames[k] in on ==>
                           InFrame(sys, trace, cumulative, k, b * sys.states.Vars())
    ensures Models(b + on, clauses)
    ensures Agree(b + on, b, sys.Vars())
  {
    var a := b + on;
    assert Agree(a, b, sys.Vars());
    AgreeOnCnf(a, b, sys.Vars(), sys.trans);
    AgreeOnCnf(a, b, sys.Vars(), sys.error);
    assert forall v :: v in act.All() && v in a ==> v in on;
    assert a * sys.states.Vars() == b * sys.states.Vars();
    forall k | 0 <= k < |trace| && act.frames[k] in a
      ensures InFrame(sys, trace, cumulative, k, b * sys.states.Vars())
      ensures AvoidsFrom(a, trace, cumulative, k)
    {
      assert act.frames[k] in act.frames;
      assert act.frames[k] in act.All();
      forall j, c | k <= j < |trace| && (cumulative || j == k) && c in trace[j]
        ensures !CubeTrue(a, c.literals)
      {
        assert Avoids(b * sys.states.Vars(), trace[j]);
        sys.StateCubeMeaning(a, c.literals);
      }
    }
    sys.InitMeaning(a);
    assert BaseHolds(a, sys, act);
  }

  /** The payload made of a transition. */
  lemma StepIsModel(
    clauses: Cnf, sys: TransitionSystem, act: Activators, trace: Trace, cumulative: bool,
    p: State, y: Input, on: set<int>) returns (a: Assignment)
    requires Synced(clauses, sys, act, trace, cumulative)
    requires act.Fresh(sys) && sys.WellFormed() && StateTrace(sys, trace)
    requires sys.IsState(p) && sys.IsInput(y)
    requires on <= act.All() && act.error !in on
    requires forall k :: 0 <= k < |trace| && act.frames[k] in on ==> InFrame(sys, trace, cumulative, k, p)
    ensures Models(a, clauses) && on <= a
    ensures a * sys.states.Vars() == p && a * sys.inputs.Vars() == y
    ensures sys.UnprimeState(a) == sys.Succ(p, y)
  {
    hide Models, Synced, StateTrace, InFrame, TransitionSystem.Functional;
    var t := sys.Succ(p, y);
    var w :| sys.IsAux(w) && Models(sys.Join(p, y, t, w), sys.trans);
    var b := sys.Join(p, y, t, w);
    sys.JoinParts(p, y, t, w);
    assert b * sys.states.Vars() == p;
    PayloadIsModel(clauses, sys, act, trace, cumulative, b, on);
    a := b + on;
    AgreeingParts(sys, a, p, y, t, w);
  }

  /** An assignment that agrees with a joined one has the same parts. */
  lemma AgreeingParts(sys: TransitionSystem, a: Assignment, p: State, y: Input, t: State, w: set<int>)
    requires sys.DisjointRanges() && sys.IsState(p) && sys.IsInput(y) && sys.IsState(t) && sys.IsAux(w)
    requires Agree(a, sys.Join(p, y, t, w), sys.Vars())
    ensures a * sys.states.Vars() == p && a * sys.inputs.Vars() == y
    ensures sys.UnprimeState(a) == t
  {
    sys.JoinParts(p, y, t, w);
    forall v | sys.states.Contains(v)
      ensures sys.PrimeVar(v) in a <==> v in t
      ensures v in a <==> v in p
    {
      assert sys.PrimeVar(v) in sys.nexts.Vars() && v in sys.states.Vars();
    }
    forall v | sys.inputs.Contains(v)
      ensures v in a <==> v in y
    {
      assert v in sys.inputs.Vars();
    }
  }

  /** The payload made of an error. */
  lemma ErrorIsModel(
    clauses: Cnf, sys: TransitionSystem, act: Activators, trace: Trace, cumulative: bool,
    s: State, y: Input, on: set<int>) returns (a: Assignment)
    requires Synced(clauses, sys, act, trace, cumulative)
    requires act.Fresh(sys) && sys.WellFormed() && StateTrace(sys, trace)
    requires sys.IsState(s) && sys.IsInput(y) && sys.Error(s, y)
    requires on <= act.All() && act.trans !in on
    requires forall k :: 0 <= k < |trace| && act.frames[k] in on ==> InFrame(sys, trace, cumulative, k, s)
    ensures Models(a, clauses) && on <= a
  {
    var w :| sys.IsAux(w) && Models(s + y + w, sys.error);
    var b := s + y + w;
    forall v | v in b
      ensures v in sys.Vars()
    {
      assert sys.states.Contains(v) || sys.inputs.Contains(v) || sys.aux.Contains(v);
      assert v in sys.states.Vars() || v in sys.inputs.Vars() || v in sys.aux.Vars();
    }
    forall v | v in b && v in sys.states.Vars()
      ensures v in s
    {
      assert v in y ==> v in sys.inputs.Vars();
      assert v in w ==> v in sys.aux.Vars();
    }
    assert b * sys.states.Vars() == s by {
      assert forall v :: v in s ==> sys.states.Contains(v);
    }
    PayloadIsModel(clauses, sys, act, trace, cumulative, b, on);
    a := b + on;
  }

  // ------------------------------------------------------------------
  // Loading the solver anew
  // ------------------------------------------------------------------

  /** The clauses represent the base formulas, the frames below i and j cubes of frame i. */
  ghost predicate Loaded(clauses: Cnf, sys: TransitionSystem, act: Activators, trace: Trace, i: nat, j: nat)
    requires |act.frames| == |trace| > 0
    requires i <= |trace| && j <= (if i < |trace| then |trace[i]| else 0)
  {
    forall a :: Models(a, clauses) <==>
      && BaseHolds(a, sys, act)
      && (forall k :: 0 <= k < i && act.frames[k] in a ==> Avoids(a, trace[k]))
      && (i < |trace| && act.frames[i] in a ==> Avoids(a, trace[i][..j]))
  }

  lemma LoadedBase(clauses: Cnf, sys: TransitionSystem, act: Activators, trace: Trace)
    requires |act.frames| == |trace| > 0 && act.frames[0] > 0 && act.trans > 0 && act.error > 0
    requires clauses == Activate(sys.init, act.frames[0]) + Activate(sys.trans, act.trans)
                        + Activate(sys.error, act.error)
    ensures Loaded(clauses, sys, act, trace, 0, 0)
  {
    var f, g, h := Activate(sys.init, act.frames[0]), Activate(sys.trans, act.trans), Activate(sys.error, act.error);
    forall a: Assignment
      ensures Models(a, clauses) <==> BaseHolds(a, sys, act)
    {
      ModelsConcat(a, f + g, h);
      ModelsConcat(a, f, g);
      ActivatedHolds(a, sys.init, act.frames[0]);
      ActivatedHolds(a, sys.trans, act.trans);
      ActivatedHolds(a, sys.error, act.error);
    }
  }

  lemma LoadedCube(clauses: Cnf, sys: TransitionSystem, act: Activators, trace: Trace, i: nat, j: nat)
    requires |act.frames| == |trace| && i < |trace| && j < |trace[i]| && act.frames[i] > 0
    requires Loaded(clauses, sys, act, trace, i, j)
    ensures Loaded(clauses + Activate(NegateCube(trace[i][j]), act.frames[i]), sys, act, trace, i, j + 1)
  {
    var f := Activate(NegateCube(trace[i][j]), act.frames[i]);
    assert trace[i][..j + 1] == trace[i][..j] + [trace[i][j]];
    forall a: Assignment
      ensures Models(a, clauses + f) <==>
              Models(a, clauses) && (act.frames[i] in a ==> !CubeTrue(a, trace[i][j].literals))
    {
      ModelsConcat(a, clauses, f);
      ActivatedHolds(a, NegateCube(trace[i][j]), act.frames[i]);
    }
    forall a: Assignment
      ensures Avoids(a, trace[i][..j + 1]) <==>
              Avoids(a, trace[i][..j]) && !CubeTrue(a, trace[i][j].literals)
    {
      if Avoids(a, trace[i][..j + 1]) {
        assert trace[i][..j + 1][j] in trace[i][..j + 1];
      }
    }
  }

  lemma LoadedFrame(clauses: Cnf, sys: TransitionSystem, act: Activators, trace: Trace, i: nat)
    requires |act.frames| == |trace| && i < |trace|
    requires Loaded(clauses, sys, act, trace, i, |trace[i]|)
    ensures Loaded(clauses, sys, act, trace, i + 1, 0)
  {
    assert trace[i][..|trace[i]|] == trace[i];
    assert i + 1 < |trace| ==> trace[i + 1][..0] == [];
  }

  lemma LoadedIsSynced(clauses: Cnf, sys: TransitionSystem, act: Activators, trace: Trace, cumulative: bool)
    requires |act.frames| == |trace| > 0
    requires Loaded(clauses, sys, act, trace, |trace|, 0)
    ensures Synced(clauses, sys, act, trace, cumulative)
  {
    forall a: Assignment | BaseHolds(a, sys, act) && ActiveFramesHold(a, act, trace, cumulative)
      ensures Models(a, clauses)
    {
      forall k | 0 <= k < |trace| && act.frames[k] in a
        ensures Avoids(a, trace[k])
      {
        assert AvoidsFrom(a, trace, cumulative, k);
      }
    }
  }

  /** Empties the solver and asserts the base formulas and the current cubes. */
  method LoadSolver(
    solver: Solver, sys: TransitionSystem, act: Activators, trace: Trace,
    activatedInit: Cnf, activatedTrans: Cnf, activatedError: Cnf)
    requires |act.frames| == |trace| > 0
    requires 0 < act.trans && 0 < act.error && forall k :: 0 <= k < |act.frames| ==> act.frames[k] > 0
    requires activatedInit == Activate(sys.init, act.frames[0])
    requires activatedTrans == Activate(sys.trans, act.trans)
    requires activatedError == Activate(sys.error, act.error)
    modifies solver
    ensures Synced(solver.clauses, sys, act, trace, true)
    ensures Synced(solver.clauses, sys, act, trace, false)
  {
    solver.Reset();
    solver.AssertFormula(activatedInit);
    solver.AssertFormula(activatedTrans);
    solver.AssertFormula(activatedError);
    assert solver.clauses == activatedInit + activatedTrans + activatedError;
    LoadedBase(solver.clauses, sys, act, trace);
    for i := 0 to |trace|
      invariant Loaded(solver.clauses, sys, act, trace, i, 0)
    {
      for j := 0 to |trace[i]|
        invariant Loaded(solver.clauses, sys, act, trace, i, j)
        {
        LoadedCube(solver.clauses, sys, act, trace, i, j);
        solver.AssertFormula(Activate(NegateCube(trace[i][j]), act.frames[i]));
      }
      LoadedFrame(solver.clauses, sys, act, trace, i);
    }
    LoadedIsSynced(solver.clauses, sys, act, trace, true);
    LoadedIsSynced(solver.clauses, sys, act, trace, false);
  }

  /** Swap-and-pop deletion of the cubes that c subsumes. */
  method RemoveSubsumed(cubes: seq<Cube>, c: Cube) returns (rest: seq<Cube>)
    ensures forall d :: d in rest <==> d in cubes && !Subsumes(c, d)
  {
    rest := cubes;
    var i := 0;
    while i < |rest|
      invariant 0 <= i <= |rest|
      invariant forall k :: 0 <= k < i ==> !Subsumes(c, rest[k])
      invariant forall d :: d in rest ==> d in cubes
      invariant forall d :: d in cubes && !Subsumes(c, d) ==> d in rest
      decreases |rest| - i
    {
      if Subsumes(c, rest[i]) {
        ghost var before := rest;
        var last := rest[|rest| - 1];
        rest := rest[i := last];
        rest := rest[..|rest| - 1];
        forall d | d in before && !Subsumes(c, d)
          ensures d in rest
        {
          var k :| 0 <= k < |before| && before[k] == d;
          assert k != i;
          if k < |before| - 1 {
            assert rest[k] == d;
          } else {
            assert rest[i] == d;
          }
        }
      } else {
        i := i + 1;
      }
    }
  }
}
