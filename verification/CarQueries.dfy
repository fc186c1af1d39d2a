/**
 * What the answers to the queries of the forward CAR engine mean
 * (src/engine/car.cpp), stated on values.
 */
module CarQueries {
  import opened Logic
  import opened TransitionSystems
  import opened Solvers
  import opened Frames
  import opened FrameInvariants
  import opened Chains
  import opened Queries

  /**
   * The two queries whose assumptions get minimised: does some state of the
   * assumed cube step out of s under the inputs, and does some state of frame
   * `from` step into the assumed (primed) cube?
   */
  datatype CoreQuery =
    | PredecessorQuery(s: seq<Literal>, ins: seq<Literal>)
    | BlockedQuery(from: nat)

  ghost predicate QueryOk(sys: TransitionSystem, trace: Trace, kind: CoreQuery) {
    match kind
    case PredecessorQuery(s, ins) =>
      && sys.IsStateCube(s) && LitsOver(ins, sys.inputs.Vars())
      && sys.IsInput(TrueVars(ins)) && CubeTrue(TrueVars(ins), ins)
      && (forall a :: CubeTrue(a, ins) ==> a * sys.inputs.Vars() == TrueVars(ins))
    case BlockedQuery(from) => from < |trace|
  }

  /** The literals a query assumes are over state or next-state variables. */
  predicate QueryLits(sys: TransitionSystem, kind: CoreQuery, ls: seq<Literal>) {
    match kind
    case PredecessorQuery(_, _) => sys.IsStateCube(ls)
    case BlockedQuery(_) => sys.IsNextStateCube(ls)
  }

  /** What a negative answer means for the assumed literals. */
  ghost predicate Refuted(sys: TransitionSystem, trace: Trace, kind: CoreQuery, ls: seq<Literal>)
    requires sys.WellFormed() && QueryOk(sys, trace, kind) && QueryLits(sys, kind, ls)
  {
    match kind
    case PredecessorQuery(s, ins) => LeadsInto(sys, ls, TrueVars(ins), s)
    case BlockedQuery(from) => Blockable(sys, trace, false, sys.UnprimeAll(ls), from)
  }

  function BaseLits(kind: CoreQuery, act: Activators): set<Literal>
    requires kind.BlockedQuery? ==> kind.from < |act.frames|
  {
    match kind
    case PredecessorQuery(s, ins) => LitSet([act.trans]) + LitSet(ins)
    case BlockedQuery(from) => LitSet([act.frames[from]]) + LitSet([act.trans])
  }

  function QueryConstraint(sys: TransitionSystem, kind: CoreQuery): Cnf
    requires sys.DisjointRanges() && (kind.PredecessorQuery? ==> sys.IsStateCube(kind.s))
  {
    match kind
    case PredecessorQuery(s, ins) => [NotAll(sys.PrimeAll(s))]
    case BlockedQuery(from) => []
  }

  /** Any part of the assumed literals that contains the failed ones is refuted, too. */
  ghost predicate CoreRefutes(
    sys: TransitionSystem, trace: Trace, kind: CoreQuery, ls: seq<Literal>, core: set<Literal>)
    requires sys.WellFormed() && QueryOk(sys, trace, kind)
  {
    forall c: seq<Literal> {:trigger QueryLits(sys, kind, c)} ::
      QueryLits(sys, kind, c) && (forall l :: l in ls && l in core ==> l in c) ==> Refuted(sys, trace, kind, c)
  }

  lemma RequeryUnsat(
    clauses: Cnf, sys: TransitionSystem, act: Activators, trace: Trace, bound: int, kind: CoreQuery,
    ls: seq<Literal>, core: set<Literal>)
    requires Synced(clauses, sys, act, trace, false) && Setup(sys, act, |trace|, bound)
    requires StateTrace(sys, trace) && QueryOk(sys, trace, kind) && QueryLits(sys, kind, ls)
    requires core <= BaseLits(kind, act) + LitSet(ls)
    requires forall a :: !Answers(a, clauses, core, QueryConstraint(sys, kind))
    ensures CoreRefutes(sys, trace, kind, ls, core)
  {
    forall c: seq<Literal> | QueryLits(sys, kind, c) && (forall l :: l in ls && l in core ==> l in c)
      ensures Refuted(sys, trace, kind, c)
    {
      match kind {
        case PredecessorQuery(s, ins) =>
          assert QueryConstraint(sys, kind) == [NotAll(sys.PrimeAll(s))];
          PredecessorCoreLeadsIn(clauses, sys, act, trace, false, s, ins, c, core, TrueVars(ins));
        case BlockedQuery(from) =>
          assert QueryConstraint(sys, kind) == [];
          BlockedQueryUnsat(clauses, sys, act, trace, bound, from, c, core);
      }
    }
  }

  lemma BlockedQueryUnsat(
    clauses: Cnf, sys: TransitionSystem, act: Activators, trace: Trace, bound: int, from: nat,
    c: seq<Literal>, core: set<Literal>)
    requires Synced(clauses, sys, act, trace, false) && Setup(sys, act, |trace|, bound)
    requires StateTrace(sys, trace) && from < |trace| && sys.IsNextStateCube(c)
    requires forall l :: l in core ==> l == act.frames[from] || l == act.trans || l in c
    requires forall a :: !Answers(a, clauses, core, [])
    ensures Blockable(sys, trace, false, sys.UnprimeAll(c), from)
  {
    var u := sys.UnprimeAll(c);
    UnprimedTwice(sys, c);
    forall p, y | sys.IsState(p) && sys.IsInput(y) && InFrame(sys, trace, false, from, p)
      ensures !CubeTrue(sys.Succ(p, y), u)
    {
      var on: set<int> := {act.frames[from], act.trans};
      assert act.frames[from] in act.frames;
      SingleFrame(sys, act, trace, bound, from, on);
      var a := StepIsModel(clauses, sys, act, trace, false, p, y, on);
      sys.PrimedCubeMeaning(a, u);
      if CubeTrue(sys.Succ(p, y), u) {
        assert CubeTrue(a, c);
        assert Answers(a, clauses, core, []);
        assert false;
      }
    }
  }

  lemma SingleFrame(
    sys: TransitionSystem, act: Activators, trace: Trace, bound: int, from: nat, on: set<int>)
    requires Setup(sys, act, |trace|, bound) && from < |trace|
    requires on <= {act.frames[from], act.trans} || on <= {act.frames[from], act.error}
    ensures on <= act.All()
    ensures on <= {act.frames[from], act.trans} ==> act.error !in on
    ensures forall k :: 0 <= k < |trace| && act.frames[k] in on ==> k == from
    ensures act.frames[from] > 0
  {
    assert forall k :: 0 <= k < |trace| ==> act.frames[k] in act.frames;
  }

  /** Unpriming and priming again gives the same vector. */
  lemma UnprimedTwice(sys: TransitionSystem, c: seq<Literal>)
    requires sys.DisjointRanges() && sys.IsNextStateCube(c)
    ensures sys.PrimeAll(sys.UnprimeAll(c)) == c
  {
    var u := sys.UnprimeAll(c);
    forall i | 0 <= i < |c|
      ensures sys.PrimeAll(u)[i] == c[i]
    {
      assert c[i] in c;
      assert u[i] == sys.Unprime(c[i]);
    }
  }

  lemma PrimedTwice(sys: TransitionSystem, s: seq<Literal>)
    requires sys.DisjointRanges() && sys.IsStateCube(s)
    ensures sys.UnprimeAll(sys.PrimeAll(s)) == s
  {
    var q := sys.PrimeAll(s);
    forall i | 0 <= i < |s|
      ensures sys.UnprimeAll(q)[i] == s[i]
    {
      assert q[i] in q && s[i] in s;
      assert sys.Unprime(q[i]) == s[i];
    }
  }

  lemma RequerySat(
    clauses: Cnf, sys: TransitionSystem, act: Activators, trace: Trace, bound: int, kind: CoreQuery,
    ls: seq<Literal>, m: Assignment)
    requires Synced(clauses, sys, act, trace, false) && Setup(sys, act, |trace|, bound)
    requires StateTrace(sys, trace) && QueryOk(sys, trace, kind) && QueryLits(sys, kind, ls)
    requires Answers(m, clauses, BaseLits(kind, act) + LitSet(ls), QueryConstraint(sys, kind))
    ensures !Refuted(sys, trace, kind, ls)
    ensures kind.BlockedQuery? ==> StepsInto(sys, trace, sys.UnprimeAll(ls), kind.from, m)
  {
    assert act.trans in [act.trans] && LitTrue(m, act.trans);
    var p, y := m * sys.states.Vars(), m * sys.inputs.Vars();
    sys.ModelOfTransIsStep(m);
    assert CubeTrue(m, ls);
    match kind {
      case PredecessorQuery(s, ins) =>
        sys.StateCubeMeaning(m, ls);
        assert CubeTrue(m, ins);
        sys.PrimedCubeMeaning(m, s);
        NegatedCube(m, sys.PrimeAll(s));
        assert [NotAll(sys.PrimeAll(s))][0] == NotAll(sys.PrimeAll(s));
      case BlockedQuery(from) =>
        assert act.frames[from] in [act.frames[from]] && LitTrue(m, act.frames[from]);
        assert act.frames[from] in act.frames;
        ModelLiesInFrame(clauses, sys, act, trace, false, m, from);
        UnprimedTwice(sys, ls);
        sys.PrimedCubeMeaning(m, sys.UnprimeAll(ls));
    }
  }

  /** The model encodes a state of frame `from` that steps into s. */
  ghost predicate StepsInto(sys: TransitionSystem, trace: Trace, s: seq<Literal>, from: nat, m: Assignment)
    requires sys.WellFormed()
  {
    var p, y := m * sys.states.Vars(), m * sys.inputs.Vars();
    && sys.IsState(p) && sys.IsInput(y)
    && InFrame(sys, trace, false, from, p)
    && CubeTrue(sys.Succ(p, y), s)
  }

  /** More assumptions keep a query refuted: the only property core minimisation needs. */
  lemma RefutedIsMonotone(
    sys: TransitionSystem, act: Activators, bound: int, trace: Trace, kind: CoreQuery,
    c: seq<Literal>, d: seq<Literal>)
    requires Setup(sys, act, |trace|, bound)
    requires QueryOk(sys, trace, kind) && QueryLits(sys, kind, c) && QueryLits(sys, kind, d)
    requires Refuted(sys, trace, kind, c) && forall l :: l in c ==> l in d
    ensures Refuted(sys, trace, kind, d)
  {
    match kind {
      case PredecessorQuery(s, ins) =>
        forall q | CubeTrue(q, d)
          ensures CubeTrue(q, c)
        {
        }
      case BlockedQuery(from) =>
        var uc, ud := sys.UnprimeAll(c), sys.UnprimeAll(d);
        forall l | l in uc
          ensures l in ud
        {
          assert sys.Prime(l) in c;
        }
        forall p, y | sys.IsState(p) && sys.IsInput(y) && InFrame(sys, trace, false, from, p)
          ensures !CubeTrue(sys.Succ(p, y), ud)
        {
          assert !CubeTrue(sys.Succ(p, y), uc);
        }
    }
  }

  // ------------------------------------------------------------------
  // What the kept literals are
  // ------------------------------------------------------------------

  /** No single literal can be left out while the cube has no predecessor in frame j. */
  ghost predicate MinimalBlocked(sys: TransitionSystem, trace: Trace, c: seq<Literal>, j: nat)
    requires sys.WellFormed()
  {
    forall l :: l in c ==> !Blockable(sys, trace, false, Remove(c, l), j)
  }

  /** Exactly the literals of s whose primed version failed. */
  ghost predicate FailedOnly(sys: TransitionSystem, s: seq<Literal>, failed: set<Literal>, c: seq<Literal>)
    requires sys.DisjointRanges() && sys.IsStateCube(s)
  {
    forall l :: l in c <==> l in s && sys.Prime(l) in failed
  }

  /** No single literal can be left out of a stored predecessor without losing the step into s. */
  ghost predicate MinimalLead(sys: TransitionSystem, e: Entry, s: seq<Literal>)
    requires sys.WellFormed()
  {
    && sys.IsInput(TrueVars(e.input.literals))
    && forall l :: l in e.state.literals ==>
         !LeadsInto(sys, Remove(e.state.literals, l), TrueVars(e.input.literals), s)
  }

  /** No single literal of the assumed ones can be left out of a refuted query. */
  ghost predicate MinimalRefuted(sys: TransitionSystem, trace: Trace, kind: CoreQuery, ls: seq<Literal>)
    requires sys.WellFormed() && QueryOk(sys, trace, kind) && QueryLits(sys, kind, ls)
  {
    forall l :: l in ls ==> !Refuted(sys, trace, kind, Remove(ls, l))
  }

  lemma UnprimedIsMinimal(
    sys: TransitionSystem, act: Activators, bound: int, trace: Trace, from: nat, core: seq<Literal>)
    requires Setup(sys, act, |trace|, bound) && from < |trace| && sys.IsNextStateCube(core)
    requires MinimalRefuted(sys, trace, BlockedQuery(from), core)
    ensures MinimalBlocked(sys, trace, MakeCube(sys.UnprimeAll(core)).literals, from)
  {
    var c := MakeCube(sys.UnprimeAll(core)).literals;
    hide Blockable, TransitionSystem.WellFormed;
    forall l | l in c
      ensures !Blockable(sys, trace, false, Remove(c, l), from)
    {
      UnprimedWithout(sys, core, l);
      var less := sys.UnprimeAll(Remove(core, sys.Prime(l)));
      assert !Refuted(sys, trace, BlockedQuery(from), Remove(core, sys.Prime(l)));
      if Blockable(sys, trace, false, Remove(c, l), from) {
        BlockableIsMonotone(sys, trace, from, Remove(c, l), less);
      }
    }
  }

  lemma UnprimedWithout(sys: TransitionSystem, core: seq<Literal>, l: Literal)
    requires sys.DisjointRanges() && sys.IsNextStateCube(core) && l in sys.UnprimeAll(core)
    ensures sys.states.Contains(VarOf(l)) && sys.Prime(l) in core
    ensures forall k :: k in sys.UnprimeAll(core) && k != l ==> k in sys.UnprimeAll(Remove(core, sys.Prime(l)))
  {
    forall k | k in sys.UnprimeAll(core) && k != l
      ensures k in sys.UnprimeAll(Remove(core, sys.Prime(l)))
    {
      PrimedTwice(sys, [k]);
      PrimedTwice(sys, [l]);
      assert sys.UnprimeAll(sys.PrimeAll([k]))[0] == k && sys.UnprimeAll(sys.PrimeAll([l]))[0] == l;
    }
  }

  lemma BlockableIsMonotone(sys: TransitionSystem, trace: Trace, j: nat, c: seq<Literal>, d: seq<Literal>)
    requires sys.WellFormed() && Blockable(sys, trace, false, c, j) && forall l :: l in c ==> l in d
    ensures Blockable(sys, trace, false, d, j)
  {
    forall p, y | sys.IsState(p) && sys.IsInput(y) && InFrame(sys, trace, false, j, p)
      ensures !CubeTrue(sys.Succ(p, y), d)
    {
      assert !CubeTrue(sys.Succ(p, y), c);
    }
  }

  lemma UnprimedIsFailed(sys: TransitionSystem, s: seq<Literal>, failed: set<Literal>, core: seq<Literal>)
    requires sys.DisjointRanges() && sys.IsStateCube(s) && sys.IsNextStateCube(core)
    requires forall l :: l in core <==> l in sys.PrimeAll(s) && l in failed
    ensures FailedOnly(sys, s, failed, MakeCube(sys.UnprimeAll(core)).literals)
  {
    var c := MakeCube(sys.UnprimeAll(core)).literals;
    PrimedTwice(sys, s);
    forall l
      ensures l in c <==> l in s && sys.Prime(l) in failed
    {
      if l in c {
        assert l in sys.UnprimeAll(core) && sys.Prime(l) in sys.PrimeAll(s);
        assert l in sys.UnprimeAll(sys.PrimeAll(s));
      }
      if l in s && sys.Prime(l) in failed {
        assert l in sys.UnprimeAll(core);
      }
    }
  }

  lemma StoredIsMinimal(
    sys: TransitionSystem, trace: Trace, s: seq<Literal>, ins: seq<Literal>, core: seq<Literal>, e: Entry)
    requires sys.WellFormed() && QueryOk(sys, trace, PredecessorQuery(s, ins)) && sys.IsStateCube(core)
    requires MinimalRefuted(sys, trace, PredecessorQuery(s, ins), core)
    requires e.state == MakeCube(core) && e.input == MakeCube(ins)
    ensures MinimalLead(sys, e, s)
  {
    assert TrueVars(e.input.literals) == TrueVars(ins);
    forall l | l in e.state.literals
      ensures !LeadsInto(sys, Remove(e.state.literals, l), TrueVars(ins), s)
    {
      assert !Refuted(sys, trace, PredecessorQuery(s, ins), Remove(core, l));
      var q :| sys.IsState(q) && CubeTrue(q, Remove(core, l)) && !CubeTrue(sys.Succ(q, TrueVars(ins)), s);
      assert CubeTrue(q, Remove(e.state.literals, l));
    }
  }

  // ------------------------------------------------------------------
  // Error and blocking queries of a single frame
  // ------------------------------------------------------------------

  lemma NoErrorState(
    clauses: Cnf, sys: TransitionSystem, act: Activators, trace: Trace, bound: int, core: set<Literal>)
    requires Synced(clauses, sys, act, trace, false) && Setup(sys, act, |trace|, bound)
    requires StateTrace(sys, trace)
    requires core <= LitSet([act.frames[|trace| - 1]]) + LitSet([act.error])
    requires forall a :: !Answers(a, clauses, core, [])
    ensures NoErrorIn(sys, trace, false, |trace| - 1)
  {
    var d := |trace| - 1;
    var on: set<int> := {act.error, act.frames[d]};
    SingleFrame(sys, act, trace, bound, d, on);
    assert act.frames[d] in act.frames;
    ErrorUnsat(clauses, sys, act, trace, false, d, on, core);
  }

  lemma ErrorStateFound(
    clauses: Cnf, sys: TransitionSystem, act: Activators, trace: Trace, bound: int, pool: Pool, m: Assignment)
    requires Synced(clauses, sys, act, trace, false) && Setup(sys, act, |trace|, bound)
    requires StateTrace(sys, trace) && PoolOk(sys, pool) && Models(m, clauses)
    requires AllTrue(m, LitSet([act.frames[|trace| - 1]]) + LitSet([act.error]))
    ensures var e := Entry(MakeCube(ValuationOf(m, sys.states)), MakeCube(ValuationOf(m, sys.inputs)), None);
            && PoolOk(sys, pool + [e])
            && !Blocked(sys, trace, false, |trace| - 1, e.state.literals)
            && (|trace| == 1 ==> MeetsInit(sys, e.state.literals))
  {
    var d := |trace| - 1;
    assert act.frames[d] in [act.frames[d]] && LitTrue(m, act.frames[d]);
    assert act.error in [act.error] && LitTrue(m, act.error);
    assert act.frames[d] in act.frames;
    ErrorSat(clauses, sys, act, trace, false, d, m);
    var e := Entry(MakeCube(ValuationOf(m, sys.states)), MakeCube(ValuationOf(m, sys.inputs)), None);
    ErrorEntry(sys, pool, m, e);
    PoolExtends(sys, pool, e);
    FullCube(sys, m, e.state);
    var s := m * sys.states.Vars();
    assert sys.IsState(s) && CubeTrue(s, e.state.literals);
  }

  lemma StillMeetsFrame(
    clauses: Cnf, sys: TransitionSystem, act: Activators, trace: Trace, bound: int, s: seq<Literal>, i: nat,
    m: Assignment)
    requires Synced(clauses, sys, act, trace, false) && Setup(sys, act, |trace|, bound)
    requires StateTrace(sys, trace) && sys.IsStateCube(s) && i < |trace|
    requires Models(m, clauses) && AllTrue(m, LitSet([act.frames[i]]) + LitSet(s))
    ensures !Blocked(sys, trace, false, i, s)
  {
    assert act.frames[i] in [act.frames[i]] && LitTrue(m, act.frames[i]);
    assert act.frames[i] in act.frames;
    ModelLiesInFrame(clauses, sys, act, trace, false, m, i);
    sys.StateCubeMeaning(m, s);
    var p := m * sys.states.Vars();
    assert sys.IsState(p) && CubeTrue(p, s);
  }

  lemma MeetsFrameNoMore(
    clauses: Cnf, sys: TransitionSystem, act: Activators, trace: Trace, bound: int, s: seq<Literal>, i: nat,
    core: set<Literal>)
    requires Synced(clauses, sys, act, trace, false) && Setup(sys, act, |trace|, bound)
    requires StateTrace(sys, trace) && sys.IsStateCube(s) && i < |trace|
    requires core <= LitSet([act.frames[i]]) + LitSet(s)
    requires forall a :: !Answers(a, clauses, core, [])
    ensures Blocked(sys, trace, false, i, s)
  {
    var on: set<int> := {act.frames[i]};
    SingleFrame(sys, act, trace, bound, i, on);
    assert act.frames[i] in act.frames;
    BlockedUnsat(clauses, sys, act, trace, false, s, i, on, core);
  }

  // ------------------------------------------------------------------
  // Blocking
  // ------------------------------------------------------------------

  lemma CarBlockedAt(
    clauses: Cnf, sys: TransitionSystem, act: Activators, bound: int, trace: Trace, trace': Trace, c: Cube, k: nat)
    requires Synced(clauses, sys, act, trace, false) && Setup(sys, act, |trace|, bound)
    requires FrameInvariant(sys, trace, false)
    requires 1 <= k < |trace| == |act.frames| && act.frames[k] > 0
    requires sys.IsStateCube(c.literals) && Blockable(sys, trace, false, c.literals, k - 1)
    requires BlockedBetween(trace, trace', c, k, k)
    ensures FrameInvariant(sys, trace', false) && |trace'| == |trace|
    ensures Synced(clauses + Activate(NegateCube(c), act.frames[k]), sys, act, trace', false)
    ensures SizeFrom(sys, trace', false, 1) <= SizeFrom(sys, trace, false, 1)
    ensures !Blocked(sys, trace, false, k, c.literals) ==>
              SizeFrom(sys, trace', false, 1) < SizeFrom(sys, trace, false, 1)
    ensures Blocked(sys, trace', false, k, c.literals)
    ensures forall m, s :: 0 <= m && m != k ==>
              (InFrame(sys, trace', false, m, s) <==> InFrame(sys, trace, false, m, s))
  {
    hide Synced, FrameInvariant, Setup;
    SingleFrameBlockedIn(trace, trace', c, k);
    SyncedAfterBlocking(
      clauses, clauses + Activate(NegateCube(c), act.frames[k]), sys, act, trace, trace', false, c, k);
    CarBlockingKeeps(sys, act, bound, trace, trace', c, k);
    BlockingShrinksFrames(sys, trace, trace', false, c, k);
    forall p | sys.IsState(p) && InFrame(sys, trace', false, k, p)
      ensures !CubeTrue(p, c.literals)
    {
      BlockingMeaning(sys, trace, trace', false, c, k, k, p);
    }
    forall m, s | 0 <= m && m != k
      ensures InFrame(sys, trace', false, m, s) <==> InFrame(sys, trace, false, m, s)
    {
      BlockingMeaning(sys, trace, trace', false, c, k, m, s);
    }
  }

  lemma CarBlockingKeeps(
    sys: TransitionSystem, act: Activators, bound: int, trace: Trace, trace': Trace, c: Cube, k: nat)
    requires Setup(sys, act, |trace|, bound) && FrameInvariant(sys, trace, false)
    requires 1 <= k < |trace| == |trace'| && BlockedIn(trace, trace', false, c, k)
    requires sys.IsStateCube(c.literals) && Blockable(sys, trace, false, c.literals, k - 1)
    ensures FrameInvariant(sys, trace', false)
  {
    BlockingKeepsInvariant(sys, trace, trace', false, c, k, k - 1);
  }

  lemma SingleFrameBlockedIn(trace: Trace, trace': Trace, c: Cube, k: int)
    requires 0 <= k < |trace| && BlockedBetween(trace, trace', c, k, k)
    ensures |trace'| == |trace| && BlockedIn(trace, trace', false, c, k)
  {
  }

  // ------------------------------------------------------------------
  // The two tests for safety
  // ------------------------------------------------------------------

  /** No state of R_i steps out of R_i. */
  ghost predicate ClosedFrame(sys: TransitionSystem, trace: Trace, i: nat)
    requires sys.WellFormed()
  {
    forall p, y {:trigger sys.Succ(p, y)} ::
      sys.IsState(p) && sys.IsInput(y) && InFrame(sys, trace, false, i, p) ==>
        InFrame(sys, trace, false, i, sys.Succ(p, y))
  }

  /** R_i lies within the union of the earlier frames. */
  ghost predicate CoveredFrame(sys: TransitionSystem, trace: Trace, i: nat) {
    forall s :: sys.IsState(s) && InFrame(sys, trace, false, i, s) ==> InEarlierFrame(sys, trace, i, s)
  }

  ghost predicate InEarlierFrame(sys: TransitionSystem, trace: Trace, i: nat, s: State) {
    exists k :: 0 <= k < i && InFrame(sys, trace, false, k, s)
  }

  ghost function UnionBelow(sys: TransitionSystem, trace: Trace, i: nat): (ss: set<State>)
    ensures forall s :: s in ss <==> sys.IsState(s) && InEarlierFrame(sys, trace, i, s)
  {
    set s | s in AllStates(sys) && InEarlierFrame(sys, trace, i, s)
  }

  /** Frames 0, ..., i with R_i closed under successors form an inductive invariant. */
  lemma ClosedFrameIsSafe(sys: TransitionSystem, act: Activators, bound: int, trace: Trace, i: nat)
    requires Setup(sys, act, |trace|, bound) && FrameInvariant(sys, trace, false)
    requires 1 <= i < |trace| - 1 && ClosedFrame(sys, trace, i)
    ensures sys.InductiveInvariant(UnionBelow(sys, trace, i + 1))
    ensures !sys.Unsafe()
  {
    var inv := UnionBelow(sys, trace, i + 1);
    UnionHasInit(sys, trace, i + 1);
    forall s, y | s in inv && sys.IsState(s) && sys.IsInput(y)
      ensures sys.Succ(s, y) in inv
    {
      var k :| 0 <= k < i + 1 && InFrame(sys, trace, false, k, s);
      assert InFrame(sys, trace, false, k + 1, sys.Succ(s, y));
      if k == i {
        assert InFrame(sys, trace, false, i, sys.Succ(s, y));
      }
    }
    UnionHasNoError(sys, trace, i + 1);
    sys.InvariantProvesSafety(inv);
  }

  /** If R_i brings nothing new, the earlier frames form an inductive invariant. */
  lemma CoveredFrameIsSafe(sys: TransitionSystem, act: Activators, bound: int, trace: Trace, i: nat)
    requires Setup(sys, act, |trace|, bound) && FrameInvariant(sys, trace, false)
    requires 1 <= i < |trace| && CoveredFrame(sys, trace, i)
    ensures sys.InductiveInvariant(UnionBelow(sys, trace, i))
    ensures !sys.Unsafe()
  {
    var inv := UnionBelow(sys, trace, i);
    UnionHasInit(sys, trace, i);
    forall s, y | s in inv && sys.IsState(s) && sys.IsInput(y)
      ensures sys.Succ(s, y) in inv
    {
      var k :| 0 <= k < i && InFrame(sys, trace, false, k, s);
      assert InFrame(sys, trace, false, k + 1, sys.Succ(s, y));
      if k + 1 == i {
        assert InEarlierFrame(sys, trace, i, sys.Succ(s, y));
      }
    }
    UnionHasNoError(sys, trace, i);
    sys.InvariantProvesSafety(inv);
  }

  lemma UnionHasInit(sys: TransitionSystem, trace: Trace, i: nat)
    requires sys.WellFormed() && FrameInvariant(sys, trace, false) && i >= 1
    ensures forall s :: sys.IsState(s) && sys.Init(s) ==> s in UnionBelow(sys, trace, i)
  {
    forall s | sys.IsState(s) && sys.Init(s)
      ensures s in UnionBelow(sys, trace, i)
    {
      assert InFrame(sys, trace, false, 0, s);
    }
  }

  lemma UnionHasNoError(sys: TransitionSystem, trace: Trace, i: nat)
    requires sys.WellFormed() && FrameInvariant(sys, trace, false) && i < |trace|
    ensures forall s, y :: s in UnionBelow(sys, trace, i) && sys.IsInput(y) ==> !sys.Error(s, y)
  {
    forall s, y | s in UnionBelow(sys, trace, i) && sys.IsInput(y)
      ensures !sys.Error(s, y)
    {
      var k :| 0 <= k < i && InFrame(sys, trace, false, k, s);
      assert NoErrorIn(sys, trace, false, k);
    }
  }

  /** None of the frames 1, ..., i - 1 lies within the earlier ones. */
  ghost predicate NoneCoveredBelow(sys: TransitionSystem, trace: Trace, i: int)
    requires sys.WellFormed()
  {
    forall k :: 1 <= k < i ==> !CoveredFrame(sys, trace, k)
  }

  lemma NoneCoveredOneMore(sys: TransitionSystem, trace: Trace, i: nat)
    requires sys.WellFormed() && NoneCoveredBelow(sys, trace, i) && !CoveredFrame(sys, trace, i)
    ensures NoneCoveredBelow(sys, trace, i + 1)
  {
    hide CoveredFrame;
  }

  /** If every frame brings a new state, the union of the first i frames has at least i states. */
  lemma {:induction false} UnionGrows(sys: TransitionSystem, act: Activators, bound: int, trace: Trace, i: nat)
    requires Setup(sys, act, |trace|, bound) && FrameInvariant(sys, trace, false)
    requires 1 <= i <= |trace| && NoneCoveredBelow(sys, trace, |trace|)
    ensures i <= |UnionBelow(sys, trace, i)|
  {
    if i == 1 {
      var s := InitIsNotEmpty(sys);
      assert InFrame(sys, trace, false, 0, s);
      assert s in UnionBelow(sys, trace, 1);
    } else {
      UnionGrows(sys, act, bound, trace, i - 1);
      assert !CoveredFrame(sys, trace, i - 1);
      var s :| sys.IsState(s) && InFrame(sys, trace, false, i - 1, s) && !InEarlierFrame(sys, trace, i - 1, s);
      assert InEarlierFrame(sys, trace, i, s);
      forall t | InEarlierFrame(sys, trace, i - 1, t)
        ensures InEarlierFrame(sys, trace, i, t)
      {
        var k :| 0 <= k < i - 1 && InFrame(sys, trace, false, k, t);
      }
      assert s in UnionBelow(sys, trace, i) && s !in UnionBelow(sys, trace, i - 1);
      SubsetIsSmaller(UnionBelow(sys, trace, i - 1), UnionBelow(sys, trace, i));
    }
  }

  /** As long as every frame brings a new state, there are at most as many frames as states. */
  lemma CarDepthBound(sys: TransitionSystem, act: Activators, bound: int, trace: Trace)
    requires Setup(sys, act, |trace|, bound) && FrameInvariant(sys, trace, false)
    requires NoneCoveredBelow(sys, trace, |trace|)
    ensures sys.states.Size() >= 0 && |trace| <= Pow2(sys.states.Size())
  {
    StatesCount(sys);
    UnionGrows(sys, act, bound, trace, |trace|);
    SubsetIsSmaller(UnionBelow(sys, trace, |trace|), AllStates(sys));
  }

  /** The first k cubes of frame i could be pushed. */
  ghost predicate PushedUpTo(sys: TransitionSystem, trace: Trace, i: nat, k: nat)
    requires sys.WellFormed() && i < |trace|
  {
    k <= |trace[i]| && forall m :: 0 <= m < k ==> Blockable(sys, trace, false, trace[i][m].literals, i)
  }

  /** Only frame k may have changed. */
  ghost predicate OnlyFrame(trace: Trace, trace': Trace, k: int) {
    |trace'| == |trace| && forall j :: 0 <= j < |trace| && j != k ==> trace'[j] == trace[j]
  }

  lemma OnlyFrameTwice(trace: Trace, trace': Trace, trace'': Trace, k: int)
    requires OnlyFrame(trace, trace', k) && OnlyFrame(trace', trace'', k)
    ensures OnlyFrame(trace, trace'', k)
  {
  }

  /** If no state of R_i steps into the cube, R_i+1 has no state in it. */
  ghost predicate CubePushed(sys: TransitionSystem, trace: Trace, i: nat, c: Cube)
    requires sys.WellFormed()
  {
    Blockable(sys, trace, false, c.literals, i) ==> Blocked(sys, trace, false, i + 1, c.literals)
  }

  /** The first k cubes of frame i have been pushed if that was possible. */
  ghost predicate LevelPushed(sys: TransitionSystem, trace: Trace, i: nat, k: nat)
    requires sys.WellFormed() && i < |trace|
  {
    k <= |trace[i]| && forall m :: 0 <= m < k ==> CubePushed(sys, trace, i, trace[i][m])
  }

  /** R_j depends on frame j only. */
  lemma SameFrame(sys: TransitionSystem, trace: Trace, trace': Trace, j: nat)
    requires j < |trace| == |trace'| && trace'[j] == trace[j]
    ensures forall s :: InFrame(sys, trace', false, j, s) <==> InFrame(sys, trace, false, j, s)
    ensures forall ls :: Blocked(sys, trace', false, j, ls) <==> Blocked(sys, trace, false, j, ls)
    ensures sys.WellFormed() ==>
              forall ls: seq<Literal> :: Blockable(sys, trace', false, ls, j) <==> Blockable(sys, trace, false, ls, j)
    ensures sys.WellFormed() ==> (ClosedFrame(sys, trace', j) <==> ClosedFrame(sys, trace, j))
  {
    forall s
      ensures InFrame(sys, trace', false, j, s) <==> InFrame(sys, trace, false, j, s)
    {
      assert AvoidsFrom(s, trace, false, j) <==> Avoids(s, trace[j]);
      assert AvoidsFrom(s, trace', false, j) <==> Avoids(s, trace'[j]);
    }
    hide AvoidsFrom, InFrame, TransitionSystem.WellFormed;
  }

  lemma PushedOneMore(sys: TransitionSystem, trace: Trace, trace': Trace, i: nat, k: nat)
    requires sys.WellFormed() && i < |trace| && OnlyFrame(trace, trace', i + 1) && k < |trace[i]|
    ensures PushedUpTo(sys, trace', i, k + 1) <==>
            PushedUpTo(sys, trace, i, k) && Blockable(sys, trace', false, trace[i][k].literals, i)
  {
    SameFrame(sys, trace, trace', i);
    hide Blockable;
  }

  lemma LevelPushedOneMore(sys: TransitionSystem, trace: Trace, trace': Trace, i: nat, k: nat)
    requires sys.WellFormed() && i < |trace| && OnlyFrame(trace, trace', i + 1) && k < |trace[i]|
    requires FramesShrink(sys, trace, trace', false)
    requires LevelPushed(sys, trace, i, k) && CubePushed(sys, trace', i, trace[i][k])
    ensures LevelPushed(sys, trace', i, k + 1)
  {
    SameFrame(sys, trace, trace', i);
    hide Blockable, Blocked, FramesShrink, OnlyFrame;
    forall m | 0 <= m < k
      ensures CubePushed(sys, trace', i, trace[i][m])
    {
      assert CubePushed(sys, trace, i, trace[i][m]);
      if Blocked(sys, trace, false, i + 1, trace[i][m].literals) {
        StaysBlocked(sys, trace, trace', false, i + 1, trace[i][m].literals);
      }
    }
  }

  /** The frames 1, ..., i - 1 have been pushed as far as possible, and none of them is closed. */
  ghost predicate LevelsDone(sys: TransitionSystem, trace: Trace, i: int)
    requires sys.WellFormed() && i <= |trace|
  {
    forall j: nat :: 1 <= j < i ==> LevelPushed(sys, trace, j, |trace[j]|) && !ClosedFrame(sys, trace, j)
  }

  lemma NoneClosed(sys: TransitionSystem, trace: Trace, i: int)
    requires sys.WellFormed() && i <= |trace| && LevelsDone(sys, trace, i)
    ensures !exists j :: 1 <= j < i && ClosedFrame(sys, trace, j)
  {
  }

  /** Pushing frame i leaves the frames below it and itself alone. */
  lemma LevelsStayDone(sys: TransitionSystem, trace: Trace, trace': Trace, i: nat)
    requires sys.WellFormed() && i < |trace| && OnlyFrame(trace, trace', i + 1) && LevelsDone(sys, trace, i)
    requires LevelPushed(sys, trace', i, |trace'[i]|) && !ClosedFrame(sys, trace', i)
    ensures LevelsDone(sys, trace', i + 1)
  {
    forall j: nat | 1 <= j < i
      ensures LevelPushed(sys, trace', j, |trace'[j]|) && !ClosedFrame(sys, trace', j)
    {
      SameLevel(sys, trace, trace', j);
    }
  }

  /** What has been pushed from frame j depends on the frames j and j + 1 only. */
  lemma SameLevel(sys: TransitionSystem, trace: Trace, trace': Trace, j: nat)
    requires sys.WellFormed() && j + 1 < |trace| == |trace'|
    requires trace'[j] == trace[j] && trace'[j + 1] == trace[j + 1]
    ensures LevelPushed(sys, trace', j, |trace'[j]|) <==> LevelPushed(sys, trace, j, |trace[j]|)
    ensures ClosedFrame(sys, trace', j) <==> ClosedFrame(sys, trace, j)
  {
    hide Blockable, Blocked, ClosedFrame, TransitionSystem.WellFormed;
    SameFrame(sys, trace, trace', j);
    SameFrame(sys, trace, trace', j + 1);
    assert forall c :: CubePushed(sys, trace', j, c) <==> CubePushed(sys, trace, j, c);
  }

  /** In a closed frame no cube has a predecessor. */
  lemma ClosedIsAllPushed(sys: TransitionSystem, trace: Trace, i: nat)
    requires sys.WellFormed() && i < |trace| && ClosedFrame(sys, trace, i)
    ensures PushedUpTo(sys, trace, i, |trace[i]|)
  {
    forall m | 0 <= m < |trace[i]|
      ensures Blockable(sys, trace, false, trace[i][m].literals, i)
    {
      forall p, y | sys.IsState(p) && sys.IsInput(y) && InFrame(sys, trace, false, i, p)
        ensures !CubeTrue(sys.Succ(p, y), trace[i][m].literals)
      {
        assert InFrame(sys, trace, false, i, sys.Succ(p, y));
        assert Avoids(sys.Succ(p, y), trace[i]);
        assert trace[i][m] in trace[i];
      }
    }
  }

  /** A frame all of whose cubes have no predecessor in it is closed. */
  lemma AllPushedIsClosed(sys: TransitionSystem, act: Activators, bound: int, trace: Trace, i: nat)
    requires Setup(sys, act, |trace|, bound) && 1 <= i < |trace|
    requires PushedUpTo(sys, trace, i, |trace[i]|)
    ensures ClosedFrame(sys, trace, i)
  {
    forall p, y | sys.IsState(p) && sys.IsInput(y) && InFrame(sys, trace, false, i, p)
      ensures InFrame(sys, trace, false, i, sys.Succ(p, y))
    {
      forall c | c in trace[i]
        ensures !CubeTrue(sys.Succ(p, y), c.literals)
      {
        assert Blockable(sys, trace, false, c.literals, i);
      }
    }
  }
}
