/**
 * Complementary approximate reachability in its forward mode
 * (src/engine/car.hpp, src/engine/car.cpp).
 */
module Car {
  import opened Logic
  import opened TransitionSystems
  import opened Solvers
  import opened Frames
  import opened FrameInvariants
  import opened Chains
  import opened Queries
  import opened CarQueries
  import opened CarObligations
  import opened CarInductive

  /** The pool behind the cotrace; entries are never freed. */
  class CotracePool {
    var entries: Pool

    constructor ()
      ensures entries == []
    {
      entries := [];
    }

    method Make(state: Cube, input: Cube, successor: Option<nat>) returns (h: nat)
      modifies this
      ensures entries == old(entries) + [Entry(state, input, successor)]
      ensures h == |old(entries)|
    {
      entries := entries + [Entry(state, input, successor)];
      h := |entries| - 1;
    }

    method Get(h: nat) returns (e: Entry)
      requires h < |entries|
      ensures e == entries[h]
    {
      e := entries[h];
    }
  }

  datatype CarOptions = CarOptions(
    propagateCores: bool, repushBlockedObligations: bool, mucBlocked: bool, mucPredecessor: bool)

  ghost predicate ConsistentTrace(trace: Trace) {
    forall j, c {:trigger c in trace[j]} :: 0 <= j < |trace| && c in trace[j] ==> Consistent(c.literals)
  }

  lemma ConsistentAfterBlocking(trace: Trace, trace': Trace, c: Cube, k: int)
    requires ConsistentTrace(trace) && Consistent(c.literals)
    requires 0 <= k < |trace| && BlockedBetween(trace, trace', c, k, k)
    ensures ConsistentTrace(trace')
  {
  }

  lemma CubeOfTrace(sys: TransitionSystem, trace: Trace, i: nat, c: Cube)
    requires StateTrace(sys, trace) && ConsistentTrace(trace) && i < |trace| && c in trace[i]
    ensures sys.IsStateCube(c.literals) && Consistent(c.literals)
  {
  }

  /** Literal l cannot be dropped from the core. */
  ghost predicate Needed(sys: TransitionSystem, trace: Trace, kind: CoreQuery, core: seq<Literal>, l: Literal)
    requires sys.WellFormed() && QueryOk(sys, trace, kind) && QueryLits(sys, kind, core)
  {
    l in core ==> !Refuted(sys, trace, kind, Remove(core, l))
  }

  /** What a larger core needs, a smaller one that still contains it needs as well. */
  lemma NeededShrinks(
    sys: TransitionSystem, act: Activators, bound: int, trace: Trace, kind: CoreQuery,
    core: seq<Literal>, core': seq<Literal>, l: Literal)
    requires Setup(sys, act, |trace|, bound) && QueryOk(sys, trace, kind)
    requires QueryLits(sys, kind, core) && QueryLits(sys, kind, core')
    requires forall x :: x in core' ==> x in core
    requires Needed(sys, trace, kind, core, l)
    ensures Needed(sys, trace, kind, core', l)
  {
    if l in core' && Refuted(sys, trace, kind, Remove(core', l)) {
      RefutedIsMonotone(sys, act, bound, trace, kind, Remove(core', l), Remove(core, l));
    }
  }

  /** A literal whose removal makes the query satisfiable goes back to the end, and is needed there. */
  lemma LiteralKept(
    sys: TransitionSystem, act: Activators, bound: int, trace: Trace, kind: CoreQuery,
    lit: Literal, core: seq<Literal>, core': seq<Literal>)
    requires Setup(sys, act, |trace|, bound) && QueryOk(sys, trace, kind)
    requires QueryLits(sys, kind, core) && Refuted(sys, trace, kind, core) && QueryLits(sys, kind, core')
    requires QueryLits(sys, kind, Remove(core, lit)) && !Refuted(sys, trace, kind, Remove(core, lit))
    requires core' == Remove(core, lit) + [lit]
    ensures forall l :: l in core' ==> l in core
    ensures Refuted(sys, trace, kind, core') && Needed(sys, trace, kind, core', lit)
  {
    hide TransitionSystem.WellFormed, QueryOk, QueryLits, Refuted;
    QueryLitsAreLocal(sys, kind, core', Remove(core', lit));
    if lit !in core {
      RefutedIsMonotone(sys, act, bound, trace, kind, core, Remove(core, lit));
    }
    RefutedIsMonotone(sys, act, bound, trace, kind, core, core');
    if Refuted(sys, trace, kind, Remove(core', lit)) {
      RefutedIsMonotone(sys, act, bound, trace, kind, Remove(core', lit), Remove(core, lit));
    }
  }

  /** Any selection of a query's literals is a part of the query. */
  lemma QueryLitsAreLocal(sys: TransitionSystem, kind: CoreQuery, ls: seq<Literal>, ms: seq<Literal>)
    requires QueryLits(sys, kind, ls) && forall l :: l in ms ==> l in ls
    ensures QueryLits(sys, kind, ms)
  {
  }

  /** After a refutation only failed literals stay. */
  lemma LiteralFailed(
    sys: TransitionSystem, trace: Trace, kind: CoreQuery,
    lit: Literal, core: seq<Literal>, core': seq<Literal>, failed: set<Literal>)
    requires sys.WellFormed() && QueryOk(sys, trace, kind) && QueryLits(sys, kind, core')
    requires CoreRefutes(sys, trace, kind, Remove(core, lit), failed)
    requires forall l :: l in core' <==> l in Remove(core, lit) && l in failed
    ensures forall l :: l in core' ==> l in core
    ensures Refuted(sys, trace, kind, core') && Needed(sys, trace, kind, core', lit)
  {
    hide TransitionSystem.WellFormed, QueryOk, QueryLits, Refuted;
  }

  /** One round of core minimisation, from either answer. */
  lemma MinimisationStep(
    sys: TransitionSystem, act: Activators, bound: int, trace: Trace, kind: CoreQuery,
    lits: seq<Literal>, n: nat, core: seq<Literal>, core': seq<Literal>, sat: bool, failed: set<Literal>)
    requires Setup(sys, act, |trace|, bound) && QueryOk(sys, trace, kind)
    requires n < |lits| && QueryLits(sys, kind, core) && Refuted(sys, trace, kind, core)
    requires QueryLits(sys, kind, core')
    requires QueryLits(sys, kind, Remove(core, lits[n])) && QueryLits(sys, kind, [lits[n]])
    requires sat <==> !Refuted(sys, trace, kind, Remove(core, lits[n]))
    requires sat ==> core' == Remove(core, lits[n]) + [lits[n]]
    requires !sat ==> CoreRefutes(sys, trace, kind, Remove(core, lits[n]), failed)
    requires !sat ==> forall l :: l in core' <==> l in Remove(core, lits[n]) && l in failed
    requires forall m :: 0 <= m < n ==> Needed(sys, trace, kind, core, lits[m])
    ensures forall l :: l in core' ==> l in core
    ensures Refuted(sys, trace, kind, core')
    ensures forall m :: 0 <= m < n + 1 ==> Needed(sys, trace, kind, core', lits[m])
  {
    hide TransitionSystem.WellFormed, QueryOk, QueryLits, Refuted, Needed, CoreRefutes;
    if sat {
      LiteralKept(sys, act, bound, trace, kind, lits[n], core, core');
    } else {
      LiteralFailed(sys, trace, kind, lits[n], core, core', failed);
    }
    forall m | 0 <= m < n
      ensures Needed(sys, trace, kind, core', lits[m])
    {
      NeededShrinks(sys, act, bound, trace, kind, core, core', lits[m]);
    }
  }

  lemma AllNeeded(
    sys: TransitionSystem, act: Activators, bound: int, trace: Trace, kind: CoreQuery,
    seed: seq<Literal>, core: seq<Literal>)
    requires Setup(sys, act, |trace|, bound) && QueryOk(sys, trace, kind) && QueryLits(sys, kind, core)
    requires forall l :: l in core ==> l in seed
    requires forall m :: 0 <= m < |seed| ==> Needed(sys, trace, kind, core, seed[m])
    ensures forall l :: l in core ==> !Refuted(sys, trace, kind, Remove(core, l))
  {
    forall l | l in core
      ensures !Refuted(sys, trace, kind, Remove(core, l))
    {
      var m :| 0 <= m < |seed| && seed[m] == l;
      assert Needed(sys, trace, kind, core, seed[m]);
    }
  }

  // ------------------------------------------------------------------
  // Predecessors
  // ------------------------------------------------------------------

  /** The query about the predecessor found in a model, and why it is refuted at first. */
  lemma PredecessorQueryOk(
    sys: TransitionSystem, act: Activators, bound: int, trace: Trace, s: seq<Literal>, from: nat, m: Assignment)
    requires Setup(sys, act, |trace|, bound) && sys.IsStateCube(s) && StepsInto(sys, trace, s, from, m)
    ensures var kind := PredecessorQuery(s, ValuationOf(m, sys.inputs));
            && QueryOk(sys, trace, kind)
            && QueryLits(sys, kind, ValuationOf(m, sys.states))
            && Refuted(sys, trace, kind, ValuationOf(m, sys.states))
  {
    var ins, p := ValuationOf(m, sys.inputs), ValuationOf(m, sys.states);
    FullInput(sys, m, MakeCube(ins));
    ValuationMeaning(m, sys.inputs, {});
    forall a | CubeTrue(a, ins)
      ensures a * sys.inputs.Vars() == TrueVars(ins)
    {
      ValuationMeaning(m, sys.inputs, a);
    }
    forall q | sys.IsState(q) && CubeTrue(q, p)
      ensures q == m * sys.states.Vars()
    {
      ValuationMeaning(m, sys.states, q);
      assert q * sys.states.Vars() == q;
    }
  }

  /** The pool gained an entry, one step before the obligation's, that still meets the frame below. */
  ghost predicate PredecessorStored(
    sys: TransitionSystem, trace: Trace, pool: Pool, pool': Pool, po: Obligation, h: nat)
    requires po.level >= 1
  {
    && h == |pool| && |pool'| == h + 1 && pool <= pool'
    && SuccessorsDecrease(pool) && SuccessorsDecrease(pool')
    && (forall j: nat :: AtDistance(pool, po.handle, j) ==> AtDistance(pool', h, j + 1))
    && !Blocked(sys, trace, false, po.level - 1, pool'[h].state.literals)
    && (po.level == 1 ==> MeetsInit(sys, pool'[h].state.literals))
  }

  /** The entry of a generalised predecessor. */
  lemma PredecessorEntryOk(
    sys: TransitionSystem, act: Activators, bound: int, trace: Trace, pool: Pool, coframes: Coframes, po: Obligation,
    m: Assignment, core: seq<Literal>, e: Entry)
    requires Setup(sys, act, |trace|, bound) && PoolOk(sys, pool) && CotraceOk(pool, coframes)
    requires po.handle < |pool| && po.level >= 1
    requires StepsInto(sys, trace, pool[po.handle].state.literals, po.level - 1, m)
    requires forall l :: l in core ==> l in ValuationOf(m, sys.states)
    requires var kind := PredecessorQuery(pool[po.handle].state.literals, ValuationOf(m, sys.inputs));
             && QueryOk(sys, trace, kind) && QueryLits(sys, kind, core) && Refuted(sys, trace, kind, core)
    requires e == Entry(MakeCube(core), MakeCube(ValuationOf(m, sys.inputs)), Some(po.handle))
    ensures PoolOk(sys, pool + [e]) && CotraceOk(pool + [e], coframes)
    ensures PredecessorStored(sys, trace, pool, pool + [e], po, |pool|)
  {
    ValuationMeaning(m, sys.inputs, {});
    PredecessorEntry(sys, pool, m, core, po.handle, e);
    PoolExtends(sys, pool, e);
    CotraceGrows(sys, pool, e, coframes);
    NewEntryDistance(sys, pool, e);
    var q := m * sys.states.Vars();
    assert sys.IsState(q) && CubeTrue(q, e.state.literals);
  }

  /** Storing the entry keeps the pool and the cotrace, and makes it a predecessor of the obligation's cube. */
  ghost predicate EntryFits(
    sys: TransitionSystem, trace: Trace, pool: Pool, coframes: Coframes, po: Obligation, e: Entry)
    requires sys.WellFormed() && po.level >= 1
  {
    && PoolOk(sys, pool + [e]) && CotraceOk(pool + [e], coframes)
    && PredecessorStored(sys, trace, pool, pool + [e], po, |pool|)
  }

  /** Handle h is an error cube that still meets the newest frame. */
  ghost predicate ErrorAt(sys: TransitionSystem, trace: Trace, pool: Pool, h: nat)
    requires |trace| > 0
  {
    && h < |pool| && SuccessorsDecrease(pool) && AtDistance(pool, h, 0)
    && !Blocked(sys, trace, false, |trace| - 1, pool[h].state.literals)
    && (|trace| == 1 ==> MeetsInit(sys, pool[h].state.literals))
  }

  lemma ErrorAtIsObligation(sys: TransitionSystem, trace: Trace, pool: Pool, coframes: Coframes, h: nat)
    requires CotraceOk(pool, coframes) && |trace| > 0 && ErrorAt(sys, trace, pool, h)
    ensures ObligationOk(sys, trace, pool, |coframes|, 0, Obligation(|trace| - 1, 0, h))
    ensures h < |pool| && !Blocked(sys, trace, false, |trace| - 1, pool[h].state.literals)
  {
  }

  /** The model's error state and input make a good entry. */
  ghost predicate ErrorEntryOk(sys: TransitionSystem, trace: Trace, pool: Pool, m: Assignment)
    requires sys.WellFormed() && |trace| > 0
  {
    var e := Entry(MakeCube(ValuationOf(m, sys.states)), MakeCube(ValuationOf(m, sys.inputs)), None);
    && PoolOk(sys, pool + [e])
    && !Blocked(sys, trace, false, |trace| - 1, e.state.literals)
    && (|trace| == 1 ==> MeetsInit(sys, e.state.literals))
  }

  lemma FoundErrorEntry(
    clauses: Cnf, sys: TransitionSystem, act: Activators, trace: Trace, bound: int, pool: Pool, m: Assignment)
    requires Synced(clauses, sys, act, trace, false) && Setup(sys, act, |trace|, bound)
    requires StateTrace(sys, trace) && PoolOk(sys, pool)
    requires Answers(m, clauses, LitSet([act.frames[|trace| - 1]]) + LitSet([act.error]), [])
    ensures ErrorEntryOk(sys, trace, pool, m)
  {
    ErrorStateFound(clauses, sys, act, trace, bound, pool, m);
  }

  lemma NewErrorEntry(
    sys: TransitionSystem, act: Activators, bound: int, trace: Trace, pool: Pool, coframes: Coframes, m: Assignment)
    requires Setup(sys, act, |trace|, bound) && |trace| > 0 && CotraceOk(pool, coframes)
    requires ErrorEntryOk(sys, trace, pool, m)
    ensures sys.states.Valid() && sys.inputs.Valid()
    ensures var e := Entry(MakeCube(ValuationOf(m, sys.states)), MakeCube(ValuationOf(m, sys.inputs)), None);
            && PoolOk(sys, pool + [e]) && CotraceOk(pool + [e], coframes)
            && ErrorAt(sys, trace, pool + [e], |pool|)
  {
    var e := Entry(MakeCube(ValuationOf(m, sys.states)), MakeCube(ValuationOf(m, sys.inputs)), None);
    CotraceGrows(sys, pool, e, coframes);
    NewEntryDistance(sys, pool, e);
  }

  // ------------------------------------------------------------------
  // Cores over the next-state variables
  // ------------------------------------------------------------------

  /** The primed cube is consistent and over next-state variables, apart from all activators. */
  lemma PrimedCubeApart(
    sys: TransitionSystem, act: Activators, bound: int, frames: int, s: seq<Literal>)
    requires Setup(sys, act, frames, bound) && sys.IsStateCube(s) && Consistent(s)
    ensures Consistent(sys.PrimeAll(s))
    ensures forall l :: l in sys.PrimeAll(s) ==> sys.nexts.Contains(VarOf(l)) && VarOf(l) in sys.Vars()
  {
    var ps := sys.PrimeAll(s);
    forall l | l in ps
      ensures Not(l) !in ps && VarOf(l) in sys.Vars()
    {
      var i :| 0 <= i < |ps| && ps[i] == l;
      assert s[i] in s && l == sys.Prime(s[i]);
      assert VarOf(l) in sys.nexts.Vars();
      forall j | 0 <= j < |ps|
        ensures ps[j] != Not(l)
      {
        assert s[j] in s && s[j] != Not(s[i]);
      }
    }
  }

  /** Failed literals are activators or primed literals, and never complementary. */
  lemma FailedLiterals(
    sys: TransitionSystem, act: Activators, bound: int, frames: int, s: seq<Literal>, from: nat, core: set<Literal>)
    requires Setup(sys, act, frames, bound) && from < frames
    requires sys.IsStateCube(s) && Consistent(s)
    requires core <= BaseLits(BlockedQuery(from), act) + LitSet(sys.PrimeAll(s))
    ensures forall l :: l in core ==> Not(l) !in core
    ensures forall l :: l in core && sys.nexts.Contains(VarOf(l)) ==> l in sys.PrimeAll(s)
  {
    var ps := sys.PrimeAll(s);
    PrimedCubeApart(sys, act, bound, frames, s);
    assert act.frames[from] in act.frames;
    assert act.frames[from] in act.All() && act.trans in act.All();
    forall l | l in core
      ensures l == act.frames[from] || l == act.trans || l in ps
    {
      assert l in LitSet([act.frames[from]]) || l in LitSet([act.trans]) || l in LitSet(ps);
    }
    forall l | l in core && sys.nexts.Contains(VarOf(l))
      ensures l in ps
    {
      assert VarOf(l) in sys.nexts.Vars();
    }
  }

  /** The failed next-state literals are all that is needed. */
  lemma NextStateCore(
    sys: TransitionSystem, act: Activators, bound: int, trace: Trace, s: seq<Literal>, from: nat, core: set<Literal>,
    c: seq<Literal>)
    requires Setup(sys, act, |trace|, bound) && from < |trace|
    requires sys.IsStateCube(s) && Consistent(s)
    requires core <= BaseLits(BlockedQuery(from), act) + LitSet(sys.PrimeAll(s))
    requires CoreRefutes(sys, trace, BlockedQuery(from), sys.PrimeAll(s), core)
    requires forall l :: l in c <==> sys.nexts.Contains(VarOf(l)) && l in core
    ensures QueryLits(sys, BlockedQuery(from), c) && Refuted(sys, trace, BlockedQuery(from), c)
    ensures forall l :: l in c <==> l in sys.PrimeAll(s) && l in core
  {
    FailedLiterals(sys, act, bound, |trace|, s, from, core);
    PrimedCubeApart(sys, act, bound, |trace|, s);
    assert QueryLits(sys, BlockedQuery(from), c);
  }

  /** Unpriming a refuted part of the primed cube gives a cube to block. */
  lemma UnprimedCore(
    sys: TransitionSystem, act: Activators, bound: int, trace: Trace, s: seq<Literal>, from: nat, core: seq<Literal>)
    requires Setup(sys, act, |trace|, bound) && from < |trace| && sys.IsStateCube(s) && Consistent(s)
    requires QueryLits(sys, BlockedQuery(from), core) && Refuted(sys, trace, BlockedQuery(from), core)
    requires forall l :: l in core ==> l in sys.PrimeAll(s)
    ensures var c := MakeCube(sys.UnprimeAll(core));
            && (forall l :: l in c.literals ==> l in s)
            && sys.IsStateCube(c.literals) && Consistent(c.literals)
            && Blockable(sys, trace, false, c.literals, from)
  {
    var u := sys.UnprimeAll(core);
    var c := MakeCube(u);
    forall l | l in c.literals
      ensures l in s && sys.states.Contains(VarOf(l))
    {
      assert sys.Prime(l) in core;
      var i :| 0 <= i < |s| && sys.PrimeAll(s)[i] == sys.Prime(l);
      assert s[i] in s && sys.Prime(s[i]) == sys.Prime(l);
      assert s[i] == l;
    }
    forall p, y | sys.IsState(p) && sys.IsInput(y) && InFrame(sys, trace, false, from, p)
      ensures !CubeTrue(sys.Succ(p, y), c.literals)
    {
      assert !CubeTrue(sys.Succ(p, y), u);
    }
  }

  lemma ShrunkCubeBlocks(
    sys: TransitionSystem, trace: Trace, i: nat, c: seq<Literal>, s: seq<Literal>)
    requires forall l :: l in c ==> l in s
    ensures Blocked(sys, trace, false, i, c) ==> Blocked(sys, trace, false, i, s)
  {
    if Blocked(sys, trace, false, i, c) {
      BlockedIsMonotone(sys, trace, false, i, c, s);
    }
  }

  // ------------------------------------------------------------------
  // Obligations and propagation
  // ------------------------------------------------------------------

  lemma ObligationCube(
    sys: TransitionSystem, act: Activators, bound: int, trace: Trace, pool: Pool, colevels: nat, from: nat,
    po: Obligation)
    requires Setup(sys, act, |trace|, bound) && PoolOk(sys, pool)
    requires ObligationOk(sys, trace, pool, colevels, from, po)
    ensures po.handle < |pool| && po.level < |trace| && from <= po.colevel < colevels
    ensures sys.IsStateCube(pool[po.handle].state.literals) && Consistent(pool[po.handle].state.literals)
    ensures sys.DisjointRanges()
  {
    assert EntryOk(sys, pool, po.handle);
  }

  /** The stored predecessor is an obligation one level down and one colevel up. */
  lemma PredecessorIsObligation(
    sys: TransitionSystem, trace: Trace, pool: Pool, pool': Pool, colevels: nat, colevels': nat, from: nat,
    po: Obligation, h: nat)
    requires po.level >= 1 && ObligationOk(sys, trace, pool, colevels, from, po)
    requires PredecessorStored(sys, trace, pool, pool', po, h)
    ensures SuccessorsDecrease(pool') && h < |pool'| && AtDistance(pool', h, po.colevel + 1)
    ensures pool <= pool'
    ensures po.colevel + 1 < colevels' ==>
              ObligationOk(sys, trace, pool', colevels', from, Obligation(po.level - 1, po.colevel + 1, h))
    ensures !Blocked(sys, trace, false, po.level - 1, pool'[h].state.literals)
  {
  }

  /** Reaching beyond coframe `from` leaves the coframes up to it alone. */
  lemma ReachedAbove(pool: Pool, coframes: Coframes, coframes': Coframes, h: nat, k: nat, from: nat)
    requires h < |pool| && from < k && from < |coframes|
    requires forall j, d {:trigger d in coframes[j]} :: 0 <= j < |coframes| && d in coframes[j] ==> d < |pool|
    requires ReachedBetween(pool, coframes, coframes', h, k)
    ensures CoframesKept(coframes, coframes', from) && k < |coframes'|
  {
  }

  lemma LevelZero(
    sys: TransitionSystem, act: Activators, bound: int, trace: Trace, pool: Pool, colevels: nat, from: nat,
    po: Obligation, cex: Result)
    requires Setup(sys, act, |trace|, bound) && PoolOk(sys, pool)
    requires ObligationOk(sys, trace, pool, colevels, from, po) && po.level == 0
    requires po.handle < |pool| && ReadOff(sys, pool, po.handle, cex)
    ensures GoodCounterexample(sys, cex)
  {
    LevelZeroIsCounterexample(sys, pool, po.handle, cex);
  }

  lemma StoredObligation(
    sys: TransitionSystem, trace: Trace, pool: Pool, coframes: Coframes, j: nat, h: nat)
    requires CotraceOk(pool, coframes) && j < |coframes| && h in coframes[j] && |trace| >= 2
    ensures ObligationOk(sys, trace, pool, |coframes|, j, Obligation(|trace| - 1, j, h))
  {
    assert AtDistance(pool, h, j);
  }

  /** The first obligation's cube still meets its frame. */
  ghost predicate FrontUnblocked(sys: TransitionSystem, trace: Trace, pool: Pool, q: seq<Obligation>) {
    && q != [] && q[0].handle < |pool|
    && !Blocked(sys, trace, false, q[0].level, pool[q[0].handle].state.literals)
  }

  /** The coframes up to `from` are untouched. */
  ghost predicate CoframesKept(coframes: Coframes, coframes': Coframes, from: nat) {
    from < |coframes| <= |coframes'| && coframes'[..from + 1] == coframes[..from + 1]
  }

  lemma KeptIsLonger(coframes: Coframes, coframes': Coframes, from: nat)
    requires CoframesKept(coframes, coframes', from)
    ensures |coframes| <= |coframes'|
  {
  }

  lemma KeptBelow(coframes: Coframes, coframes': Coframes, from: nat)
    requires CoframesKept(coframes, coframes', from)
    ensures |coframes| <= |coframes'| && coframes'[..from] == coframes[..from]
  {
    assert coframes'[..from] == coframes'[..from + 1][..from];
    assert coframes[..from] == coframes[..from + 1][..from];
  }

  lemma SameCoframe(coframes: Coframes, coframes': Coframes, from: nat)
    requires CoframesKept(coframes, coframes', from)
    ensures from < |coframes| <= |coframes'| && coframes'[from] == coframes[from]
  {
    assert coframes'[..from + 1][from] == coframes[..from + 1][from];
  }

  lemma HandlesInPool(pool: Pool, coframes: Coframes, j: nat)
    requires CotraceOk(pool, coframes) && j < |coframes|
    ensures forall h :: h in coframes[j] ==> h < |pool|
  {
  }

  lemma KeptItself(coframes: Coframes, from: nat)
    requires from < |coframes|
    ensures CoframesKept(coframes, coframes, from)
  {
  }

  lemma KeptTwice(coframes: Coframes, coframes': Coframes, coframes'': Coframes, from: nat)
    requires CoframesKept(coframes, coframes', from) && CoframesKept(coframes', coframes'', from)
    ensures CoframesKept(coframes, coframes'', from) && from < |coframes''|
  {
  }

  /** The start is still queued, or nothing of its cube is left at its level. */
  ghost predicate QueuedOrBlocked(
    sys: TransitionSystem, trace: Trace, q: seq<Obligation>, start: Obligation, cube: seq<Literal>)
  {
    start in q || Blocked(sys, trace, false, start.level, cube)
  }

  lemma StartQueued(sys: TransitionSystem, trace: Trace, start: Obligation, cube: seq<Literal>)
    ensures QueuedOrBlocked(sys, trace, [start], start, cube)
  {
  }

  lemma NothingQueued(sys: TransitionSystem, trace: Trace, start: Obligation, cube: seq<Literal>)
    requires QueuedOrBlocked(sys, trace, [], start, cube)
    ensures Blocked(sys, trace, false, start.level, cube)
  {
  }

  /** Handling the first obligation keeps the start queued, or blocks it. */
  lemma StillQueuedOrBlocked(
    sys: TransitionSystem, trace: Trace, trace': Trace, q: seq<Obligation>, q': seq<Obligation>,
    start: Obligation, cube: seq<Literal>)
    requires QueuedOrBlocked(sys, trace, q, start, cube) && q != [] && FramesShrink(sys, trace, trace', false)
    requires forall po :: po in q[1..] ==> po in q'
    requires q[0] == start ==> start in q' || Blocked(sys, trace', false, start.level, cube)
    ensures QueuedOrBlocked(sys, trace', q', start, cube)
  {
    hide Blocked, FramesShrink;
    assert q == [q[0]] + q[1..];
    if start !in q {
      StaysBlocked(sys, trace, trace', false, start.level, cube);
    }
  }

  /** The cubes of the first n handles have no state left in frame i. */
  ghost predicate HandlesBlocked(
    sys: TransitionSystem, trace: Trace, pool: Pool, i: nat, handles: seq<nat>, n: nat)
  {
    && n <= |handles|
    && forall k :: 0 <= k < n ==>
         handles[k] < |pool| && Blocked(sys, trace, false, i, pool[handles[k]].state.literals)
  }

  lemma HandlesStayBlocked(
    sys: TransitionSystem, trace: Trace, trace': Trace, pool: Pool, i: nat, handles: seq<nat>, n: nat)
    requires HandlesBlocked(sys, trace, pool, i, handles, n) && FramesShrink(sys, trace, trace', false)
    ensures HandlesBlocked(sys, trace', pool, i, handles, n)
  {
    hide Blocked, FramesShrink;
    forall k | 0 <= k < n
      ensures Blocked(sys, trace', false, i, pool[handles[k]].state.literals)
    {
      StaysBlocked(sys, trace, trace', false, i, pool[handles[k]].state.literals);
    }
  }

  lemma OneMoreBlocked(sys: TransitionSystem, trace: Trace, pool: Pool, i: nat, handles: seq<nat>, n: nat)
    requires HandlesBlocked(sys, trace, pool, i, handles, n) && n < |handles| && handles[n] < |pool|
    requires Blocked(sys, trace, false, i, pool[handles[n]].state.literals)
    ensures HandlesBlocked(sys, trace, pool, i, handles, n + 1)
  {
    hide Blocked;
  }

  /** Nothing that is stored in the coframes from the given one on has a state left in frame i. */
  ghost predicate CoframesBlocked(
    sys: TransitionSystem, trace: Trace, pool: Pool, i: nat, coframes: Coframes, from: nat)
  {
    forall j :: from <= j < |coframes| ==> HandlesBlocked(sys, trace, pool, i, coframes[j], |coframes[j]|)
  }

  lemma CoframesStayBlocked(
    sys: TransitionSystem, trace: Trace, trace': Trace, pool: Pool, i: nat, coframes: Coframes, from: nat)
    requires CoframesBlocked(sys, trace, pool, i, coframes, from) && FramesShrink(sys, trace, trace', false)
    ensures CoframesBlocked(sys, trace', pool, i, coframes, from)
  {
    hide HandlesBlocked, FramesShrink;
    forall j | from <= j < |coframes|
      ensures HandlesBlocked(sys, trace', pool, i, coframes[j], |coframes[j]|)
    {
      HandlesStayBlocked(sys, trace, trace', pool, i, coframes[j], |coframes[j]|);
    }
  }

  lemma OneMoreCoframe(sys: TransitionSystem, trace: Trace, pool: Pool, i: nat, coframes: Coframes, from: nat)
    requires CoframesBlocked(sys, trace, pool, i, coframes, from + 1) && from < |coframes|
    requires HandlesBlocked(sys, trace, pool, i, coframes[from], |coframes[from]|)
    ensures CoframesBlocked(sys, trace, pool, i, coframes, from)
  {
    hide HandlesBlocked;
  }

  /** Blocking a part of the cube in the next frame pushes the cube. */
  lemma PartIsPushed(sys: TransitionSystem, trace: Trace, trace': Trace, i: nat, c: Cube, d: Cube)
    requires sys.WellFormed() && i + 1 < |trace| && BlockedBetween(trace, trace', d, i + 1, i + 1)
    requires forall j :: 0 <= j < |trace'| && j != i + 1 ==> trace'[j] == trace[j]
    requires Blocked(sys, trace', false, i + 1, d.literals) && forall l :: l in d.literals ==> l in c.literals
    ensures OnlyFrame(trace, trace', i + 1) && FramesShrink(sys, trace, trace', false)
    ensures Blockable(sys, trace', false, c.literals, i) <==> Blockable(sys, trace, false, c.literals, i)
    ensures CubePushed(sys, trace', i, c)
  {
    hide TransitionSystem.WellFormed, Blocked, Blockable, FramesShrink, BlockedIn;
    SingleFrameBlockedIn(trace, trace', d, i + 1);
    ShrunkByBlocking(sys, trace, trace', false, d, i + 1);
    SameFrame(sys, trace, trace', i);
    ShrunkCubeBlocks(sys, trace', i + 1, d.literals, c.literals);
  }

  lemma NothingToPush(sys: TransitionSystem, trace: Trace, i: nat, c: Cube)
    requires sys.WellFormed() && !Blockable(sys, trace, false, c.literals, i)
    ensures OnlyFrame(trace, trace, i + 1) && CubePushed(sys, trace, i, c)
  {
  }

  /** If the dropped obligation is the starting one, its cube met the frame no more. */
  lemma DroppedStart(
    sys: TransitionSystem, trace: Trace, pool: Pool, pool': Pool, q: seq<Obligation>, start: Obligation)
    requires q != [] && pool <= pool' && !FrontUnblocked(sys, trace, pool', q)
    ensures q[0] == start ==> !FrontUnblocked(sys, trace, pool, [start])
    ensures start in q && q[0] != start ==> start in q[1..]
  {
    assert q == [q[0]] + q[1..];
  }

  /** R_i depends on frame i only. */
  lemma SameFrameSameBlockable(
    sys: TransitionSystem, act: Activators, bound: int, trace: Trace, trace': Trace, i: nat)
    requires Setup(sys, act, |trace|, bound) && i < |trace| == |trace'| && trace[i] == trace'[i]
    ensures forall c: seq<Literal> :: Blockable(sys, trace, false, c, i) <==> Blockable(sys, trace', false, c, i)
  {
    forall s
      ensures InFrame(sys, trace, false, i, s) <==> InFrame(sys, trace', false, i, s)
    {
      assert AvoidsFrom(s, trace, false, i) <==> Avoids(s, trace[i]);
      assert AvoidsFrom(s, trace', false, i) <==> Avoids(s, trace'[i]);
    }
    forall c: seq<Literal>
      ensures Blockable(sys, trace, false, c, i) <==> Blockable(sys, trace', false, c, i)
    {
      if Blockable(sys, trace, false, c, i) {
        forall p, y | sys.IsState(p) && sys.IsInput(y) && InFrame(sys, trace', false, i, p)
          ensures !CubeTrue(sys.Succ(p, y), c)
        {
          assert InFrame(sys, trace, false, i, p);
        }
      }
      if Blockable(sys, trace', false, c, i) {
        forall p, y | sys.IsState(p) && sys.IsInput(y) && InFrame(sys, trace, false, i, p)
          ensures !CubeTrue(sys.Succ(p, y), c)
        {
          assert InFrame(sys, trace', false, i, p);
        }
      }
    }
  }

  lemma InitialCotrace(sys: TransitionSystem)
    requires sys.WellFormed()
    ensures PoolOk(sys, []) && CotraceOk([], [[]]) && ConsistentTrace([[]])
  {
  }

  ghost predicate AllEmpty(coframes: Coframes) {
    forall j :: 0 <= j < |coframes| ==> coframes[j] == []
  }

  lemma ErrorAtMeets(sys: TransitionSystem, trace: Trace, pool: Pool, coframes: Coframes, h: nat)
    requires CotraceOk(pool, coframes) && |trace| > 0 && ErrorAt(sys, trace, pool, h)
    ensures ObligationOk(sys, trace, pool, |coframes|, 0, Obligation(|trace| - 1, 0, h)) && |coframes| > 0
    ensures FrontUnblocked(sys, trace, pool, [Obligation(|trace| - 1, 0, h)])
  {
    ErrorAtIsObligation(sys, trace, pool, coframes, h);
  }

  /** Growing the variable store keeps the engine's setup. */
  lemma SetupGrows(sys: TransitionSystem, act: Activators, frames: int, bound: int, bound': int)
    requires Setup(sys, act, frames, bound) && bound <= bound'
    ensures Setup(sys, act, frames, bound')
  {
  }

  lemma TraceLitsBelow(
    sys: TransitionSystem, act: Activators, trace: Trace, i: nat, bound: int)
    requires Setup(sys, act, |trace|, bound) && StateTrace(sys, trace) && i < |trace|
    ensures forall c :: c in trace[i] ==> LitsBelow(c.literals, bound)
  {
    StateVarsBelow(sys, act, |trace|, bound);
    forall c, l | c in trace[i] && l in c.literals
      ensures VarOf(l) < bound
    {
      assert VarOf(l) in sys.states.Vars();
    }
  }

  lemma TraceAfterPush(trace: Trace)
    requires ConsistentTrace(trace)
    ensures ConsistentTrace(trace + [[]])
  {
    forall j, c | 0 <= j < |trace + [[]]| && c in (trace + [[]])[j]
      ensures Consistent(c.literals)
    {
      assert c in trace[j];
    }
  }

  class CarEngine {
    const solver: Solver
    const store: VariableStore
    const cotrace: CotracePool
    const opts: CarOptions
    const transitionActivator: Literal
    const errorActivator: Literal
    var system: TransitionSystem
    var activatedInit: Cnf
    var activatedTrans: Cnf
    var activatedError: Cnf
    var initNegated: Cnf
    var trace: Trace
    var traceActivators: seq<Literal>
    var coframes: Coframes
    var queries: int

    const SOLVER_REFRESH_RATE := 5000000

    function Act(): Activators
      reads this`traceActivators
    {
      Activators(traceActivators, transitionActivator, errorActivator)
    }

    function Depth(): int
      reads this`trace
    {
      |trace| - 1
    }

    function Codepth(): int
      reads this`coframes
    {
      |coframes| - 1
    }

    ghost predicate Configured()
      reads this`system, this`trace, this`traceActivators, store
      reads this`activatedInit, this`activatedTrans, this`activatedError, this`initNegated
    {
      && system.WellFormed()
      && Setup(system, Act(), |trace|, store.size)
      && |trace| == |traceActivators| > 0 && store.size > 0
      && FormulasMatch(system, Act(), activatedInit, activatedTrans, activatedError)
      && initNegated == NegateCube(system.InitCube())
    }

    ghost predicate InSync()
      reads this`system, this`trace, this`traceActivators, solver
    {
      Synced(solver.clauses, system, Act(), trace, false)
    }

    ghost predicate FramesOk()
      requires system.WellFormed()
      reads this`system, this`trace
    {
      FrameInvariant(system, trace, false) && ConsistentTrace(trace)
    }

    ghost predicate CotraceValid()
      requires system.WellFormed()
      reads this`system, this`coframes, cotrace
    {
      PoolOk(system, cotrace.entries) && CotraceOk(cotrace.entries, coframes)
    }

    ghost predicate Valid()
      reads this, solver, store, cotrace
    {
      && Configured()
      && FramesOk()
      && CotraceValid()
      && 0 <= queries && (queries > 0 ==> InSync())
    }

    ghost function Size(): nat
      reads this`system, this`trace
    {
      SizeFrom(system, trace, false, 1)
    }

    constructor (opts: CarOptions, store: VariableStore)
      requires store.size > 0
      modifies store
      ensures this.store == store && this.opts == opts && fresh(solver) && fresh(cotrace)
      ensures transitionActivator == old(store.size) && errorActivator == old(store.size) + 1
      ensures store.size == old(store.size) + 2
      ensures trace == [] && traceActivators == [] && coframes == [] && queries == 0
      ensures cotrace.entries == []
    {
      this.store := store;
      this.opts := opts;
      var t := store.Make();
      var e := store.Make();
      transitionActivator, errorActivator := t, e;
      solver := new Solver();
      cotrace := new CotracePool();
      trace, traceActivators, coframes, queries := [], [], [], 0;
      activatedInit, activatedTrans, activatedError, initNegated := [], [], [], [];
      system := TransitionSystem(
        VariableRange(1, 1), VariableRange(1, 1), VariableRange(1, 1), VariableRange(1, 1), [], [], []);
    }

    // ----------------------------------------------------------------
    // The solver
    // ----------------------------------------------------------------

    method RefreshSolver()
      requires Configured()
      modifies this`queries, solver
      ensures queries == 0 && InSync()
    {
      assert forall k :: 0 <= k < |traceActivators| ==> traceActivators[k] in Act().frames;
      LoadSolver(solver, system, Act(), trace, activatedInit, activatedTrans, activatedError);
      queries := 0;
    }

    /** Before every query the solver may be refreshed; afterwards it is in step with the frames. */
    method WithSolver() returns (q: Query)
      requires Configured() && 0 <= queries && (queries > 0 ==> InSync())
      modifies this`queries, solver
      ensures Configured() && queries > 0 && InSync() && q == Query({}, [])
    {
      hide Synced, Setup, FormulasMatch, TransitionSystem.WellFormed;
      if queries % SOLVER_REFRESH_RATE == 0 {
        RefreshSolver();
      }
      queries := queries + 1;
      q := solver.NewQuery();
    }

    /** One of the queries whose core may be minimised, with the given literals assumed. */
    method Requery(kind: CoreQuery, ls: seq<Literal>) returns (sat: bool)
      requires Configured() && 0 <= queries && (queries > 0 ==> InSync()) && StateTrace(system, trace)
      requires QueryOk(system, trace, kind) && QueryLits(system, kind, ls)
      modifies this`queries, solver
      ensures Configured() && queries > 0 && InSync()
      ensures sat <==> !Refuted(system, trace, kind, ls)
      ensures !sat ==> solver.status.Unsatisfied? && CoreRefutes(system, trace, kind, ls, solver.status.core)
                       && solver.status.core <= BaseLits(kind, Act()) + LitSet(ls)
      ensures sat ==> solver.status.Satisfied?
      ensures sat && kind.BlockedQuery? ==>
                StepsInto(system, trace, system.UnprimeAll(ls), kind.from, solver.status.model)
    {
      hide Synced, Setup, FormulasMatch, TransitionSystem.WellFormed, Refuted, CoreRefutes, Answers, StepsInto,
        StateTrace, LitSet, NotAll;
      SetupRanges(system, Act(), |trace|, store.size);
      var q := WithSolver();
      match kind {
        case PredecessorQuery(s, ins) =>
          q := q.ConstrainNot(system.PrimeAll(s));
          q := q.Assume([transitionActivator]);
          q := q.Assume(ins);
        case BlockedQuery(from) =>
          q := q.Assume([traceActivators[from]]);
          q := q.Assume([transitionActivator]);
      }
      q := q.Assume(ls);
      assert q.assumed == BaseLits(kind, Act()) + LitSet(ls);
      assert q.constraint == QueryConstraint(system, kind);
      sat := solver.IsSat(q);
      if sat {
        RequerySat(solver.clauses, system, Act(), trace, store.size, kind, ls, solver.status.model);
      } else {
        RequeryUnsat(solver.clauses, system, Act(), trace, store.size, kind, ls, solver.status.core);
      }
    }

    /**
     * Drops literals one by one as long as the query stays unsatisfiable. The
     * result is a refuted part of the seed from which no single literal can be
     * dropped, whichever cores the solver reports on the way.
     */
    method GetMinimalCore(kind: CoreQuery, seed: seq<Literal>) returns (core: seq<Literal>)
      requires Configured() && queries > 0 && InSync() && StateTrace(system, trace)
      requires QueryOk(system, trace, kind) && QueryLits(system, kind, seed) && Refuted(system, trace, kind, seed)
      modifies this`queries, solver
      ensures Configured() && queries > 0 && InSync()
      ensures forall l :: l in core ==> l in seed
      ensures QueryLits(system, kind, core) && Refuted(system, trace, kind, core)
      ensures MinimalRefuted(system, trace, kind, core)
    {
      hide InSync, Setup, FormulasMatch, TransitionSystem.WellFormed, Refuted, CoreRefutes, StepsInto, StateTrace,
        Needed, QueryOk;
      core := seed;
      var lits := core;
      for n := 0 to |lits|
        invariant Configured() && queries > 0 && InSync()
        invariant forall l :: l in core ==> l in seed
        invariant QueryLits(system, kind, core) && Refuted(system, trace, kind, core)
        invariant forall m :: 0 <= m < n ==> Needed(system, trace, kind, core, lits[m])
      {
        ghost var before := core;
        core := Remove(core, lits[n]);
        var sat := Requery(kind, core);
        ghost var failed := if sat then {} else solver.status.core;
        if sat {
          core := core + [lits[n]];
        } else {
          core := solver.GetCore(core);
        }
        MinimisationStep(
          system, Act(), store.size, trace, kind, lits, n, before, core, sat, failed);
      }
      AllNeeded(system, Act(), store.size, trace, kind, seed, core);
    }

    // ----------------------------------------------------------------
    // Queries about a single frame
    // ----------------------------------------------------------------

    /** Whether some state of R_{i-1} steps into the cube. */
    method HasPredecessor(s: seq<Literal>, i: nat) returns (r: bool)
      requires Configured() && 0 <= queries && (queries > 0 ==> InSync()) && StateTrace(system, trace)
      requires 1 <= i <= |trace| && system.IsStateCube(s)
      modifies this`queries, solver
      ensures Configured() && queries > 0 && InSync()
      ensures r <==> !Blockable(system, trace, false, s, i - 1)
      ensures r ==> solver.status.Satisfied? && StepsInto(system, trace, s, i - 1, solver.status.model)
      ensures !r ==> solver.status.Unsatisfied?
                     && CoreRefutes(
                          system, trace, BlockedQuery(i - 1), system.PrimeAll(s), solver.status.core)
                     && solver.status.core <= BaseLits(BlockedQuery(i - 1), Act()) + LitSet(system.PrimeAll(s))
    {
      hide InSync, Setup, FormulasMatch, TransitionSystem.WellFormed, CoreRefutes, StepsInto, StateTrace, Blockable;
      SetupRanges(system, Act(), |trace|, store.size);
      PrimedTwice(system, s);
      r := Requery(BlockedQuery(i - 1), system.PrimeAll(s));
    }

    /** Asks the solver whether the cube has a state in the frame. */
    method MeetsFrame(s: seq<Literal>, level: nat) returns (sat: bool)
      requires Configured() && 0 <= queries && (queries > 0 ==> InSync()) && StateTrace(system, trace)
      requires level <= Depth() && system.IsStateCube(s)
      modifies this`queries, solver
      ensures Configured() && queries > 0 && InSync()
      ensures sat <==> !Blocked(system, trace, false, level, s)
    {
      hide Synced, TransitionSystem.WellFormed, Setup, FormulasMatch, Blocked, StateTrace;
      var q := WithSolver();
      q := q.Assume([traceActivators[level]]);
      q := q.Assume(s);
      assert q.constraint == [];
      sat := solver.IsSat(q);
      if sat {
        StillMeetsFrame(solver.clauses, system, Act(), trace, store.size, s, level, solver.status.model);
      } else {
        MeetsFrameNoMore(solver.clauses, system, Act(), trace, store.size, s, level, solver.status.core);
      }
    }

    method IsSubsumed(c: Cube, level: nat) returns (r: bool)
      requires level <= Depth()
      ensures r ==> Blocked(system, trace, false, level, c.literals)
    {
      for k := 0 to |trace[level]| {
        if Subsumes(trace[level][k], c) {
          SubsumedIsBlocked(system, trace, false, level, level, trace[level][k], c);
          return true;
        }
      }
      r := false;
    }

    method IsAlreadyBlocked(s: Cube, level: nat) returns (blocked: bool)
      requires Valid() && 1 <= level <= Depth() && system.IsStateCube(s.literals)
      modifies this`queries, solver
      ensures Valid() && (old(queries) > 0 ==> queries > 0)
      ensures blocked <==> Blocked(system, trace, false, level, s.literals)
    {
      hide FrameInvariant, PoolOk, CotraceOk, InSync, TransitionSystem.WellFormed, Setup, FormulasMatch, Blocked,
        StateTrace, ConsistentTrace;
      InvariantHasStateTrace(system, Act(), store.size, trace, false);
      blocked := IsSubsumed(s, level);
      if !blocked {
        var sat := MeetsFrame(s.literals, level);
        blocked := !sat;
      }
    }

    // ----------------------------------------------------------------
    // The cotrace
    // ----------------------------------------------------------------

    method AddReachingAt(h: nat, level: nat)
      requires CotraceOk(cotrace.entries, coframes) && AtDistance(cotrace.entries, h, level)
      modifies this`coframes
      ensures CotraceOk(cotrace.entries, coframes)
      ensures forall j, d {:trigger d in old(coframes)[j]} ::
                0 <= j < |old(coframes)| && d in old(coframes)[j] ==> d < |cotrace.entries|
      ensures ReachedBetween(cotrace.entries, old(coframes), coframes, h, level)
    {
      ghost var before := coframes;
      forall j, d | 0 <= j < |coframes| && d in coframes[j]
        ensures d < |cotrace.entries|
      {
        assert AtDistance(cotrace.entries, d, j);
      }
      while Codepth() < level
        invariant |before| <= |coframes| && (|coframes| == |before| || |coframes| <= level + 1)
        invariant forall j :: 0 <= j < |coframes| ==> coframes[j] == if j < |before| then before[j] else []
        decreases level - Codepth()
      {
        coframes := coframes + [[]];
      }
      var rest := RemoveSubsumedHandles(cotrace.entries, coframes[level], cotrace.entries[h].state);
      coframes := coframes[level := rest + [h]];
      CotraceAfterReaching(cotrace.entries, before, coframes, h, level);
    }

    /** Asks the solver for an error state of the newest frame. */
    method HasErrorState() returns (sat: bool)
      requires Configured() && 0 <= queries && (queries > 0 ==> InSync())
      requires StateTrace(system, trace) && PoolOk(system, cotrace.entries)
      modifies this`queries, solver
      ensures Configured() && queries > 0 && InSync()
      ensures !sat ==> NoErrorIn(system, trace, false, Depth())
      ensures sat ==> solver.status.Satisfied?
                      && ErrorEntryOk(system, trace, cotrace.entries, solver.status.model)
    {
      hide Synced, TransitionSystem.WellFormed, Setup, FormulasMatch, StateTrace, ErrorEntryOk, PoolOk, LitSet,
        NoErrorIn, Answers;
      var q := WithSolver();
      q := q.Assume([traceActivators[Depth()]]);
      q := q.Assume([errorActivator]);
      assert q.constraint == [];
      assert q.assumed == {} + LitSet([traceActivators[Depth()]]) + LitSet([errorActivator]);
      assert q.assumed == LitSet([traceActivators[Depth()]]) + LitSet([errorActivator]);
      sat := solver.IsSat(q);
      if sat {
        FoundErrorEntry(
          solver.clauses, system, Act(), trace, store.size, cotrace.entries, solver.status.model);
      } else {
        NoErrorState(solver.clauses, system, Act(), trace, store.size, solver.status.core);
      }
    }

    /** Records the error state of the last answer in coframe 0. */
    method RecordErrorState() returns (h: nat)
      requires Valid() && queries > 0 && solver.status.Satisfied?
      requires ErrorEntryOk(system, trace, cotrace.entries, solver.status.model)
      modifies this`coframes, cotrace
      ensures Valid() && ErrorAt(system, trace, cotrace.entries, h)
    {
      hide FrameInvariant, PoolOk, CotraceOk, Synced, TransitionSystem.WellFormed, Setup, FormulasMatch, StateTrace,
        Blocked, ReachedBetween, ErrorEntryOk, ConsistentTrace, MeetsInit;
      ghost var m := solver.status.model;
      SetupRanges(system, Act(), |trace|, store.size);
      NewErrorEntry(system, Act(), store.size, trace, cotrace.entries, coframes, m);
      var state := solver.GetModel(system.states);
      var input := solver.GetModel(system.inputs);
      h := cotrace.Make(MakeCube(state), MakeCube(input), None);
      AddReachingAt(h, 0);
    }

    method GetErrorState() returns (handle: Option<nat>)
      requires Valid()
      modifies this`queries, this`coframes, solver, cotrace
      ensures Valid() && queries > 0
      ensures match handle
              case None => NoErrorIn(system, trace, false, Depth())
              case Some(h) => ErrorAt(system, trace, cotrace.entries, h)
    {
      hide FrameInvariant, PoolOk, CotraceOk, CarEngine.InSync, TransitionSystem.WellFormed, Setup, FormulasMatch,
        StateTrace, ErrorAt, ErrorEntryOk, ConsistentTrace, NoErrorIn;
      InvariantHasStateTrace(system, Act(), store.size, trace, false);
      var sat := HasErrorState();
      if sat {
        var h := RecordErrorState();
        handle := Some(h);
      } else {
        handle := None;
      }
    }

    // ----------------------------------------------------------------
    // Obligations
    // ----------------------------------------------------------------

    /** The entry of a generalised predecessor found by the last query. */
    method PredecessorEntryOf(po: Obligation) returns (e: Entry)
      requires Valid() && queries > 0 && po.level >= 1 && po.handle < |cotrace.entries|
      requires system.IsStateCube(cotrace.entries[po.handle].state.literals)
      requires solver.status.Satisfied?
      requires StepsInto(
                 system, trace, cotrace.entries[po.handle].state.literals, po.level - 1, solver.status.model)
      modifies this`queries, solver
      ensures Configured() && queries > 0 && InSync()
      ensures EntryFits(system, trace, cotrace.entries, coframes, po, e)
      ensures opts.mucPredecessor ==> MinimalLead(system, e, cotrace.entries[po.handle].state.literals)
      ensures !opts.mucPredecessor ==>
                solver.status.Unsatisfied?
                && FailedState(system, old(solver.status).model, solver.status.core, e.state.literals)
    {
      hide FrameInvariant, PoolOk, CotraceOk, CarEngine.InSync, TransitionSystem.WellFormed, Setup, FormulasMatch,
        StateTrace, ConsistentTrace, StepsInto, Refuted, CoreRefutes, QueryOk, PredecessorStored, QueryLits, Consistent,
        CubeTrue, MinimalRefuted, MinimalLead;
      ghost var m := solver.status.model;
      InvariantHasStateTrace(system, Act(), store.size, trace, false);
      var successor := cotrace.Get(po.handle);
      var state := successor.state;
      PredecessorQueryOk(system, Act(), store.size, trace, state.literals, po.level - 1, m);
      SetupRanges(system, Act(), |trace|, store.size);
      var ins := solver.GetModel(system.inputs);
      var p := solver.GetModel(system.states);
      var core := PredecessorCore(PredecessorQuery(state.literals, ins), p);
      e := Entry(MakeCube(core), MakeCube(ins), Some(po.handle));
      PredecessorEntryOk(system, Act(), store.size, trace, cotrace.entries, coframes, po, m, core, e);
      if opts.mucPredecessor {
        StoredIsMinimal(system, trace, state.literals, ins, core, e);
      }
    }

    /** Generalises a predecessor found by the last query and stores it in the pool. */
    method GetPredecessor(po: Obligation) returns (h: nat)
      requires Valid() && queries > 0 && po.level >= 1 && po.handle < |cotrace.entries|
      requires system.IsStateCube(cotrace.entries[po.handle].state.literals)
      requires solver.status.Satisfied?
      requires StepsInto(
                 system, trace, cotrace.entries[po.handle].state.literals, po.level - 1, solver.status.model)
      modifies this`queries, solver, cotrace
      ensures Valid() && queries > 0
      ensures PredecessorStored(system, trace, old(cotrace.entries), cotrace.entries, po, h)
      ensures |cotrace.entries| == h + 1 && po.handle < h
      ensures opts.mucPredecessor ==>
                MinimalLead(system, cotrace.entries[h], cotrace.entries[po.handle].state.literals)
      ensures !opts.mucPredecessor ==>
                solver.status.Unsatisfied?
                && FailedState(
                     system, old(solver.status).model, solver.status.core, cotrace.entries[h].state.literals)
    {
      hide FrameInvariant, PoolOk, CotraceOk, CarEngine.InSync, TransitionSystem.WellFormed, Setup, FormulasMatch,
        StateTrace, ConsistentTrace, StepsInto, PredecessorStored, MinimalLead, FailedState;
      var e := PredecessorEntryOf(po);
      h := cotrace.Make(e.state, e.input, e.successor);
    }

    /** The failed part of a predecessor's state, minimised if asked for. */
    method PredecessorCore(kind: CoreQuery, p: seq<Literal>) returns (core: seq<Literal>)
      requires Configured() && queries > 0 && InSync() && StateTrace(system, trace) && kind.PredecessorQuery?
      requires QueryOk(system, trace, kind) && QueryLits(system, kind, p) && Refuted(system, trace, kind, p)
      modifies this`queries, solver
      ensures Configured() && queries > 0 && InSync()
      ensures forall l :: l in core ==> l in p
      ensures QueryLits(system, kind, core) && Refuted(system, trace, kind, core)
      ensures opts.mucPredecessor ==> MinimalRefuted(system, trace, kind, core)
      ensures !opts.mucPredecessor ==>
                solver.status.Unsatisfied? && forall l :: l in core <==> l in p && l in solver.status.core
    {
      hide CarEngine.InSync, Setup, FormulasMatch, TransitionSystem.WellFormed, Refuted, StepsInto, StateTrace, QueryOk,
        MinimalRefuted;
      var sat := Requery(kind, p);
      assert !sat;
      core := solver.GetCore(p);
      if opts.mucPredecessor {
        core := GetMinimalCore(kind, core);
      }
    }

    /** The failed next-state literals of a query without an answer. */
    method NextCore(s: seq<Literal>, level: nat) returns (core: seq<Literal>)
      requires Configured() && 1 <= level <= |trace| && system.IsStateCube(s) && Consistent(s)
      requires solver.status.Unsatisfied?
      requires CoreRefutes(
                 system, trace, BlockedQuery(level - 1), system.PrimeAll(s), solver.status.core)
      requires solver.status.core <= BaseLits(BlockedQuery(level - 1), Act()) + LitSet(system.PrimeAll(s))
      ensures system.DisjointRanges()
      ensures forall l :: l in core <==> l in system.PrimeAll(s) && l in solver.status.core
      ensures QueryLits(system, BlockedQuery(level - 1), core)
              && Refuted(system, trace, BlockedQuery(level - 1), core)
    {
      hide Setup, FormulasMatch, TransitionSystem.WellFormed, Refuted, CoreRefutes, Consistent, LitSet, BaseLits;
      SetupRanges(system, Act(), |trace|, store.size);
      FailedLiterals(system, Act(), store.size, |trace|, s, level - 1, solver.status.core);
      core := solver.GetCoreOver(system.nexts);
      NextStateCore(system, Act(), store.size, trace, s, level - 1, solver.status.core, core);
    }

    /** The failed next-state literals of the last query, minimised if asked for. */
    method BlockedCore(s: seq<Literal>, level: nat) returns (core: seq<Literal>)
      requires Configured() && queries > 0 && InSync() && StateTrace(system, trace)
      requires 1 <= level <= |trace| && system.IsStateCube(s) && Consistent(s)
      requires solver.status.Unsatisfied?
      requires CoreRefutes(
                 system, trace, BlockedQuery(level - 1), system.PrimeAll(s), solver.status.core)
      requires solver.status.core <= BaseLits(BlockedQuery(level - 1), Act()) + LitSet(system.PrimeAll(s))
      modifies this`queries, solver
      ensures Configured() && queries > 0 && InSync()
      ensures system.DisjointRanges() && forall l :: l in core ==> l in system.PrimeAll(s)
      ensures QueryLits(system, BlockedQuery(level - 1), core)
              && Refuted(system, trace, BlockedQuery(level - 1), core)
      ensures opts.mucBlocked ==> MinimalRefuted(system, trace, BlockedQuery(level - 1), core)
      ensures !opts.mucBlocked ==>
                forall l :: l in core <==> l in system.PrimeAll(s) && l in old(solver.status).core
    {
      hide CarEngine.InSync, Setup, FormulasMatch, TransitionSystem.WellFormed, Refuted, CoreRefutes, StateTrace,
        Consistent, LitSet, BaseLits, MinimalRefuted;
      core := NextCore(s, level);
      if opts.mucBlocked {
        core := GetMinimalCore(BlockedQuery(level - 1), core);
      }
    }

    /** Generalises the cube that the last query found to have no predecessor. */
    method GeneralizeBlocked(s: seq<Literal>, level: nat) returns (c: Cube)
      requires Configured() && queries > 0 && InSync() && StateTrace(system, trace)
      requires 1 <= level <= |trace| && system.IsStateCube(s) && Consistent(s)
      requires solver.status.Unsatisfied?
      requires CoreRefutes(
                 system, trace, BlockedQuery(level - 1), system.PrimeAll(s), solver.status.core)
      requires solver.status.core <= BaseLits(BlockedQuery(level - 1), Act()) + LitSet(system.PrimeAll(s))
      modifies this`queries, solver
      ensures Configured() && queries > 0 && InSync()
      ensures forall l :: l in c.literals ==> l in s
      ensures system.IsStateCube(c.literals) && Consistent(c.literals)
      ensures Blockable(system, trace, false, c.literals, level - 1)
      ensures opts.mucBlocked ==> MinimalBlocked(system, trace, c.literals, level - 1)
      ensures !opts.mucBlocked ==> FailedOnly(system, s, old(solver.status).core, c.literals)
    {
      hide CarEngine.InSync, Setup, FormulasMatch, TransitionSystem.WellFormed, Refuted, CoreRefutes, StateTrace,
        Consistent, LitSet, BaseLits, Blockable, MinimalBlocked, MinimalRefuted, FailedOnly, MakeCube;
      ghost var failed := solver.status.core;
      var core := BlockedCore(s, level);
      if opts.mucBlocked {
        UnprimedIsMinimal(system, Act(), store.size, trace, level - 1, core);
      } else {
        UnprimedIsFailed(system, s, failed, core);
      }
      UnprimedCore(system, Act(), store.size, trace, s, level - 1, core);
      c := MakeCube(system.UnprimeAll(core));
    }

    method AddBlockedAt(c: Cube, level: nat)
      requires Valid() && queries > 0 && 1 <= level <= Depth()
      requires system.IsStateCube(c.literals) && Consistent(c.literals)
      requires Blockable(system, trace, false, c.literals, level - 1)
      modifies this`trace, solver
      ensures Valid() && |trace| == |old(trace)|
      ensures forall j :: 0 <= j < |trace| && j != level ==> trace[j] == old(trace)[j]
      ensures BlockedBetween(old(trace), trace, c, level, level)
      ensures Size() <= old(Size())
      ensures !Blocked(system, old(trace), false, level, c.literals) ==> Size() < old(Size())
      ensures Blocked(system, trace, false, level, c.literals)
    {
      hide FrameInvariant, PoolOk, CotraceOk, Synced, TransitionSystem.WellFormed, Setup, FormulasMatch, Blockable,
        Blocked, SizeFrom, StateTrace, ConsistentTrace, Consistent;
      ghost var before, act := trace, Act();
      var frame := RemoveSubsumed(trace[level], c);
      trace := trace[level := frame + [c]];
      assert Act() == act;
      ActivatorPositive(system, act, |trace|, store.size, level);
      CarBlockedAt(solver.clauses, system, act, store.size, before, trace, c, level);
      ConsistentAfterBlocking(before, trace, c, level);
      solver.AssertFormula(Activate(NegateCube(c), traceActivators[level]));
    }

    /** Blocks the cube of an obligation without predecessors. */
    method BlockObligation(s: seq<Literal>, level: nat)
      requires Valid() && queries > 0 && 1 <= level <= Depth()
      requires system.IsStateCube(s) && Consistent(s) && !Blocked(system, trace, false, level, s)
      requires solver.status.Unsatisfied?
      requires CoreRefutes(
                 system, trace, BlockedQuery(level - 1), system.PrimeAll(s), solver.status.core)
      requires solver.status.core <= BaseLits(BlockedQuery(level - 1), Act()) + LitSet(system.PrimeAll(s))
      modifies this`queries, this`trace, solver
      ensures Valid() && |trace| == |old(trace)| && Size() < old(Size())
      ensures FramesShrink(system, old(trace), trace, false) && Blocked(system, trace, false, level, s)
    {
      hide FrameInvariant, PoolOk, CotraceOk, CarEngine.InSync, TransitionSystem.WellFormed, Setup, FormulasMatch,
        StateTrace, ConsistentTrace, Blocked, CoreRefutes, Consistent, BaseLits, LitSet, Blockable, SizeFrom,
        BlockedBetween, BlockedIn, FramesShrink;
      ghost var before := trace;
      InvariantHasStateTrace(system, Act(), store.size, trace, false);
      var c := GeneralizeBlocked(s, level);
      ShrunkCubeBlocks(system, before, level, c.literals, s);
      AddBlockedAt(c, level);
      ShrunkCubeBlocks(system, trace, level, c.literals, s);
      SingleFrameBlockedIn(before, trace, c, level);
      ShrunkByBlocking(system, before, trace, false, c, level);
    }

    /** Stores the predecessor found by the last query as an obligation one level down and one coframe up. */
    method StorePredecessor(po: Obligation, ghost from: nat) returns (pred: Obligation)
      requires Valid() && queries > 0 && from < |coframes|
      requires po.level >= 1 && po.handle < |cotrace.entries| && from <= po.colevel
      requires ObligationOk(system, trace, cotrace.entries, |coframes|, from, po)
      requires system.IsStateCube(cotrace.entries[po.handle].state.literals)
      requires solver.status.Satisfied?
      requires StepsInto(
                 system, trace, cotrace.entries[po.handle].state.literals, po.level - 1, solver.status.model)
      modifies this`queries, this`coframes, solver, cotrace
      ensures Valid()
      ensures old(cotrace.entries) <= cotrace.entries && SuccessorsDecrease(cotrace.entries)
      ensures |old(coframes)| <= |coframes| && CoframesKept(old(coframes), coframes, from)
      ensures ObligationOk(system, trace, cotrace.entries, |coframes|, from, pred)
      ensures pred.level == po.level - 1 && pred.handle < |cotrace.entries|
      ensures !Blocked(system, trace, false, pred.level, cotrace.entries[pred.handle].state.literals)
    {
      hide FrameInvariant, PoolOk, CotraceOk, CarEngine.InSync, TransitionSystem.WellFormed, Setup, FormulasMatch,
        ConsistentTrace, Blocked, StepsInto, PredecessorStored, ObligationOk, ReachedBetween, MinimalLead,
        FailedState,        AtDistance, SuccessorsDecrease, CoframesKept, StateTrace, Consistent;
      ghost var entries, frames := cotrace.entries, coframes;
      var h := GetPredecessor(po);
      pred := Obligation(po.level - 1, po.colevel + 1, h);
      PredecessorIsObligation(system, trace, entries, cotrace.entries, |frames|, |frames|, from, po, h);
      AddReachingAt(h, pred.colevel);
      ReachedAbove(cotrace.entries, frames, coframes, h, pred.colevel, from);
      PredecessorIsObligation(system, trace, entries, cotrace.entries, |frames|, |coframes|, from, po, h);
      KeptIsLonger(frames, coframes, from);
    }

    /** Puts the predecessor found by the last query in front of the first obligation. */
    method PushPredecessor(q: seq<Obligation>, ghost from: nat) returns (q': seq<Obligation>)
      requires Valid() && queries > 0 && from < |coframes|
      requires QueueOk(system, trace, cotrace.entries, |coframes|, from, q) && q != [] && q[0].level >= 1
      requires q[0].handle < |cotrace.entries| && from <= q[0].colevel
      requires ObligationOk(system, trace, cotrace.entries, |coframes|, from, q[0])
      requires system.IsStateCube(cotrace.entries[q[0].handle].state.literals)
      requires solver.status.Satisfied?
      requires StepsInto(
                 system, trace, cotrace.entries[q[0].handle].state.literals, q[0].level - 1, solver.status.model)
      modifies this`queries, this`coframes, solver, cotrace
      ensures Valid()
      ensures old(cotrace.entries) <= cotrace.entries && CoframesKept(old(coframes), coframes, from)
      ensures QueueOk(system, trace, cotrace.entries, |coframes|, from, q')
      ensures FrontUnblocked(system, trace, cotrace.entries, q') && q'[0].level == q[0].level - 1
      ensures Ordered(q[1..]) && q' == Push(Push(q[1..], q'[0]), q[0]) && forall po :: po in q ==> po in q'
    {
      hide FrameInvariant, PoolOk, CotraceOk, CarEngine.InSync, TransitionSystem.WellFormed, Setup, FormulasMatch,
        ConsistentTrace, Blocked, StepsInto, QueueOk, ObligationOk, Push, SuccessorsDecrease, CoframesKept, Ordered;
      ghost var entries, frames := cotrace.entries, coframes;
      var pred := StorePredecessor(q[0], from);
      QueueAfterPredecessor(system, trace, entries, cotrace.entries, |frames|, |coframes|, from, q, pred);
      q' := Push(Push(q[1..], pred), q[0]);
    }

    /** Blocks the first obligation's cube, and raises the obligation if asked for. */
    method BlockFront(q: seq<Obligation>, ghost from: nat, s: seq<Literal>) returns (q': seq<Obligation>)
      requires Valid() && queries > 0 && from < |coframes|
      requires QueueOk(system, trace, cotrace.entries, |coframes|, from, q) && q != []
      requires 1 <= q[0].level <= Depth()
      requires system.IsStateCube(s) && Consistent(s) && !Blocked(system, trace, false, q[0].level, s)
      requires solver.status.Unsatisfied?
      requires CoreRefutes(
                 system, trace, BlockedQuery(q[0].level - 1), system.PrimeAll(s), solver.status.core)
      requires solver.status.core <= BaseLits(BlockedQuery(q[0].level - 1), Act()) + LitSet(system.PrimeAll(s))
      modifies this`queries, this`trace, solver
      ensures Valid() && |trace| == |old(trace)| && Size() < old(Size())
      ensures FramesShrink(system, old(trace), trace, false) && Blocked(system, trace, false, q[0].level, s)
      ensures QueueOk(system, trace, cotrace.entries, |coframes|, from, q')
      ensures Ordered(q[1..]) && forall po :: po in q[1..] ==> po in q'
      ensures q' == if opts.repushBlockedObligations && q[0].level < Depth()
                    then Push(q[1..], Obligation(q[0].level + 1, q[0].colevel, q[0].handle)) else q[1..]
    {
      hide FrameInvariant, PoolOk, CotraceOk, CarEngine.InSync, TransitionSystem.WellFormed, Setup, FormulasMatch,
        StateTrace, ConsistentTrace, Blocked, CoreRefutes, Consistent, BaseLits, LitSet, SizeFrom, QueueOk, Push,
        Ordered, FramesShrink;
      var po := q[0];
      ghost var oldTrace := trace;
      BlockObligation(s, po.level);
      QueueAfterBlocking(system, oldTrace, trace, cotrace.entries, |coframes|, from, q);
      q' := q[1..];
      if opts.repushBlockedObligations && po.level < Depth() {
        q' := Push(q', Obligation(po.level + 1, po.colevel, po.handle));
      }
    }

    /**
     * Handles the first obligation, which still meets its frame: puts a
     * predecessor in front of it, or blocks it and raises it if asked for.
     */
    method Expand(q: seq<Obligation>, ghost from: nat) returns (q': seq<Obligation>, shrunk: bool)
      requires Valid() && from < |coframes|
      requires QueueOk(system, trace, cotrace.entries, |coframes|, from, q)
      requires FrontUnblocked(system, trace, cotrace.entries, q) && q[0].level >= 1
      modifies this`queries, this`trace, this`coframes, solver, cotrace
      ensures Valid() && |trace| == |old(trace)| && FramesShrink(system, old(trace), trace, false)
      ensures old(cotrace.entries) <= cotrace.entries && CoframesKept(old(coframes), coframes, from)
      ensures QueueOk(system, trace, cotrace.entries, |coframes|, from, q')
      ensures Ordered(q[1..]) && forall po :: po in q[1..] ==> po in q'
      ensures shrunk ==>
                && Size() < old(Size()) && q[0].handle < |cotrace.entries|
                && Blocked(system, trace, false, q[0].level, cotrace.entries[q[0].handle].state.literals)
                && q' == if opts.repushBlockedObligations && q[0].level < Depth()
                         then Push(q[1..], Obligation(q[0].level + 1, q[0].colevel, q[0].handle)) else q[1..]
      ensures !shrunk ==>
                && trace == old(trace) && FrontUnblocked(system, trace, cotrace.entries, q')
                && q'[0].level == q[0].level - 1 && q[0] in q' && q' == Push(Push(q[1..], q'[0]), q[0])
    {
      hide FrameInvariant, PoolOk, CotraceOk, CarEngine.InSync, TransitionSystem.WellFormed, Setup, FormulasMatch,
        StateTrace, ConsistentTrace, Blocked, CoreRefutes, Consistent, BaseLits, LitSet, Blockable, SizeFrom,
        StepsInto, QueueOk, ObligationOk, Push, FramesShrink, Ordered;
      ShrunkItself(system, trace, false);
      QueueTail(system, trace, cotrace.entries, |coframes|, from, q);
      ObligationCube(system, Act(), store.size, trace, cotrace.entries, |coframes|, from, q[0]);
      InvariantHasStateTrace(system, Act(), store.size, trace, false);
      var e := cotrace.Get(q[0].handle);
      var found := HasPredecessor(e.state.literals, q[0].level);
      shrunk := !found;
      if found {
        q' := PushPredecessor(q, from);
      } else {
        q' := BlockFront(q, from, e.state.literals);
      }
    }

    /** Handles the first obligation of the queue. */
    method Step(q: seq<Obligation>, ghost from: nat)
      returns (q': seq<Obligation>, cex: Option<Result>, shrunk: bool, dropped: bool)
      requires Valid() && from < |coframes| && q != []
      requires QueueOk(system, trace, cotrace.entries, |coframes|, from, q)
      modifies this`queries, this`trace, this`coframes, solver, cotrace
      ensures Valid() && |trace| == |old(trace)| && FramesShrink(system, old(trace), trace, false)
      ensures old(cotrace.entries) <= cotrace.entries && CoframesKept(old(coframes), coframes, from)
      ensures QueueOk(system, trace, cotrace.entries, |coframes|, from, q') && forall po :: po in q[1..] ==> po in q'
      ensures cex.Some? <==> q[0].level == 0
      ensures cex.Some? ==> cex.value.Counterexample? && GoodCounterexample(system, cex.value)
      ensures shrunk ==> Size() < old(Size())
      ensures !shrunk ==> trace == old(trace)
      ensures dropped ==> !shrunk && q' == q[1..] && cotrace.entries == old(cotrace.entries)
                          && !FrontUnblocked(system, trace, cotrace.entries, q)
      ensures shrunk || dropped ==>
                && q[0].handle < |cotrace.entries|
                && Blocked(system, trace, false, q[0].level, cotrace.entries[q[0].handle].state.literals)
      ensures cex.None? && !shrunk && !dropped ==>
                && q[0] in q'
                && q' != [] && FrontUnblocked(system, trace, cotrace.entries, q') && q'[0].level < q[0].level
    {
      hide FrameInvariant, PoolOk, CotraceOk, CarEngine.InSync, TransitionSystem.WellFormed, Setup, FormulasMatch,
        ConsistentTrace, Blocked, SizeFrom, QueueOk, ObligationOk, Push, GoodCounterexample, ReadOff, Consistent,
        FramesShrink, Ordered;
      ShrunkItself(system, trace, false);
      var po := q[0];
      q', cex, shrunk, dropped := q, None, false, false;
      QueueTail(system, trace, cotrace.entries, |coframes|, from, q);
      if po.level == 0 {
        var found := BuildCounterexample(system, cotrace.entries, po.handle);
        LevelZero(system, Act(), store.size, trace, cotrace.entries, |coframes|, from, po, found);
        cex := Some(found);
      } else {
        ObligationCube(system, Act(), store.size, trace, cotrace.entries, |coframes|, from, po);
        var e := cotrace.Get(po.handle);
        dropped := IsAlreadyBlocked(e.state, po.level);
        if dropped {
          q' := q[1..];
        } else {
          q', shrunk := Expand(q, from);
        }
      }
    }

    /** Blocks the starting obligation, or finds a counterexample; coframes up to its own stay as they are. */
    method SolveObligation(start: Obligation) returns (cex: Option<Result>)
      requires Valid() && start.colevel < |coframes|
      requires ObligationOk(system, trace, cotrace.entries, |coframes|, start.colevel, start)
      modifies this`queries, this`trace, this`coframes, solver, cotrace
      ensures Valid() && |trace| == |old(trace)| && FramesShrink(system, old(trace), trace, false)
      ensures CoframesKept(old(coframes), coframes, start.colevel) && old(cotrace.entries) <= cotrace.entries
      ensures Size() <= old(Size())
      ensures cex.None? ==>
                && start.handle < |old(cotrace.entries)|
                && Blocked(system, trace, false, start.level, old(cotrace.entries)[start.handle].state.literals)
      ensures cex.None? ==> Size() < old(Size()) || !FrontUnblocked(system, old(trace), old(cotrace.entries), [start])
      ensures start.level == 0 ==> cex.Some?
      ensures cex.Some? ==> cex.value.Counterexample? && GoodCounterexample(system, cex.value)
    {
      hide FrameInvariant, PoolOk, CotraceOk, CarEngine.InSync, TransitionSystem.WellFormed, Setup, FormulasMatch,
        ConsistentTrace, SizeFrom, QueueOk, ObligationOk, GoodCounterexample, FrontUnblocked, CoframesKept, Configured,
        FramesShrink, QueuedOrBlocked, Blocked;
      StartQueue(system, trace, cotrace.entries, |coframes|, start);
      KeptItself(coframes, start.colevel);
      ghost var startTrace, startSize, startCoframes, startEntries := trace, Size(), coframes, cotrace.entries;
      ghost var startCube := cotrace.entries[start.handle].state.literals;
      ShrunkItself(system, trace, false);
      StartQueued(system, trace, start, startCube);
      var q := [start];
      ghost var unblocked := false;
      while q != []
        invariant Valid() && |trace| == |startTrace| && startEntries <= cotrace.entries
        invariant FramesShrink(system, startTrace, trace, false)
        invariant QueuedOrBlocked(system, trace, q, start, startCube)
        invariant start.colevel < |coframes| && CoframesKept(startCoframes, coframes, start.colevel)
        invariant QueueOk(system, trace, cotrace.entries, |coframes|, start.colevel, q)
        invariant Size() <= startSize && (start.level == 0 ==> q == [start])
        invariant Size() < startSize || !FrontUnblocked(system, startTrace, startEntries, [start])
                  || (trace == startTrace && start in q)
        invariant unblocked ==> q != [] && FrontUnblocked(system, trace, cotrace.entries, q)
        decreases Size(), if unblocked then 0 else 1, if unblocked then q[0].level else |q|
      {
        ghost var before, beforeCoframes, beforeTrace := q, coframes, trace;
        var shrunk, dropped;
        q, cex, shrunk, dropped := Step(q, start.colevel);
        KeptTwice(startCoframes, beforeCoframes, coframes, start.colevel);
        ShrunkTwice(system, startTrace, beforeTrace, trace, false);
        if cex.Some? {
          return;
        }
        if dropped {
          DroppedStart(system, trace, startEntries, cotrace.entries, before, start);
        }
        StillQueuedOrBlocked(system, beforeTrace, trace, before, q, start, startCube);
        unblocked := !shrunk && !dropped;
      }
      NothingQueued(system, trace, start, startCube);
      cex := None;
    }

    // ----------------------------------------------------------------
    // The main loop
    // ----------------------------------------------------------------

    /** Tries to block one stored cube in the newest frame. */
    method CheckStored(j: nat, h: nat) returns (cex: Option<Result>)
      requires Valid() && Depth() >= 1 && j < |coframes| && h in coframes[j]
      modifies this`queries, this`trace, this`coframes, solver, cotrace
      ensures Valid() && |trace| == |old(trace)| && FramesShrink(system, old(trace), trace, false)
      ensures CoframesKept(old(coframes), coframes, j) && old(cotrace.entries) <= cotrace.entries
      ensures j < |coframes| && coframes[j] == old(coframes)[j]
      ensures Size() <= old(Size())
      ensures cex.None? ==>
                && h < |old(cotrace.entries)|
                && Blocked(system, trace, false, Depth(), old(cotrace.entries)[h].state.literals)
      ensures cex.Some? ==> cex.value.Counterexample? && GoodCounterexample(system, cex.value)
    {
      hide FrameInvariant, PoolOk, CotraceOk, CarEngine.InSync, TransitionSystem.WellFormed, Setup, FormulasMatch,
        ConsistentTrace, SizeFrom, GoodCounterexample, FrontUnblocked, FramesShrink, CoframesKept, ObligationOk,
        Blocked;
      ghost var before := coframes;
      StoredObligation(system, trace, cotrace.entries, coframes, j, h);
      cex := SolveObligation(Obligation(Depth(), j, h));
      SameCoframe(before, coframes, j);
    }

    /** Tries to block everything stored in one coframe. */
    method CheckCoframe(j: nat, ghost entries: Pool) returns (cex: Option<Result>)
      requires Valid() && j < |coframes| && (Depth() == 0 ==> coframes[j] == []) && entries <= cotrace.entries
      requires forall h :: h in coframes[j] ==> h < |entries|
      modifies this`queries, this`trace, this`coframes, solver, cotrace
      ensures Valid() && |trace| == |old(trace)| && FramesShrink(system, old(trace), trace, false)
      ensures CoframesKept(old(coframes), coframes, j) && old(cotrace.entries) <= cotrace.entries
      ensures Size() <= old(Size())
      ensures cex.None? ==> HandlesBlocked(system, trace, entries, Depth(), old(coframes)[j], |old(coframes)[j]|)
      ensures cex.Some? ==> cex.value.Counterexample? && GoodCounterexample(system, cex.value)
    {
      hide FrameInvariant, PoolOk, CotraceOk, CarEngine.InSync, TransitionSystem.WellFormed, Setup, FormulasMatch,
        ConsistentTrace, SizeFrom, GoodCounterexample, FrontUnblocked, FramesShrink, CoframesKept, ObligationOk,
        Blocked;
      ghost var startTrace, startCoframes := trace, coframes;
      var handles := coframes[j];
      ShrunkItself(system, trace, false);
      KeptItself(coframes, j);
      assert HandlesBlocked(system, trace, entries, Depth(), handles, 0);
      hide HandlesBlocked;
      for k := 0 to |handles|
        invariant Valid() && |trace| == |startTrace| && Size() <= old(Size())
        invariant FramesShrink(system, startTrace, trace, false) && old(cotrace.entries) <= cotrace.entries
        // the coframe that is being read does not change on the way
        invariant j < |coframes| && coframes[j] == handles && CoframesKept(startCoframes, coframes, j)
        invariant HandlesBlocked(system, trace, entries, Depth(), handles, k)
      {
        assert handles[k] in handles;
        ghost var before, beforeTrace := coframes, trace;
        cex := CheckStored(j, handles[k]);
        ShrunkTwice(system, startTrace, beforeTrace, trace, false);
        KeptTwice(startCoframes, before, coframes, j);
        if cex.Some? {
          return;
        }
        HandlesStayBlocked(system, beforeTrace, trace, entries, Depth(), handles, k);
        OneMoreBlocked(system, trace, entries, Depth(), handles, k);
      }
      cex := None;
    }

    /** Tries to block everything already known to lead to an error, furthest first. */
    method CheckExistingCotrace() returns (cex: Option<Result>)
      requires Valid() && (Depth() == 0 ==> AllEmpty(coframes))
      modifies this`queries, this`trace, this`coframes, solver, cotrace
      ensures Valid() && |trace| == |old(trace)|
      ensures Size() <= old(Size())
      ensures cex.None? ==> CoframesBlocked(system, trace, old(cotrace.entries), Depth(), old(coframes), 0)
      ensures cex.Some? ==> cex.value.Counterexample? && GoodCounterexample(system, cex.value)
    {
      hide FrameInvariant, PoolOk, CotraceOk, CarEngine.InSync, TransitionSystem.WellFormed, Setup, FormulasMatch,
        ConsistentTrace, SizeFrom, GoodCounterexample, FramesShrink, HandlesBlocked;
      ghost var entries, stored := cotrace.entries, coframes;
      assert CoframesBlocked(system, trace, entries, Depth(), stored, |stored|);
      hide CoframesBlocked;
      for j := |coframes| downto 0
        invariant Valid() && |trace| == |old(trace)| && Size() <= old(Size())
        invariant j <= |stored| <= |coframes| && coframes[..j] == stored[..j] && entries <= cotrace.entries
        invariant Depth() == 0 ==> AllEmpty(stored)
        invariant CoframesBlocked(system, trace, entries, Depth(), stored, j)
      {
        assert coframes[..j + 1][j] == stored[..j + 1][j];
        assert coframes[..j] == coframes[..j + 1][..j] && stored[..j] == stored[..j + 1][..j];
        HandlesInPool(entries, stored, j);
        ghost var before, beforeTrace := coframes, trace;
        cex := CheckCoframe(j, entries);
        if cex.Some? {
          return;
        }
        KeptBelow(before, coframes, j);
        CoframesStayBlocked(system, beforeTrace, trace, entries, Depth(), stored, j + 1);
        OneMoreCoframe(system, trace, entries, Depth(), stored, j);
      }
      cex := None;
    }

    /** An error state that is left in the newest frame, if there is one. */
    ghost predicate NextError(handle: Option<nat>)
      requires Configured()
      reads this`system, this`trace, this`traceActivators, store, cotrace
      reads this`activatedInit, this`activatedTrans, this`activatedError, this`initNegated
    {
      match handle
      case None => NoErrorIn(system, trace, false, Depth())
      case Some(h) => ErrorAt(system, trace, cotrace.entries, h)
    }

    /** Blocks an error state of coframe 0 in the newest frame and looks for the next one. */
    method BlockErrorState(h: nat) returns (cex: Option<Result>, next: Option<nat>)
      requires Valid() && NextError(Some(h))
      modifies this`queries, this`trace, this`coframes, solver, cotrace
      ensures Valid() && |trace| == |old(trace)|
      ensures cex.Some? ==> cex.value.Counterexample? && GoodCounterexample(system, cex.value)
      ensures cex.None? ==> queries > 0 && NextError(next) && Size() < old(Size())
    {
      hide FrameInvariant, PoolOk, CotraceOk, CarEngine.InSync, TransitionSystem.WellFormed, Setup, FormulasMatch,
        ConsistentTrace, SizeFrom, ObligationOk, GoodCounterexample, FrontUnblocked, ErrorAt, NoErrorIn, StateTrace,
        FrameSize, CoframesKept, GenuineRun;
      next := None;
      ErrorAtMeets(system, trace, cotrace.entries, coframes, h);
      cex := SolveObligation(Obligation(Depth(), 0, h));
      if cex.None? {
        next := GetErrorState();
      }
    }

    /** Extends coframe 0 by new error states until the newest frame has none left. */
    method CheckNewErrorStates() returns (cex: Option<Result>)
      requires Valid()
      modifies this`queries, this`trace, this`coframes, solver, cotrace
      ensures Valid() && |trace| == |old(trace)| && (cex.None? ==> queries > 0)
      ensures cex.None? ==> NoErrorIn(system, trace, false, Depth())
      ensures cex.Some? ==> cex.value.Counterexample? && GoodCounterexample(system, cex.value)
    {
      hide FrameInvariant, PoolOk, CotraceOk, CarEngine.InSync, TransitionSystem.WellFormed, Setup, FormulasMatch,
        ConsistentTrace, SizeFrom, GoodCounterexample, ErrorAt, NoErrorIn, FrameSize, GenuineRun;
      var handle := GetErrorState();
      while handle.Some?
        invariant Valid() && queries > 0 && |trace| == |old(trace)| && NextError(handle)
        decreases Size(), handle.Some?
      {
        cex, handle := BlockErrorState(handle.value);
        if cex.Some? {
          return;
        }
      }
      cex := None;
    }

    /** The failed part of a cube without predecessors, as a cube. */
    method FailedPart(c: Cube, i: nat) returns (d: Cube)
      requires Configured() && 1 <= i < Depth() && system.IsStateCube(c.literals) && Consistent(c.literals)
      requires solver.status.Unsatisfied?
      requires CoreRefutes(system, trace, BlockedQuery(i), system.PrimeAll(c.literals), solver.status.core)
      requires solver.status.core <= BaseLits(BlockedQuery(i), Act()) + LitSet(system.PrimeAll(c.literals))
      ensures system.IsStateCube(d.literals) && Consistent(d.literals)
      ensures Blockable(system, trace, false, d.literals, i) && forall l :: l in d.literals ==> l in c.literals
      ensures system.DisjointRanges() && FailedOnly(system, c.literals, solver.status.core, d.literals)
    {
      hide TransitionSystem.WellFormed, Setup, FormulasMatch, CoreRefutes, Blockable, BaseLits, LitSet, Consistent,
        Refuted, FailedOnly;
      var core := NextCore(c.literals, i + 1);
      UnprimedIsFailed(system, c.literals, solver.status.core, core);
      UnprimedCore(system, Act(), store.size, trace, c.literals, i, core);
      d := MakeCube(system.UnprimeAll(core));
    }

    /** The cube itself, or its failed part, if no state of R_i steps into it. */
    method PushableCube(c: Cube, i: nat) returns (d: Option<Cube>)
      requires Configured() && 0 <= queries && (queries > 0 ==> InSync()) && StateTrace(system, trace)
      requires 1 <= i < Depth() && system.IsStateCube(c.literals) && Consistent(c.literals)
      modifies this`queries, solver
      ensures Configured() && queries > 0 && InSync()
      ensures d.Some? <==> Blockable(system, trace, false, c.literals, i)
      ensures d.Some? ==> forall l :: l in d.value.literals ==> l in c.literals
      ensures d.Some? && !opts.propagateCores ==> d.value == c
      ensures d.Some? && opts.propagateCores ==>
                solver.status.Unsatisfied? && system.DisjointRanges()
                && FailedOnly(system, c.literals, solver.status.core, d.value.literals)
      ensures d.Some? ==> system.IsStateCube(d.value.literals) && Consistent(d.value.literals)
      ensures d.Some? ==> Blockable(system, trace, false, d.value.literals, i)
    {
      hide CarEngine.InSync, TransitionSystem.WellFormed, Setup, FormulasMatch, StateTrace, CoreRefutes, Blockable,
        BaseLits, LitSet, Consistent, StepsInto, FailedOnly;
      var found := HasPredecessor(c.literals, i + 1);
      if found {
        d := None;
      } else if opts.propagateCores {
        var part := FailedPart(c, i);
        d := Some(part);
      } else {
        d := Some(c);
      }
    }

    /** Pushes one cube of frame i, or its failed part, to the next frame, unless it has a predecessor in R_i. */
    method PushCube(c: Cube, i: nat) returns (pushed: bool)
      requires Valid() && 1 <= i < Depth() && c in trace[i]
      modifies this`queries, this`trace, solver
      ensures Valid() && OnlyFrame(old(trace), trace, i + 1) && FramesShrink(system, old(trace), trace, false)
      ensures pushed <==> Blockable(system, trace, false, c.literals, i)
      ensures CubePushed(system, trace, i, c)
    {
      hide FrameInvariant, PoolOk, CotraceOk, CarEngine.InSync, TransitionSystem.WellFormed, Setup, FormulasMatch,
        ConsistentTrace, StateTrace, Blockable, Consistent, SizeFrom, BlockedBetween, Blocked, FramesShrink, CubePushed;
      ghost var before := trace;
      ShrunkItself(system, trace, false);
      InvariantHasStateTrace(system, Act(), store.size, trace, false);
      CubeOfTrace(system, trace, i, c);
      var d := PushableCube(c, i);
      pushed := d.Some?;
      if pushed {
        AddBlockedAt(d.value, i + 1);
        PartIsPushed(system, before, trace, i, c, d.value);
      } else {
        NothingToPush(system, trace, i, c);
      }
    }

    /**
     * Pushes the cubes of frame i; true exactly if all of them could be pushed,
     * which means that no state of R_i steps out of it.
     */
    method PropagateLevel(i: nat) returns (pushedAll: bool)
      requires Valid() && 1 <= i < Depth()
      modifies this`queries, this`trace, solver
      ensures Valid() && OnlyFrame(old(trace), trace, i + 1) && FramesShrink(system, old(trace), trace, false)
      ensures pushedAll <==> ClosedFrame(system, trace, i)
      ensures LevelPushed(system, trace, i, |trace[i]|)
    {
      hide FrameInvariant, PoolOk, CotraceOk, CarEngine.InSync, TransitionSystem.WellFormed, Setup, FormulasMatch,
        ConsistentTrace, Blockable, ClosedFrame, SizeFrom, StateTrace, CubePushed, FramesShrink;
      ghost var startTrace := trace;
      ShrunkItself(system, trace, false);
      pushedAll := true;
      assert PushedUpTo(system, trace, i, 0) && LevelPushed(system, trace, i, 0);
      hide PushedUpTo, LevelPushed;
      for k := 0 to |trace[i]|
        // the frame that is being read does not change on the way
        invariant Valid() && OnlyFrame(startTrace, trace, i + 1) && FramesShrink(system, startTrace, trace, false)
        invariant pushedAll <==> PushedUpTo(system, trace, i, k)
        invariant LevelPushed(system, trace, i, k)
      {
        ghost var before := trace;
        var pushed := PushCube(trace[i][k], i);
        PushedOneMore(system, before, trace, i, k);
        LevelPushedOneMore(system, before, trace, i, k);
        OnlyFrameTwice(startTrace, before, trace, i + 1);
        ShrunkTwice(system, startTrace, before, trace, false);
        pushedAll := pushedAll && pushed;
      }
      if pushedAll {
        AllPushedIsClosed(system, Act(), store.size, trace, i);
      } else if ClosedFrame(system, trace, i) {
        ClosedIsAllPushed(system, trace, i);
      }
    }

    /** Pushes cubes frame by frame; true exactly if this finds a closed frame. */
    method Propagate() returns (safe: bool)
      requires Valid() && |trace| >= 2 && trace[Depth()] == []
      modifies this`queries, this`trace, solver
      ensures Valid() && |trace| == |old(trace)| && FramesShrink(system, old(trace), trace, false)
      ensures safe <==> exists i :: 1 <= i < Depth() && ClosedFrame(system, trace, i)
      ensures !safe ==> LevelsDone(system, trace, Depth())
    {
      hide FrameInvariant, PoolOk, CotraceOk, CarEngine.InSync, TransitionSystem.WellFormed, Setup, FormulasMatch,
        ConsistentTrace, ClosedFrame, LevelPushed, FramesShrink;
      ghost var startTrace := trace;
      ShrunkItself(system, trace, false);
      assert LevelsDone(system, trace, 1);
      hide LevelsDone;
      for i := 1 to Depth()
        invariant Valid() && |trace| == |startTrace| && FramesShrink(system, startTrace, trace, false)
        invariant LevelsDone(system, trace, i)
      {
        ghost var before := trace;
        var pushedAll := PropagateLevel(i);
        ShrunkTwice(system, startTrace, before, trace, false);
        if pushedAll {
          return true;
        }
        LevelsStayDone(system, before, trace, i);
      }
      NoneClosed(system, trace, Depth());
      safe := false;
    }

    /** Whether some frame lies within the union of the earlier ones. */
    method IsInductive() returns (r: bool)
      requires Valid() && 1 <= Depth()
      modifies store
      ensures Valid()
      ensures r ==> exists i :: 1 <= i <= Depth() && CoveredFrame(system, trace, i)
      ensures !r ==> NoneCoveredBelow(system, trace, Depth() + 1)
    {
      hide PoolOk, CotraceOk, CarEngine.InSync, TransitionSystem.WellFormed, Setup, FormulasMatch, ConsistentTrace,
        CoveredFrame, DescribesOutside, ActivatesFrame, NegationHolds, FrameInvariant, VarsBelow, LitsBelow, StateTrace;
      var checker := new Solver();
      checker.AssertFormula(initNegated);
      InvariantHasStateTrace(system, Act(), store.size, trace, false);
      InitOutside(system, Act(), store.size, trace);
      assert checker.clauses == initNegated;
      assert NoneCoveredBelow(system, trace, 1);
      hide NoneCoveredBelow;
      for i := 1 to Depth() + 1
        modifies store, checker
        invariant Configured() && old(store.size) <= store.size
        invariant i <= Depth() ==> DescribesOutside(checker.clauses, system, trace, i, store.size)
        invariant NoneCoveredBelow(system, trace, i)
      {
        var covered := IsCovered(checker, i);
        if covered {
          return true;
        }
        NoneCoveredOneMore(system, trace, i);
      }
      r := false;
    }

    /** Asks for a state of frame i outside the earlier ones, then takes frame i out as well. */
    method IsCovered(checker: Solver, i: nat) returns (covered: bool)
      requires Configured() && FrameInvariant(system, trace, false) && 1 <= i <= Depth() && checker != solver
      requires DescribesOutside(checker.clauses, system, trace, i, store.size)
      modifies store, checker
      ensures Configured() && old(store.size) <= store.size
      ensures covered <==> CoveredFrame(system, trace, i)
      ensures !covered && i < Depth() ==> DescribesOutside(checker.clauses, system, trace, i + 1, store.size)
    {
      hide TransitionSystem.WellFormed, Setup, FormulasMatch, CoveredFrame, DescribesOutside, ActivatesFrame,
        NegationHolds, FrameInvariant, VarsBelow, LitsBelow, StateTrace, Answers;
      ghost var bound, clauses := store.size, checker.clauses;
      InvariantHasStateTrace(system, Act(), store.size, trace, false);
      TraceLitsBelow(system, Act(), trace, i, bound);
      var act := store.Make();
      SetupGrows(system, Act(), |trace|, bound, store.size);
      TraceLitsBelow(system, Act(), trace, i, store.size);
      var f := ActivateFrame(trace[i], act, store.size);
      checker.AssertFormula(f);
      var q := checker.NewQuery();
      q := q.Assume([act]);
      assert q.assumed == {} + LitSet([act]) && q.constraint == [] && checker.clauses == clauses + f;
      var sat := checker.IsSat(q);
      covered := !sat;
      if sat {
        NewStateAnswer(
          clauses, f, system, Act(), trace, i, bound, store.size, act, checker.status.model);
        if i < Depth() {
          checker.AssertFormula([[Not(act)]]);
          ghost var x;
          var neg;
          neg, x := ClausifyFrameNegation(store, trace[i]);
          NextOutside(clauses, f, neg, system, Act(), trace, i, bound, act, x, store.size);
          checker.AssertFormula(neg);
          SetupGrows(system, Act(), |trace|, bound, store.size);
        }
      } else {
        ghost var core := checker.status.core;
        forall a
          ensures !Answers(a, clauses + f, core, [])
        {
          assert !Answers(a, checker.clauses, core, q.constraint);
        }
        NothingNewAnswer(clauses, f, system, Act(), trace, i, bound, act, core);
      }
    }

    method PushFrame()
      requires store.size > 0
      modifies this`trace, this`traceActivators, store
      ensures trace == old(trace) + [[]]
      ensures traceActivators == old(traceActivators) + [old(store.size)]
      ensures store.size == old(store.size) + 1
    {
      trace := trace + [[]];
      var v := store.Make();
      traceActivators := traceActivators + [v];
    }

    /** Opens a frame after the newest one was found to exclude errors. */
    method OpenFrame()
      requires Valid() && queries > 0 && NoErrorIn(system, trace, false, Depth())
      modifies this`trace, this`traceActivators, store
      ensures Valid() && trace == old(trace) + [[]]
    {
      hide FrameInvariant, PoolOk, CotraceOk, Synced, TransitionSystem.WellFormed, Setup, ConsistentTrace;
      AfterPush(solver.clauses, system, Act(), store.size, trace, false);
      TraceAfterPush(trace);
      PushFrame();
      assert Act() == PushActivator(old(Act()), old(store.size));
    }

    /**
     * The main loop. It stops because every further frame that is not covered
     * by the earlier ones brings a new state.
     */
    method Check() returns (r: Result)
      requires Valid() && Depth() == 0 && AllEmpty(coframes)
      requires system.states.Size() >= 0
      modifies this`queries, this`trace, this`traceActivators, this`coframes, solver, cotrace, store
      ensures Valid()
      ensures r.Ok? || r.Counterexample?
      ensures r.Ok? ==> !system.Unsafe()
      ensures r.Ok? ==> exists i :: 1 <= i <= Depth() && system.InductiveInvariant(UnionBelow(system, trace, i))
      ensures r.Counterexample? ==> GoodCounterexample(system, r)
      ensures Depth() <= Pow2(system.states.Size())
    {
      hide FrameInvariant, PoolOk, CotraceOk, CarEngine.InSync, TransitionSystem.WellFormed, Setup, FormulasMatch,
        ConsistentTrace, GoodCounterexample, Pow2, NoErrorIn, ClosedFrame, CoveredFrame,
        TransitionSystem.InductiveInvariant, UnionBelow;
      PowPositive(system.states.Size());
      while true
        invariant Valid() && |trace| <= Pow2(system.states.Size())
        invariant Depth() == 0 ==> AllEmpty(coframes)
        decreases Pow2(system.states.Size()) - |trace|
      {
        var cex := CheckExistingCotrace();
        if cex.Some? {
          return cex.value;
        }
        cex := CheckNewErrorStates();
        if cex.Some? {
          return cex.value;
        }
        OpenFrame();
        var safe := Propagate();
        if safe {
          ghost var i :| 1 <= i < Depth() && ClosedFrame(system, trace, i);
          ClosedFrameIsSafe(system, Act(), store.size, trace, i);
          assert i + 1 <= Depth();
          return Ok;
        }
        var covered := IsInductive();
        if covered {
          ghost var i :| 1 <= i <= Depth() && CoveredFrame(system, trace, i);
          CoveredFrameIsSafe(system, Act(), store.size, trace, i);
          return Ok;
        }
        CarDepthBound(system, Act(), store.size, trace);
      }
    }

    /** Prepares the formulas the solver is reloaded with. */
    method PrepareFormulas()
      requires Setup(system, Act(), 1, store.size)
      modifies this`activatedInit, this`activatedTrans, this`activatedError, this`initNegated
      ensures FormulasMatch(system, Act(), activatedInit, activatedTrans, activatedError)
      ensures initNegated == NegateCube(system.InitCube())
    {
      ActivatorPositive(system, Act(), 1, store.size, 0);
      activatedInit := Activate(system.init, VarOf(traceActivators[0]));
      activatedTrans := Activate(system.trans, VarOf(transitionActivator));
      activatedError := Activate(system.error, VarOf(errorActivator));
      initNegated := NegateCube(system.InitCube());
    }

    method Initialize()
      requires system.WellFormed() && trace == [] && traceActivators == [] && coframes == [] && queries == 0
      requires store.size > 0 && Setup(system, Act(), 0, store.size)
      requires cotrace.entries == []
      modifies this, store
      ensures Valid() && Depth() == 0 && AllEmpty(coframes)
      ensures system == old(system)
    {
      hide FrameInvariant, PoolOk, CotraceOk, TransitionSystem.WellFormed, Setup, ConsistentTrace, FormulasMatch;
      InitialTraceInvariant(system, false);
      InitialCotrace(system);
      SetupAfterPush(system, Act(), 0, store.size);
      PushFrame();
      coframes := coframes + [[]];
      assert trace == [[]] && coframes == [[]];
      assert Act() == PushActivator(old(Act()), old(store.size));
      PrepareFormulas();
    }

    /**
     * Forward CAR decides safety: it always answers, the answer is ok exactly
     * if no run from an initial state ends in an error, and a counterexample
     * is a run into an error that starts in an initial state unless some latch
     * starts at one.
     */
    method Run(sys: TransitionSystem) returns (r: Result)
      requires sys.WellFormed() && trace == [] && traceActivators == [] && coframes == [] && queries == 0
      requires store.size > 0 && Setup(sys, Act(), 0, store.size)
      requires cotrace.entries == []
      modifies this, solver, cotrace, store
      ensures r.Ok? || r.Counterexample?
      ensures r.Ok? <==> !sys.Unsafe()
      ensures r.Ok? ==> exists i :: 1 <= i <= Depth() && sys.InductiveInvariant(UnionBelow(sys, trace, i))
      ensures r.Counterexample? ==> GoodCounterexample(sys, r)
      ensures sys.states.Size() >= 0 && Depth() <= Pow2(sys.states.Size())
    {
      system := sys;
      Initialize();
      StatesCount(sys);
      r := Check();
    }
  }
}
