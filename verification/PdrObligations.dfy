/**
 * Proof obligations of PDR, their queue, and the propagation of blocked cubes
 * (src/engine/pdr.hpp, src/engine/pdr.cpp), stated on values.
 */
module PdrObligations {
  import opened Logic
  import opened TransitionSystems
  import opened Solvers
  import opened Frames
  import opened FrameInvariants
  import opened Chains
  import opened Queues
  import opened Queries
  import opened PdrQueries

  // ------------------------------------------------------------------
  // Obligations
  // ------------------------------------------------------------------

  /** A cube of the pool that has to be blocked at a level. */
  datatype Obligation = Obligation(level: nat, handle: nat)

  function RankOf(po: Obligation): Rank {
    Rank(po.level, po.handle, 0)
  }

  predicate Ordered(q: seq<Obligation>) {
    Ranked(q, RankOf)
  }

  function Push(q: seq<Obligation>, po: Obligation): (r: seq<Obligation>)
    requires Ordered(q)
    ensures Ordered(r) && |r| == |q| + 1
    ensures forall x :: x in r <==> x in q || x == po
  {
    Insert(q, po, RankOf)
  }

  /** No state reachable in fewer steps than the obligation's level lies in its cube. */
  ghost predicate NotReachedBefore(sys: TransitionSystem, level: nat, ls: seq<Literal>)
    requires sys.WellFormed()
  {
    forall k: nat, s {:trigger sys.Reachable(k, s)} :: k < level && sys.Reachable(k, s) ==> !CubeTrue(s, ls)
  }

  ghost predicate ObligationOk(sys: TransitionSystem, trace: Trace, pool: Pool, po: Obligation)
    requires sys.WellFormed()
  {
    && po.level < |trace| && po.handle < |pool|
    && NotReachedBefore(sys, po.level, pool[po.handle].state.literals)
    && (po.level == 0 ==> MeetsInit(sys, pool[po.handle].state.literals))
  }

  lemma HandleInPool(
    sys: TransitionSystem, act: Activators, bound: int, trace: Trace, pool: Pool, po: Obligation)
    requires Setup(sys, act, |trace|, bound) && ObligationOk(sys, trace, pool, po)
    ensures po.handle < |pool| && po.level < |trace|
  {
  }

  /** A blocked obligation can be raised by one level. */
  lemma RaisedObligation(sys: TransitionSystem, trace: Trace, pool: Pool, po: Obligation)
    requires sys.WellFormed() && FrameInvariant(sys, trace, true)
    requires ObligationOk(sys, trace, pool, po)
    requires Blocked(sys, trace, true, po.level, pool[po.handle].state.literals)
    ensures NotReachedBefore(sys, po.level + 1, pool[po.handle].state.literals)
  {
    forall k: nat, s | k < po.level + 1 && sys.Reachable(k, s)
      ensures !CubeTrue(s, pool[po.handle].state.literals)
    {
      if k == po.level {
        ReachableInFrame(sys, trace, true, k, s);
      }
    }
  }

  /** A cube all of whose states step into an obligation's cube inherits its bound, less one. */
  lemma PredecessorObligation(
    sys: TransitionSystem, level: nat, target: seq<Literal>, c: seq<Literal>, y: Input)
    requires sys.WellFormed() && sys.IsInput(y) && level >= 1
    requires NotReachedBefore(sys, level, target)
    requires forall q :: sys.IsState(q) && CubeTrue(q, c) ==> CubeTrue(sys.Succ(q, y), target)
    ensures NotReachedBefore(sys, level - 1, c)
  {
    forall k: nat, s | k < level - 1 && sys.Reachable(k, s)
      ensures !CubeTrue(s, c)
    {
      ReachableIsState(sys, k, s);
      assert sys.Reachable(k + 1, sys.Succ(s, y));
    }
  }

  lemma {:induction false} ReachableIsState(sys: TransitionSystem, k: nat, s: State)
    requires sys.WellFormed() && sys.Reachable(k, s)
    ensures sys.IsState(s)
  {
  }

  /** An error state found in the newest frame starts an obligation there. */
  lemma ErrorObligation(sys: TransitionSystem, trace: Trace, s: State, y: Input, ls: seq<Literal>)
    requires sys.WellFormed() && FrameInvariant(sys, trace, true)
    requires sys.IsState(s) && sys.IsInput(y) && sys.Error(s, y)
    requires forall p :: sys.IsState(p) && CubeTrue(p, ls) ==> p == s
    ensures NotReachedBefore(sys, |trace| - 1, ls)
  {
    forall k: nat, p | k < |trace| - 1 && sys.Reachable(k, p)
      ensures !CubeTrue(p, ls)
    {
      ReachableInFrame(sys, trace, true, k, p);
      assert NoErrorIn(sys, trace, true, k);
    }
  }

  /** The answers to the error query under the activators of the newest frame. */
  lemma ErrorCtiFound(
    clauses: Cnf, sys: TransitionSystem, act: Activators, trace: Trace, bound: int, pool: Pool, m: Assignment)
    requires Synced(clauses, sys, act, trace, true) && Setup(sys, act, |trace|, bound)
    requires FrameInvariant(sys, trace, true) && PoolOk(sys, pool)
    requires AllTrue(m, ActivatorsFrom(act, |trace| - 1) + {act.error}) && Models(m, clauses)
    ensures sys.states.Valid() && sys.inputs.Valid()
    ensures var e := Entry(MakeCube(ValuationOf(m, sys.states)), MakeCube(ValuationOf(m, sys.inputs)), None);
            && PoolOk(sys, pool + [e])
            && ObligationOk(sys, trace, pool + [e], Obligation(|trace| - 1, |pool|))
            && !Blocked(sys, trace, true, |trace| - 1, e.state.literals)
  {
    var d := |trace| - 1;
    ActivatorsHold(act, d, m, |trace|);
    ErrorSat(clauses, sys, act, trace, true, d, m);
    var e := Entry(MakeCube(ValuationOf(m, sys.states)), MakeCube(ValuationOf(m, sys.inputs)), None);
    var s, y := m * sys.states.Vars(), m * sys.inputs.Vars();
    ErrorEntry(sys, pool, m, e);
    PoolExtends(sys, pool, e);
    FullCube(sys, m, e.state);
    ErrorObligation(sys, trace, s, y, e.state.literals);
    assert CubeTrue(s, e.state.literals);
    assert d == 0 ==> sys.Init(s);
  }

  /** The generalised predecessor: an entry of the pool and an obligation one level down. */
  lemma PredecessorIsObligation(
    sys: TransitionSystem, act: Activators, bound: int, trace: Trace, pool: Pool, po: Obligation,
    m: Assignment, c: seq<Literal>, e: Entry)
    requires Setup(sys, act, |trace|, bound) && PoolOk(sys, pool)
    requires ObligationOk(sys, trace, pool, po) && po.level >= 1
    requires ModelSteps(sys, trace, pool[po.handle].state.literals, po.level - 1, m)
    requires forall l :: l in c ==> l in ValuationOf(m, sys.states)
    requires sys.IsInput(m * sys.inputs.Vars())
    requires LeadsInto(sys, c, m * sys.inputs.Vars(), pool[po.handle].state.literals)
    requires e == Entry(MakeCube(c), MakeCube(ValuationOf(m, sys.inputs)), Some(po.handle))
    ensures PoolOk(sys, pool + [e])
    ensures ObligationOk(sys, trace, pool + [e], Obligation(po.level - 1, |pool|))
    ensures !Blocked(sys, trace, true, po.level - 1, e.state.literals)
  {
    hide PoolOk, Consistent;
    var q, y := m * sys.states.Vars(), m * sys.inputs.Vars();
    PredecessorEntry(sys, pool, m, c, po.handle, e);
    PoolExtends(sys, pool, e);
    PredecessorObligation(sys, po.level, pool[po.handle].state.literals, c, y);
    assert forall p :: CubeTrue(p, e.state.literals) ==> CubeTrue(p, c);
    assert CubeTrue(q, e.state.literals);
    assert (pool + [e])[|pool|] == e;
  }

  /** The cube of an obligation above level 0 contains no initial state. */
  lemma ObligationMissesInit(
    sys: TransitionSystem, act: Activators, bound: int, trace: Trace, pool: Pool, po: Obligation)
    requires Setup(sys, act, |trace|, bound) && PoolOk(sys, pool)
    requires ObligationOk(sys, trace, pool, po) && po.level >= 1
    ensures ClashesWith(sys.InitCube(), pool[po.handle].state.literals)
  {
    var ls := pool[po.handle].state.literals;
    assert EntryOk(sys, pool, po.handle);
    forall s | sys.IsState(s) && sys.Init(s)
      ensures !CubeTrue(s, ls)
    {
      assert sys.Reachable(0, s);
    }
    InitTestIsExact(sys, ls);
  }

  lemma RaisedIsObligation(
    sys: TransitionSystem, act: Activators, bound: int, trace: Trace, pool: Pool, po: Obligation)
    requires Setup(sys, act, |trace|, bound) && FrameInvariant(sys, trace, true)
    requires ObligationOk(sys, trace, pool, po) && po.level + 1 < |trace|
    requires Blocked(sys, trace, true, po.level, pool[po.handle].state.literals)
    ensures ObligationOk(sys, trace, pool, Obligation(po.level + 1, po.handle))
  {
    RaisedObligation(sys, trace, pool, po);
  }

  lemma LevelZero(
    sys: TransitionSystem, act: Activators, bound: int, trace: Trace, pool: Pool, po: Obligation, cex: Result)
    requires Setup(sys, act, |trace|, bound) && PoolOk(sys, pool)
    requires ObligationOk(sys, trace, pool, po) && po.level == 0
    requires po.handle < |pool| && ReadOff(sys, pool, po.handle, cex)
    ensures GoodCounterexample(sys, cex)
  {
    LevelZeroIsCounterexample(sys, pool, po.handle, cex);
  }

  // ------------------------------------------------------------------
  // The queue
  // ------------------------------------------------------------------

  ghost predicate QueueOk(sys: TransitionSystem, trace: Trace, pool: Pool, q: seq<Obligation>)
    requires sys.WellFormed()
  {
    Ordered(q) && forall po :: po in q ==> ObligationOk(sys, trace, pool, po)
  }

  /** Obligations outlive changes of the frames' contents and growth of the pool. */
  lemma QueueOkPreserved(
    sys: TransitionSystem, act: Activators, bound: int, trace: Trace, trace': Trace, pool: Pool, pool': Pool,
    q: seq<Obligation>)
    requires Setup(sys, act, |trace|, bound) && QueueOk(sys, trace, pool, q)
    requires |trace'| == |trace| && pool <= pool'
    ensures QueueOk(sys, trace', pool', q)
  {
    forall po | po in q
      ensures ObligationOk(sys, trace', pool', po)
    {
      assert ObligationOk(sys, trace, pool, po);
      assert pool'[po.handle] == pool[po.handle];
    }
  }

  lemma QueueTail(
    sys: TransitionSystem, act: Activators, bound: int, trace: Trace, pool: Pool, q: seq<Obligation>)
    requires Setup(sys, act, |trace|, bound) && QueueOk(sys, trace, pool, q) && q != []
    ensures QueueOk(sys, trace, pool, q[1..]) && ObligationOk(sys, trace, pool, q[0])
    ensures q[0].handle < |pool| && q[0].level < |trace|
    ensures forall po :: po in q ==> po == q[0] || po in q[1..]
  {
    assert q == [q[0]] + q[1..];
  }

  lemma QueuePush(
    sys: TransitionSystem, act: Activators, bound: int, trace: Trace, pool: Pool, q: seq<Obligation>, po: Obligation)
    requires Setup(sys, act, |trace|, bound) && QueueOk(sys, trace, pool, q) && ObligationOk(sys, trace, pool, po)
    ensures QueueOk(sys, trace, pool, Push(q, po))
  {
  }

  lemma FrontOfQueue(
    sys: TransitionSystem, act: Activators, bound: int, trace: Trace, pool: Pool, q: seq<Obligation>, pred: Obligation)
    requires Setup(sys, act, |trace|, bound) && QueueOk(sys, trace, pool, q)
    requires q != [] && pred.level < q[0].level
    ensures Ordered(q[1..])
    ensures var r := Push(Push(q[1..], pred), q[0]);
            |r| == |q| + 1 && r[0] == pred && forall po :: po in q ==> po in r
  {
    assert q == [q[0]] + q[1..];
    LowerComesFirst(q[1..], q[0], pred, RankOf);
  }

  lemma StartQueue(
    sys: TransitionSystem, act: Activators, bound: int, trace: Trace, pool: Pool, start: Obligation)
    requires Setup(sys, act, |trace|, bound) && ObligationOk(sys, trace, pool, start)
    ensures QueueOk(sys, trace, pool, [start]) && start.handle < |pool|
  {
  }

  /** The queue after its first obligation was blocked and, below the newest frame, raised. */
  lemma QueueAfterBlocking(
    sys: TransitionSystem, act: Activators, bound: int, trace: Trace, trace': Trace, pool: Pool, q: seq<Obligation>)
    requires Setup(sys, act, |trace|, bound) && |trace'| == |trace| && FrameInvariant(sys, trace', true)
    requires QueueOk(sys, trace, pool, q) && q != [] && q[0].handle < |pool|
    requires Blocked(sys, trace', true, q[0].level, pool[q[0].handle].state.literals)
    ensures QueueOk(sys, trace', pool, q[1..]) && Ordered(q[1..])
    ensures q[0].level < |trace'| - 1 ==>
              QueueOk(sys, trace', pool, Push(q[1..], Obligation(q[0].level + 1, q[0].handle)))
  {
    hide FrameInvariant, ObligationOk, Push, Blocked;
    QueueOkPreserved(sys, act, bound, trace, trace', pool, pool, q);
    QueueTail(sys, act, bound, trace', pool, q);
    if q[0].level < |trace'| - 1 {
      RaisedIsObligation(sys, act, bound, trace', pool, q[0]);
      QueuePush(sys, act, bound, trace', pool, q[1..], Obligation(q[0].level + 1, q[0].handle));
    }
  }

  /** The queue after a predecessor was put in front of the first obligation. */
  lemma QueueAfterPredecessor(
    sys: TransitionSystem, act: Activators, bound: int, trace: Trace, pool: Pool, pool': Pool, q: seq<Obligation>,
    pred: Obligation)
    requires Setup(sys, act, |trace|, bound) && pool <= pool'
    requires QueueOk(sys, trace, pool, q) && q != [] && pred.level < q[0].level
    requires ObligationOk(sys, trace, pool', pred)
    ensures Ordered(q[1..]) && pred.handle < |pool'|
    ensures var r := Push(Push(q[1..], pred), q[0]);
            && QueueOk(sys, trace, pool', r)
            && r != [] && r[0] == pred && (forall po :: po in q ==> po in r)
  {
    hide Push;
    QueueOkPreserved(sys, act, bound, trace, trace, pool, pool', q);
    QueueTail(sys, act, bound, trace, pool', q);
    QueuePush(sys, act, bound, trace, pool', q[1..], pred);
    QueuePush(sys, act, bound, trace, pool', Push(q[1..], pred), q[0]);
    FrontOfQueue(sys, act, bound, trace, pool', q, pred);
  }

  /** The start is still queued, or nothing of its cube is left at its level. */
  ghost predicate QueuedOrBlocked(
    sys: TransitionSystem, trace: Trace, q: seq<Obligation>, start: Obligation, cube: seq<Literal>)
  {
    start in q || Blocked(sys, trace, true, start.level, cube)
  }

  lemma StartQueued(sys: TransitionSystem, trace: Trace, start: Obligation, cube: seq<Literal>)
    ensures QueuedOrBlocked(sys, trace, [start], start, cube)
  {
  }

  lemma NothingQueued(sys: TransitionSystem, trace: Trace, start: Obligation, cube: seq<Literal>)
    requires QueuedOrBlocked(sys, trace, [], start, cube)
    ensures Blocked(sys, trace, true, start.level, cube)
  {
  }

  /** Handling the first obligation keeps the start queued, or blocks it. */
  lemma StillQueuedOrBlocked(
    sys: TransitionSystem, trace: Trace, trace': Trace, q: seq<Obligation>, q': seq<Obligation>,
    start: Obligation, cube: seq<Literal>)
    requires QueuedOrBlocked(sys, trace, q, start, cube) && q != [] && FramesShrink(sys, trace, trace', true)
    requires forall po :: po in q[1..] ==> po in q'
    requires q[0] == start ==> start in q' || Blocked(sys, trace', true, start.level, cube)
    ensures QueuedOrBlocked(sys, trace', q', start, cube)
  {
    hide Blocked, FramesShrink;
    assert q == [q[0]] + q[1..];
    if start !in q {
      StaysBlocked(sys, trace, trace', true, start.level, cube);
    }
  }

  // ------------------------------------------------------------------
  // Propagation
  // ------------------------------------------------------------------

  /** The frames 0, ..., i of two traces contain the same states. */
  ghost predicate SameUpTo(sys: TransitionSystem, trace: Trace, trace': Trace, i: int) {
    forall j, s {:trigger InFrame(sys, trace', true, j, s)} :: 0 <= j <= i ==>
      (InFrame(sys, trace', true, j, s) <==> InFrame(sys, trace, true, j, s))
  }

  /** R_i is a proper subset of R_{i+1}. */
  ghost predicate StrictlyBelow(sys: TransitionSystem, trace: Trace, i: int) {
    exists s :: sys.IsState(s) && InFrame(sys, trace, true, i + 1, s) && !InFrame(sys, trace, true, i, s)
  }

  lemma SameAsItself(sys: TransitionSystem, trace: Trace, i: int)
    ensures SameUpTo(sys, trace, trace, i)
  {
  }

  /** Pushing a cube of frame i to frame i + 1 changes no frame up to i. */
  lemma PushingKeepsFrames(
    sys: TransitionSystem, trace0: Trace, trace: Trace, trace': Trace, c: Cube, i: int)
    requires 1 <= i < |trace0| - 1 && |trace0| == |trace| && c in trace0[i]
    requires SameUpTo(sys, trace0, trace, i)
    requires BlockedBetween(trace, trace', c, i, i + 1)
    ensures SameUpTo(sys, trace0, trace', i)
    ensures c !in trace'[i] && (forall d :: d in trace'[i] ==> d in trace[i])
  {
    BlockedBetweenIsBlockedIn(trace, trace', c, i, i + 1);
    IncludesSelf(c.literals);
    forall j, s | 0 <= j <= i
      ensures InFrame(sys, trace', true, j, s) <==> InFrame(sys, trace0, true, j, s)
    {
      BlockingMeaning(sys, trace, trace', true, c, i + 1, j, s);
      assert InFrame(sys, trace, true, j, s) <==> InFrame(sys, trace0, true, j, s);
      if InFrame(sys, trace0, true, j, s) {
        assert Avoids(s, trace0[i]);
      }
    }
  }

  lemma SameFrameSameBlockable(
    sys: TransitionSystem, act: Activators, bound: int, trace: Trace, trace': Trace, c: seq<Literal>, i: nat)
    requires Setup(sys, act, |trace|, bound) && SameUpTo(sys, trace, trace', i)
    requires Blockable(sys, trace, true, c, i)
    ensures Blockable(sys, trace', true, c, i)
  {
    forall p, y | sys.IsState(p) && sys.IsInput(y) && InFrame(sys, trace', true, i, p) && !CubeTrue(p, c)
      ensures !CubeTrue(sys.Succ(p, y), c)
    {
      assert InFrame(sys, trace, true, i, p);
    }
  }

  /** The cubes of frame i that are left are old ones, and those among the first n are not inductive relative to it. */
  ghost predicate StuckUpTo(sys: TransitionSystem, trace0: Trace, cubes: seq<Cube>, frame: seq<Cube>, i: nat, n: nat)
    requires sys.WellFormed()
  {
    && n <= |cubes|
    && (forall d :: d in frame ==> d in cubes)
    && (forall m :: 0 <= m < n && cubes[m] in frame ==> !Blockable(sys, trace0, true, cubes[m].literals, i))
  }

  lemma StuckOneMore(
    sys: TransitionSystem, trace0: Trace, cubes: seq<Cube>, frame: seq<Cube>, frame': seq<Cube>, i: nat, n: nat)
    requires sys.WellFormed() && StuckUpTo(sys, trace0, cubes, frame, i, n) && n < |cubes|
    requires forall d :: d in frame' ==> d in frame
    requires cubes[n] in frame' ==> !Blockable(sys, trace0, true, cubes[n].literals, i)
    ensures StuckUpTo(sys, trace0, cubes, frame', i, n + 1)
  {
    hide Blockable;
  }

  /** A cube that is left when all were tried separates frame i from the next one. */
  lemma StuckSeparates(
    sys: TransitionSystem, act: Activators, bound: int, trace0: Trace, trace: Trace, cubes: seq<Cube>, i: nat)
    requires Setup(sys, act, |trace|, bound) && FrameInvariant(sys, trace, true)
    requires SameUpTo(sys, trace0, trace, i) && i < |trace| - 1
    requires StuckUpTo(sys, trace0, cubes, trace[i], i, |cubes|)
    ensures trace[i] != [] ==> StrictlyBelow(sys, trace, i)
  {
    hide Blockable, FrameInvariant, SameUpTo, StrictlyBelow;
    if trace[i] != [] {
      var d := trace[i][0];
      assert d in trace[i];
      RemainingCubeSeparates(sys, act, bound, trace0, trace, d, i);
    }
  }

  /** A cube that stays in frame i shows that R_{i+1} is larger than R_i. */
  lemma RemainingCubeSeparates(
    sys: TransitionSystem, act: Activators, bound: int, trace0: Trace, trace: Trace, d: Cube, i: nat)
    requires Setup(sys, act, |trace|, bound) && FrameInvariant(sys, trace, true)
    requires SameUpTo(sys, trace0, trace, i) && i < |trace| - 1 && d in trace[i]
    requires !Blockable(sys, trace0, true, d.literals, i)
    ensures StrictlyBelow(sys, trace, i)
  {
    var p, y :| sys.IsState(p) && sys.IsInput(y) && InFrame(sys, trace0, true, i, p) && !CubeTrue(p, d.literals)
                && CubeTrue(sys.Succ(p, y), d.literals);
    assert InFrame(sys, trace, true, i, p);
    var t := sys.Succ(p, y);
    assert InFrame(sys, trace, true, i + 1, t);
    assert InFrame(sys, trace, true, i, t) ==> Avoids(t, trace[i]);
  }

  /** The frames below i hold the same cubes. */
  ghost predicate SameBelow(trace: Trace, trace': Trace, i: int) {
    && |trace'| == |trace|
    && forall j, d {:trigger d in trace'[j]} :: 0 <= j < i && j < |trace| ==> (d in trace'[j] <==> d in trace[j])
  }

  lemma SameBelowTwice(trace: Trace, trace': Trace, trace'': Trace, i: int)
    requires SameBelow(trace, trace', i) && SameBelow(trace', trace'', i)
    ensures SameBelow(trace, trace'', i)
  {
  }

  lemma SameBelowItself(trace: Trace, i: int)
    ensures SameBelow(trace, trace, i)
  {
  }

  lemma SameBelowPushed(trace: Trace, trace': Trace, c: Cube, i: nat)
    requires i + 1 < |trace| && BlockedBetween(trace, trace', c, i, i + 1)
    ensures SameBelow(trace, trace', i)
  {
  }

  /** No cube of frame i is inductive relative to R_i. */
  ghost predicate NothingToPush(sys: TransitionSystem, trace: Trace, i: nat)
    requires sys.WellFormed() && i < |trace|
  {
    forall c :: c in trace[i] ==> !Blockable(sys, trace, true, c.literals, i)
  }

  ghost predicate LevelsDone(sys: TransitionSystem, trace: Trace, n: nat)
    requires sys.WellFormed() && n <= |trace|
  {
    forall i: nat :: 1 <= i < n ==> NothingToPush(sys, trace, i)
  }

  /** The first n cubes that are inductive relative to R_i are blocked in R_{i+1}. */
  ghost predicate PushedUpTo(sys: TransitionSystem, trace0: Trace, trace: Trace, cubes: seq<Cube>, i: nat, n: nat)
    requires sys.WellFormed() && n <= |cubes|
  {
    forall m :: 0 <= m < n && Blockable(sys, trace0, true, cubes[m].literals, i) ==>
      Blocked(sys, trace, true, i + 1, cubes[m].literals)
  }

  lemma PushedOneMore(
    sys: TransitionSystem, trace0: Trace, trace: Trace, trace': Trace, cubes: seq<Cube>, i: nat, n: nat)
    requires sys.WellFormed() && n < |cubes| && PushedUpTo(sys, trace0, trace, cubes, i, n)
    requires FramesShrink(sys, trace, trace', true)
    requires Blockable(sys, trace0, true, cubes[n].literals, i) ==> Blocked(sys, trace', true, i + 1, cubes[n].literals)
    ensures PushedUpTo(sys, trace0, trace', cubes, i, n + 1)
  {
    hide FramesShrink, Blocked, Blockable;
    forall m | 0 <= m < n && Blockable(sys, trace0, true, cubes[m].literals, i)
      ensures Blocked(sys, trace', true, i + 1, cubes[m].literals)
    {
      StaysBlocked(sys, trace, trace', true, i + 1, cubes[m].literals);
    }
  }

  /** What can be pushed has been pushed, and what is left cannot be pushed. */
  lemma LevelIsDone(
    sys: TransitionSystem, act: Activators, bound: int, trace0: Trace, trace: Trace, i: nat)
    requires Setup(sys, act, |trace|, bound) && |trace0| == |trace| && i < |trace| && SameUpTo(sys, trace0, trace, i)
    requires StuckUpTo(sys, trace0, trace0[i], trace[i], i, |trace0[i]|)
    requires PushedUpTo(sys, trace0, trace, trace0[i], i, |trace0[i]|)
    ensures NothingToPush(sys, trace, i)
    ensures forall c :: c in trace0[i] && Blockable(sys, trace, true, c.literals, i) ==>
              Blocked(sys, trace, true, i + 1, c.literals)
  {
    hide Blockable, Blocked;
    assert SameUpTo(sys, trace, trace0, i);
    hide SameUpTo;
    forall c | c in trace0[i] && Blockable(sys, trace, true, c.literals, i)
      ensures c !in trace[i] && Blocked(sys, trace, true, i + 1, c.literals)
    {
      SameFrameSameBlockable(sys, act, bound, trace, trace0, c.literals, i);
      var m :| 0 <= m < |trace0[i]| && trace0[i][m] == c;
    }
  }

  /** Propagating frame i leaves the frames below done. */
  lemma LevelsStayDone(
    sys: TransitionSystem, act: Activators, bound: int, trace: Trace, trace': Trace, i: nat)
    requires Setup(sys, act, |trace|, bound) && i < |trace| && SameUpTo(sys, trace, trace', i)
    requires SameBelow(trace, trace', i) && LevelsDone(sys, trace, i) && NothingToPush(sys, trace', i)
    ensures LevelsDone(sys, trace', i + 1)
  {
    hide Blockable;
    assert SameUpTo(sys, trace', trace, i);
    forall j: nat | 1 <= j < i
      ensures NothingToPush(sys, trace', j)
    {
      assert NothingToPush(sys, trace, j);
      forall c | c in trace'[j]
        ensures !Blockable(sys, trace', true, c.literals, j)
      {
        assert c in trace[j] && SameUpTo(sys, trace', trace, j);
        if Blockable(sys, trace', true, c.literals, j) {
          SameFrameSameBlockable(sys, act, bound, trace', trace, c.literals, j);
        }
      }
    }
  }

  /** The frames 1, ..., i - 1 are strictly below the next ones. */
  ghost predicate GrowsBelow(sys: TransitionSystem, trace: Trace, i: int) {
    forall j :: 1 <= j < i ==> StrictlyBelow(sys, trace, j)
  }

  /** Propagating frame i leaves the frames below as they are. */
  lemma StillGrows(sys: TransitionSystem, trace: Trace, trace': Trace, i: nat)
    requires SameUpTo(sys, trace, trace', i) && GrowsBelow(sys, trace, i)
    ensures StrictlyBelow(sys, trace', i) ==> GrowsBelow(sys, trace', i + 1)
  {
    forall j | 1 <= j < i
      ensures StrictlyBelow(sys, trace', j)
    {
      assert StrictlyBelow(sys, trace, j);
      var s :| sys.IsState(s) && InFrame(sys, trace, true, j + 1, s) && !InFrame(sys, trace, true, j, s);
      assert InFrame(sys, trace', true, j + 1, s) && !InFrame(sys, trace', true, j, s);
    }
  }

  /** A strictly growing trace holds at least i states in R_i. */
  lemma {:induction false} StrictTraceGrows(
    sys: TransitionSystem, act: Activators, bound: int, trace: Trace, i: nat)
    requires Setup(sys, act, |trace|, bound) && FrameInvariant(sys, trace, true)
    requires 1 <= i < |trace| && GrowsBelow(sys, trace, i)
    ensures i <= |FrameStates(sys, trace, true, i)|
  {
    hide FrameInvariant, TransitionSystem.WellFormed, FrameStates, StrictlyBelow;
    if i == 1 {
      var s := InitIsNotEmpty(sys);
      InitialStateIn(sys, trace, s);
      SubsetIsSmaller({}, FrameStates(sys, trace, true, 1));
    } else {
      StrictTraceGrows(sys, act, bound, trace, i - 1);
      FrameGrows(sys, act, bound, trace, i - 1);
    }
  }

  lemma InitialStateIn(sys: TransitionSystem, trace: Trace, s: State)
    requires sys.WellFormed() && FrameInvariant(sys, trace, true) && |trace| > 1 && sys.IsState(s) && sys.Init(s)
    ensures s in FrameStates(sys, trace, true, 1)
  {
    InitInEveryFrame(sys, trace, 1, s);
  }

  lemma FrameGrows(sys: TransitionSystem, act: Activators, bound: int, trace: Trace, i: nat)
    requires Setup(sys, act, |trace|, bound) && FrameInvariant(sys, trace, true)
    requires 1 <= i < |trace| - 1 && StrictlyBelow(sys, trace, i)
    ensures |FrameStates(sys, trace, true, i)| < |FrameStates(sys, trace, true, i + 1)|
  {
    hide FrameInvariant, TransitionSystem.Functional, TransitionSystem.InitIsCube, CnfOver, InFrame;
    forall s | s in FrameStates(sys, trace, true, i)
      ensures s in FrameStates(sys, trace, true, i + 1)
    {
      FramesGrow(sys, trace, i, i + 1, s);
    }
    var s :| sys.IsState(s) && InFrame(sys, trace, true, i + 1, s) && !InFrame(sys, trace, true, i, s);
    assert s in FrameStates(sys, trace, true, i + 1) && s !in FrameStates(sys, trace, true, i);
    SubsetIsSmaller(FrameStates(sys, trace, true, i), FrameStates(sys, trace, true, i + 1));
  }

  /** After a failed propagation the depth is at most the number of states. */
  lemma DepthBound(sys: TransitionSystem, act: Activators, bound: int, trace: Trace)
    requires Setup(sys, act, |trace|, bound) && FrameInvariant(sys, trace, true)
    requires |trace| >= 2 && GrowsBelow(sys, trace, |trace| - 1)
    ensures sys.states.Size() >= 0 && |trace| - 1 <= Pow2(sys.states.Size())
  {
    StatesCount(sys);
    StrictTraceGrows(sys, act, bound, trace, |trace| - 1);
    SubsetIsSmaller(FrameStates(sys, trace, true, |trace| - 1), AllStates(sys));
  }

  lemma EmptyFrameIsClosed(
    sys: TransitionSystem, act: Activators, bound: int, trace: Trace, i: nat, s: State, y: Input)
    requires Setup(sys, act, |trace|, bound) && FrameInvariant(sys, trace, true)
    requires 1 <= i < |trace| - 1 && trace[i] == []
    requires sys.IsState(s) && sys.IsInput(y) && InFrame(sys, trace, true, i, s)
    ensures sys.IsState(sys.Succ(s, y)) && InFrame(sys, trace, true, i, sys.Succ(s, y)) && !sys.Error(s, y)
  {
    assert InFrame(sys, trace, true, i + 1, sys.Succ(s, y));
    assert Avoids(sys.Succ(s, y), trace[i]);
    assert NoErrorIn(sys, trace, true, i);
  }

  /** A frame emptied by propagation is an inductive invariant. */
  lemma EmptyFrameIsInvariant(sys: TransitionSystem, act: Activators, bound: int, trace: Trace, i: nat)
    requires Setup(sys, act, |trace|, bound) && FrameInvariant(sys, trace, true)
    requires 1 <= i < |trace| - 1 && trace[i] == []
    ensures sys.InductiveInvariant(FrameStates(sys, trace, true, i))
    ensures !sys.Unsafe()
  {
    hide FrameInvariant, TransitionSystem.WellFormed;
    var inv := FrameStates(sys, trace, true, i);
    forall s, y | s in inv && sys.IsInput(y)
      ensures sys.Succ(s, y) in inv && !sys.Error(s, y)
    {
      EmptyFrameIsClosed(sys, act, bound, trace, i, s, y);
    }
    forall s | sys.IsState(s) && sys.Init(s)
      ensures s in inv
    {
      InitInEveryFrame(sys, trace, i, s);
    }
    sys.InvariantProvesSafety(inv);
  }
}
