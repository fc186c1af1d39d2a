/**
 * Proof obligations of CAR and their queue, and the coframes of cubes with a
 * known distance to an error (src/engine/car.hpp, src/engine/car.cpp), stated
 * on values.
 */
module CarObligations {
  import opened Logic
  import opened TransitionSystems
  import opened Frames
  import opened FrameInvariants
  import opened Chains
  import opened Queues
  import opened Queries

  // ------------------------------------------------------------------
  // Coframes
  // ------------------------------------------------------------------

  type Coframes = seq<seq<nat>>

  /** The recorded inputs lead from the entry's cube to an error in exactly j steps. */
  ghost predicate AtDistance(pool: Pool, h: nat, j: nat)
    requires SuccessorsDecrease(pool)
  {
    h < |pool| && |InputsFrom(pool, h)| == j + 1
  }

  ghost predicate CotraceOk(pool: Pool, coframes: Coframes) {
    && SuccessorsDecrease(pool)
    && |coframes| > 0
    && forall j, h {:trigger h in coframes[j]} ::
         0 <= j < |coframes| && h in coframes[j] ==> AtDistance(pool, h, j)
  }

  /** Every state of every cube in coframe j runs into an error in exactly j steps. */
  lemma CotraceMeaning(sys: TransitionSystem, pool: Pool, coframes: Coframes, j: nat, h: nat, s: State)
    requires sys.WellFormed() && PoolOk(sys, pool) && CotraceOk(pool, coframes)
    requires j < |coframes| && h in coframes[j]
    requires sys.IsState(s) && CubeTrue(s, pool[h].state.literals)
    ensures |InputsFrom(pool, h)| == j + 1 && sys.AreInputs(InputsFrom(pool, h))
    ensures sys.Violates(s, InputsFrom(pool, h))
  {
    ChainViolates(sys, pool, h, s);
  }

  lemma {:induction false} InputsFromPrefix(pool: Pool, pool': Pool, h: nat)
    requires SuccessorsDecrease(pool) && SuccessorsDecrease(pool') && pool <= pool' && h < |pool|
    ensures InputsFrom(pool', h) == InputsFrom(pool, h)
    decreases h
  {
    assert pool'[h] == pool[h];
    match pool[h].successor {
      case None =>
      case Some(n) => InputsFromPrefix(pool, pool', n);
    }
  }

  /** Coframes keep their meaning when the pool grows. */
  lemma CotraceGrows(sys: TransitionSystem, pool: Pool, e: Entry, coframes: Coframes)
    requires sys.WellFormed() && PoolOk(sys, pool + [e]) && CotraceOk(pool, coframes)
    ensures CotraceOk(pool + [e], coframes)
  {
    PoolSuccessorsDecrease(sys, pool + [e]);
    forall j, h | 0 <= j < |coframes| && h in coframes[j]
      ensures AtDistance(pool + [e], h, j)
    {
      assert AtDistance(pool, h, j);
      InputsFromPrefix(pool, pool + [e], h);
    }
  }

  /** A new entry is one step further from the error than its successor, or at the error itself. */
  lemma NewEntryDistance(sys: TransitionSystem, pool: Pool, e: Entry)
    requires sys.WellFormed() && PoolOk(sys, pool + [e]) && SuccessorsDecrease(pool)
    ensures SuccessorsDecrease(pool + [e])
    ensures match e.successor
            case None => AtDistance(pool + [e], |pool|, 0)
            case Some(n) =>
              n < |pool| && forall j: nat :: AtDistance(pool, n, j) ==> AtDistance(pool + [e], |pool|, j + 1)
  {
    PoolSuccessorsDecrease(sys, pool + [e]);
    assert EntryOk(sys, pool + [e], |pool|);
    match e.successor {
      case None =>
      case Some(n) => InputsFromPrefix(pool, pool + [e], n);
    }
  }

  /** A state lies in some cube of a coframe. */
  ghost predicate CoveredBy(pool: Pool, handles: seq<nat>, s: State) {
    exists h :: h in handles && h < |pool| && CubeTrue(s, pool[h].state.literals)
  }

  /** The coframes after handle h went to coframe k and what its cube subsumes left it. */
  ghost predicate ReachedBetween(pool: Pool, coframes: Coframes, coframes': Coframes, h: nat, k: nat)
    requires h < |pool|
    requires forall j, d {:trigger d in coframes[j]} :: 0 <= j < |coframes| && d in coframes[j] ==> d < |pool|
  {
    && |coframes'| == (if k < |coframes| then |coframes| else k + 1)
    && (forall j :: 0 <= j < |coframes'| && j != k ==>
          coframes'[j] == if j < |coframes| then coframes[j] else [])
    && h in coframes'[k]
    && (forall d :: d in coframes'[k] ==> d == h || (k < |coframes| && d in coframes[k]))
    && (k < |coframes| ==> forall d :: d in coframes[k] && d !in coframes'[k] ==>
          Subsumes(pool[h].state, pool[d].state))
  }

  lemma CotraceAfterReaching(pool: Pool, coframes: Coframes, coframes': Coframes, h: nat, k: nat)
    requires CotraceOk(pool, coframes) && AtDistance(pool, h, k)
    requires ReachedBetween(pool, coframes, coframes', h, k)
    ensures CotraceOk(pool, coframes')
  {
    forall j, d | 0 <= j < |coframes'| && d in coframes'[j]
      ensures AtDistance(pool, d, j)
    {
      if j < |coframes| && d in coframes[j] {
        assert AtDistance(pool, d, j);
      }
    }
  }

  /** Deleting subsumed handles never loses a covered state, and only adds those of the new cube. */
  lemma ReachingKeepsCover(pool: Pool, coframes: Coframes, coframes': Coframes, h: nat, k: nat, s: State)
    requires CotraceOk(pool, coframes) && h < |pool|
    requires ReachedBetween(pool, coframes, coframes', h, k)
    ensures CoveredBy(pool, coframes'[k], s) <==>
            (k < |coframes| && CoveredBy(pool, coframes[k], s)) || CubeTrue(s, pool[h].state.literals)
  {
    if k < |coframes| && CoveredBy(pool, coframes[k], s) {
      var d :| d in coframes[k] && d < |pool| && CubeTrue(s, pool[d].state.literals);
      if d !in coframes'[k] {
        SubsumesMeaning(pool[h].state, pool[d].state);
      }
    }
  }

  /** Swap-and-pop deletion of the handles whose cubes c subsumes. */
  method RemoveSubsumedHandles(pool: Pool, handles: seq<nat>, c: Cube) returns (rest: seq<nat>)
    requires forall h :: h in handles ==> h < |pool|
    ensures forall h :: h in rest ==> h in handles
    ensures forall h :: h in handles && h !in rest ==> Subsumes(c, pool[h].state)
    ensures forall h :: h in rest ==> !Subsumes(c, pool[h].state)
  {
    rest := handles;
    var i := 0;
    while i < |rest|
      invariant 0 <= i <= |rest|
      invariant forall h :: h in rest ==> h in handles
      invariant forall h :: h in handles && h !in rest ==> Subsumes(c, pool[h].state)
      invariant forall k :: 0 <= k < i ==> rest[k] in handles && !Subsumes(c, pool[rest[k]].state)
      decreases |rest| - i
    {
      assert rest[i] in handles;
      if Subsumes(c, pool[rest[i]].state) {
        ghost var before := rest;
        var last := rest[|rest| - 1];
        rest := rest[i := last];
        rest := rest[..|rest| - 1];
        forall k | 0 <= k < |before| && k != i
          ensures before[k] in rest
        {
          assert before[k] == if k < |before| - 1 then rest[k] else rest[i];
        }
      } else {
        i := i + 1;
      }
    }
  }

  // ------------------------------------------------------------------
  // Obligations
  // ------------------------------------------------------------------

  /** A cube of the pool at a level of the trace and a level of the cotrace. */
  datatype Obligation = Obligation(level: nat, colevel: nat, handle: nat)

  function RankOf(po: Obligation): Rank {
    Rank(po.level, po.colevel, po.handle)
  }

  predicate Ordered(q: seq<Obligation>) {
    Ranked(q, RankOf)
  }

  function Push(q: seq<Obligation>, po: Obligation): (r: seq<Obligation>)
    requires Ordered(q)
    ensures Ordered(r) && |r| == |q| + 1
    ensures forall x :: x in r <==> x in q || x == po
  {
    Insert(q, po, RankOf)
  }

  /** The obligation's cube is at its colevel's distance, and contains an initial state at level 0. */
  ghost predicate ObligationOk(
    sys: TransitionSystem, trace: Trace, pool: Pool, colevels: nat, from: nat, po: Obligation)
  {
    && SuccessorsDecrease(pool)
    && po.level < |trace| && from <= po.colevel < colevels && AtDistance(pool, po.handle, po.colevel)
    && (po.level == 0 ==> MeetsInit(sys, pool[po.handle].state.literals))
  }

  ghost predicate QueueOk(
    sys: TransitionSystem, trace: Trace, pool: Pool, colevels: nat, from: nat, q: seq<Obligation>)
  {
    Ordered(q) && forall po :: po in q ==> ObligationOk(sys, trace, pool, colevels, from, po)
  }

  lemma QueueOkPreserved(
    sys: TransitionSystem, trace: Trace, trace': Trace, pool: Pool, pool': Pool, colevels: nat, colevels': nat,
    from: nat, q: seq<Obligation>)
    requires QueueOk(sys, trace, pool, colevels, from, q)
    requires |trace'| == |trace| && pool <= pool' && SuccessorsDecrease(pool') && colevels <= colevels'
    ensures QueueOk(sys, trace', pool', colevels', from, q)
  {
    forall po | po in q
      ensures ObligationOk(sys, trace', pool', colevels', from, po)
    {
      assert ObligationOk(sys, trace, pool, colevels, from, po);
      InputsFromPrefix(pool, pool', po.handle);
      assert pool'[po.handle] == pool[po.handle];
    }
  }

  lemma QueueTail(
    sys: TransitionSystem, trace: Trace, pool: Pool, colevels: nat, from: nat, q: seq<Obligation>)
    requires QueueOk(sys, trace, pool, colevels, from, q) && q != []
    ensures QueueOk(sys, trace, pool, colevels, from, q[1..])
    ensures ObligationOk(sys, trace, pool, colevels, from, q[0])
    ensures q[0].handle < |pool| && q[0].level < |trace| && from <= q[0].colevel < colevels
    ensures forall po :: po in q ==> po == q[0] || po in q[1..]
  {
    assert q == [q[0]] + q[1..];
  }

  lemma QueuePush(
    sys: TransitionSystem, trace: Trace, pool: Pool, colevels: nat, from: nat, q: seq<Obligation>, po: Obligation)
    requires QueueOk(sys, trace, pool, colevels, from, q) && ObligationOk(sys, trace, pool, colevels, from, po)
    ensures QueueOk(sys, trace, pool, colevels, from, Push(q, po))
  {
  }

  /** A predecessor goes to the front: its level is below that of everything queued. */
  lemma FrontOfQueue(q: seq<Obligation>, pred: Obligation)
    requires Ordered(q) && q != [] && pred.level < q[0].level
    ensures Ordered(q[1..]) && Push(Push(q[1..], pred), q[0])[0] == pred
    ensures forall po :: po in q ==> po in Push(Push(q[1..], pred), q[0])
  {
    assert q == [q[0]] + q[1..];
    LowerComesFirst(q[1..], q[0], pred, RankOf);
  }

  /** The queue after a predecessor was put in front of the first obligation. */
  lemma QueueAfterPredecessor(
    sys: TransitionSystem, trace: Trace, pool: Pool, pool': Pool, colevels: nat, colevels': nat, from: nat,
    q: seq<Obligation>, pred: Obligation)
    requires pool <= pool' && SuccessorsDecrease(pool') && colevels <= colevels'
    requires QueueOk(sys, trace, pool, colevels, from, q) && q != [] && pred.level < q[0].level
    requires ObligationOk(sys, trace, pool', colevels', from, pred)
    ensures Ordered(q[1..]) && pred.handle < |pool'|
    ensures var r := Push(Push(q[1..], pred), q[0]);
            && QueueOk(sys, trace, pool', colevels', from, r)
            && r != [] && r[0] == pred && (forall po :: po in q ==> po in r)
  {
    hide Push;
    QueueOkPreserved(sys, trace, trace, pool, pool', colevels, colevels', from, q);
    QueueTail(sys, trace, pool', colevels', from, q);
    QueuePush(sys, trace, pool', colevels', from, q[1..], pred);
    QueuePush(sys, trace, pool', colevels', from, Push(q[1..], pred), q[0]);
    FrontOfQueue(q, pred);
  }

  /** The queue after its first obligation was blocked and, if asked for, raised. */
  lemma QueueAfterBlocking(
    sys: TransitionSystem, trace: Trace, trace': Trace, pool: Pool, colevels: nat, from: nat, q: seq<Obligation>)
    requires |trace'| == |trace| && QueueOk(sys, trace, pool, colevels, from, q) && q != []
    ensures QueueOk(sys, trace', pool, colevels, from, q[1..]) && Ordered(q[1..])
    ensures q[0].level < |trace'| - 1 ==>
              QueueOk(sys, trace', pool, colevels, from,
                      Push(q[1..], Obligation(q[0].level + 1, q[0].colevel, q[0].handle)))
  {
    hide Push;
    QueueTail(sys, trace, pool, colevels, from, q);
    QueueOkPreserved(sys, trace, trace', pool, pool, colevels, colevels, from, q);
    QueueTail(sys, trace', pool, colevels, from, q);
    if q[0].level < |trace'| - 1 {
      QueuePush(
        sys, trace', pool, colevels, from, q[1..], Obligation(q[0].level + 1, q[0].colevel, q[0].handle));
    }
  }

  lemma StartQueue(
    sys: TransitionSystem, trace: Trace, pool: Pool, colevels: nat, start: Obligation)
    requires ObligationOk(sys, trace, pool, colevels, start.colevel, start)
    ensures QueueOk(sys, trace, pool, colevels, start.colevel, [start]) && start.handle < |pool|
  {
  }
}
