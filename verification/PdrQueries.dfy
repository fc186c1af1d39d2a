/**
 * What the answers to the queries of the PDR engine mean
 * (src/engine/pdr.cpp), stated on values.
 */
module PdrQueries {
  import opened Logic
  import opened TransitionSystems
  import opened Solvers
  import opened Frames
  import opened FrameInvariants
  import opened Chains
  import opened Queries

  // ------------------------------------------------------------------
  // Relative induction
  // ------------------------------------------------------------------

  /**
   * The failed assumptions of a relative induction query: if no activator
   * below j failed, every cube between the failed literals and s is blockable
   * relative to R_j.
   */
  ghost predicate CoreBlocks(
    sys: TransitionSystem, act: Activators, trace: Trace, s: seq<Literal>, from: nat, core: set<Literal>)
    requires sys.WellFormed() && |act.frames| == |trace| && sys.IsStateCube(s)
  {
    forall c: seq<Literal>, j {:trigger Blockable(sys, trace, true, c, j)} ::
      && from <= j <= |trace|
      && (forall k :: from <= k < j ==> act.frames[k] !in core)
      && (forall l :: l in c ==> l in s)
      && (forall l :: l in s && sys.Prime(l) in core ==> l in c)
      ==> Blockable(sys, trace, true, c, j)
  }

  /** The model of a relative induction query is a state of R_from outside s that steps into s. */
  ghost predicate ModelSteps(sys: TransitionSystem, trace: Trace, s: seq<Literal>, from: nat, m: Assignment)
    requires sys.WellFormed()
  {
    var p, y := m * sys.states.Vars(), m * sys.inputs.Vars();
    && sys.IsState(p) && sys.IsInput(y)
    && InFrame(sys, trace, true, from, p)
    && !CubeTrue(p, s)
    && CubeTrue(sys.Succ(p, y), s)
  }

  lemma StepsIntoCube(
    sys: TransitionSystem, act: Activators, bound: int, trace: Trace, s: seq<Literal>, from: nat, m: Assignment)
    requires Setup(sys, act, |trace|, bound) && ModelSteps(sys, trace, s, from, m)
    ensures sys.IsState(m * sys.states.Vars()) && sys.IsInput(m * sys.inputs.Vars())
    ensures CubeTrue(sys.Succ(m * sys.states.Vars(), m * sys.inputs.Vars()), s)
  {
  }

  lemma RelativeInductionUnsat(
    clauses: Cnf, sys: TransitionSystem, act: Activators, trace: Trace, s: seq<Literal>, from: nat, core: set<Literal>)
    requires Synced(clauses, sys, act, trace, true)
    requires act.Fresh(sys) && sys.WellFormed() && StateTrace(sys, trace)
    requires sys.IsStateCube(s) && from < |trace|
    requires forall l :: l in core ==>
                           l in ActivatorsFrom(act, from) || l == act.trans || l in sys.PrimeAll(s)
    requires forall a :: !Answers(a, clauses, core, [NotAll(s)])
    ensures CoreBlocks(sys, act, trace, s, from, core)
  {
    forall c: seq<Literal>, j |
      && from <= j <= |trace|
      && (forall k :: from <= k < j ==> act.frames[k] !in core)
      && (forall l :: l in c ==> l in s)
      && (forall l :: l in s && sys.Prime(l) in core ==> l in c)
      ensures Blockable(sys, trace, true, c, j)
    {
      forall p, y |
        sys.IsState(p) && sys.IsInput(y) && InFrame(sys, trace, true, j, p) && !CubeTrue(p, c)
        ensures !CubeTrue(sys.Succ(p, y), c)
      {
        var on: set<int> := {act.trans} + set l | l in act.frames[j..] :: l;
        OnlyFrom(sys, act, trace, j, p, on);
        var a := StepIsModel(clauses, sys, act, trace, true, p, y, on);
        RefutedLiteral(sys, act, s, from, j, core, clauses, a, on, c);
      }
    }
  }

  lemma OnlyFrom(sys: TransitionSystem, act: Activators, trace: Trace, j: nat, p: State, on: set<int>)
    requires act.Fresh(sys) && |act.frames| == |trace| && j <= |trace|
    requires on == {act.trans} + set l | l in act.frames[j..] :: l
    requires InFrame(sys, trace, true, j, p)
    ensures on <= act.All() && act.error !in on
    ensures forall k :: 0 <= k < |trace| && act.frames[k] in on ==> j <= k
    ensures forall k :: 0 <= k < |trace| && act.frames[k] in on ==> InFrame(sys, trace, true, k, p)
  {
    forall l | l in act.frames[j..]
      ensures l in act.frames
    {
    }
    forall k | 0 <= k < |trace| && act.frames[k] in on
      ensures j <= k && InFrame(sys, trace, true, k, p)
    {
      assert act.frames[k] in act.frames;
      var m :| 0 <= m < |act.frames[j..]| && act.frames[j..][m] == act.frames[k];
      assert act.frames[j + m] == act.frames[k];
    }
  }

  /** Among the failed assumptions, only a primed literal can be false in a step's payload. */
  lemma RefutedLiteral(
    sys: TransitionSystem, act: Activators, s: seq<Literal>, from: nat, j: nat, core: set<Literal>,
    clauses: Cnf, a: Assignment, on: set<int>, c: seq<Literal>)
    requires sys.WellFormed() && act.Fresh(sys) && sys.IsStateCube(s) && from <= j <= |act.frames|
    requires on == {act.trans} + set l | l in act.frames[j..] :: l
    requires forall l :: l in core ==>
                           l in ActivatorsFrom(act, from) || l == act.trans || l in sys.PrimeAll(s)
    requires forall k :: from <= k < j ==> act.frames[k] !in core
    requires forall l :: l in s && sys.Prime(l) in core ==> l in c
    requires forall l :: l in c ==> l in s
    requires !Answers(a, clauses, core, [NotAll(s)]) && Models(a, clauses) && on <= a
    requires !CubeTrue(a * sys.states.Vars(), c)
    ensures !CubeTrue(sys.UnprimeState(a), c)
  {
    sys.StateCubeMeaning(a, s);
    assert !CubeTrue(a * sys.states.Vars(), s);
    NegatedCube(a, s);
    assert Models(a, [NotAll(s)]);
    forall g | g in core && g in ActivatorsFrom(act, from)
      ensures LitTrue(a, g)
    {
      ActiveFrom(act, from, j, core, on, g);
    }
    var f :| f in core && !LitTrue(a, f);
    assert LitTrue(a, act.trans);
    assert f in sys.PrimeAll(s);
    PrimedLiteralFalse(sys, s, a, f, c);
  }

  lemma ActiveFrom(act: Activators, from: nat, j: nat, core: set<Literal>, on: set<int>, f: Literal)
    requires from <= j <= |act.frames|
    requires on == {act.trans} + set l | l in act.frames[j..] :: l
    requires forall k :: from <= k < j ==> act.frames[k] !in core
    requires f in core && f in ActivatorsFrom(act, from)
    ensures f in on && f in act.frames
  {
    var m :| 0 <= m < |act.frames[from..]| && act.frames[from..][m] == f;
    assert act.frames[from + m] == f;
    assert j <= from + m;
    assert act.frames[j..][from + m - j] == f;
    assert f in act.frames[j..];
  }

  lemma RelativeInductionSat(
    clauses: Cnf, sys: TransitionSystem, act: Activators, trace: Trace, s: seq<Literal>, from: nat, m: Assignment)
    requires Synced(clauses, sys, act, trace, true)
    requires act.Fresh(sys) && sys.WellFormed() && StateTrace(sys, trace)
    requires sys.IsStateCube(s) && from < |trace|
    requires Models(m, clauses) && Models(m, [NotAll(s)])
    requires AllTrue(m, ActivatorsFrom(act, from) + {act.trans} + LitSet(sys.PrimeAll(s)))
    ensures ModelSteps(sys, trace, s, from, m)
  {
    forall j | from <= j < |trace|
      ensures act.frames[j] in m
    {
      assert act.frames[from..][j - from] == act.frames[j];
      assert act.frames[j] in ActivatorsFrom(act, from);
      assert act.frames[j] in act.frames;
      assert LitTrue(m, act.frames[j]);
    }
    ModelLiesInFrame(clauses, sys, act, trace, true, m, from);
    assert LitTrue(m, act.trans);
    sys.ModelOfTransIsStep(m);
    NegatedCube(m, s);
    assert [NotAll(s)][0] == NotAll(s);
    sys.StateCubeMeaning(m, s);
    sys.PrimedCubeMeaning(m, s);
  }

  /** The answers to the relative induction query. */
  lemma RelativelyInductive(
    clauses: Cnf, sys: TransitionSystem, act: Activators, trace: Trace, bound: int, s: seq<Literal>, from: nat,
    core: set<Literal>)
    requires Synced(clauses, sys, act, trace, true) && Setup(sys, act, |trace|, bound)
    requires FrameInvariant(sys, trace, true) && sys.IsStateCube(s) && from < |trace|
    requires core <= ActivatorsFrom(act, from) + LitSet([act.trans]) + LitSet(sys.PrimeAll(s))
    requires forall a :: !Answers(a, clauses, core, [NotAll(s)])
    ensures CoreBlocks(sys, act, trace, s, from, core)
    ensures Blockable(sys, trace, true, s, from)
  {
    forall l | l in core
      ensures l in ActivatorsFrom(act, from) || l == act.trans || l in sys.PrimeAll(s)
    {
    }
    RelativeInductionUnsat(clauses, sys, act, trace, s, from, core);
  }

  lemma NotRelativelyInductive(
    clauses: Cnf, sys: TransitionSystem, act: Activators, trace: Trace, bound: int, s: seq<Literal>, from: nat,
    m: Assignment)
    requires Synced(clauses, sys, act, trace, true) && Setup(sys, act, |trace|, bound)
    requires FrameInvariant(sys, trace, true) && sys.IsStateCube(s) && from < |trace|
    requires Models(m, clauses) && Models(m, [NotAll(s)])
    requires AllTrue(m, ActivatorsFrom(act, from) + LitSet([act.trans]) + LitSet(sys.PrimeAll(s)))
    ensures ModelSteps(sys, trace, s, from, m)
    ensures !Blockable(sys, trace, true, s, from)
  {
    assert act.trans in [act.trans];
    RelativeInductionSat(clauses, sys, act, trace, s, from, m);
    assert !CubeTrue(m * sys.states.Vars(), s);
  }

  lemma CoreBlocksCube(
    sys: TransitionSystem, act: Activators, bound: int, trace: Trace, s: seq<Literal>, from: nat, core: set<Literal>,
    c: seq<Literal>, j: nat)
    requires Setup(sys, act, |trace|, bound) && sys.IsStateCube(s)
    requires CoreBlocks(sys, act, trace, s, from, core)
    requires from <= j <= |trace| && forall k :: from <= k < j ==> act.frames[k] !in core
    requires forall l :: l in c ==> l in s
    requires forall l :: l in s && sys.Prime(l) in core ==> l in c
    ensures Blockable(sys, trace, true, c, j)
  {
  }

  /** Only the set of literals of a vector matters. */
  lemma SameLiterals(
    sys: TransitionSystem, act: Activators, bound: int, trace: Trace, cumulative: bool,
    c: seq<Literal>, d: seq<Literal>, j: int)
    requires Setup(sys, act, |trace|, bound) && forall l :: l in c <==> l in d
    ensures Blockable(sys, trace, cumulative, c, j) <==> Blockable(sys, trace, cumulative, d, j)
    ensures ClashesWith(sys.InitCube(), c) <==> ClashesWith(sys.InitCube(), d)
  {
    assert forall a :: CubeTrue(a, c) <==> CubeTrue(a, d);
    assert ClashesWith(sys.InitCube(), c) ==> ClashesWith(sys.InitCube(), d);
    assert ClashesWith(sys.InitCube(), d) ==> ClashesWith(sys.InitCube(), c);
    if Blockable(sys, trace, cumulative, c, j) {
      forall p, y | sys.IsState(p) && sys.IsInput(y) && InFrame(sys, trace, cumulative, j, p)
                    && (cumulative ==> !CubeTrue(p, d))
        ensures !CubeTrue(sys.Succ(p, y), d)
      {
        assert !CubeTrue(sys.Succ(p, y), c);
      }
    }
    if Blockable(sys, trace, cumulative, d, j) {
      forall p, y | sys.IsState(p) && sys.IsInput(y) && InFrame(sys, trace, cumulative, j, p)
                    && (cumulative ==> !CubeTrue(p, c))
        ensures !CubeTrue(sys.Succ(p, y), c)
      {
        assert !CubeTrue(sys.Succ(p, y), d);
      }
    }
  }

  lemma ClashMisses(sys: TransitionSystem, act: Activators, frames: int, bound: int, ls: seq<Literal>)
    requires Setup(sys, act, frames, bound) && ClashesWith(sys.InitCube(), ls)
    ensures MissesInit(sys, ls)
  {
    ClashMissesInit(sys, ls);
  }

  // ------------------------------------------------------------------
  // Error and blocking queries
  // ------------------------------------------------------------------

  lemma NoErrorCti(
    clauses: Cnf, sys: TransitionSystem, act: Activators, trace: Trace, bound: int, core: set<Literal>)
    requires Synced(clauses, sys, act, trace, true) && Setup(sys, act, |trace|, bound)
    requires FrameInvariant(sys, trace, true)
    requires core <= ActivatorsFrom(act, |trace| - 1) + {act.error}
    requires forall a :: !Answers(a, clauses, core, [])
    ensures NoErrorIn(sys, trace, true, |trace| - 1)
  {
    var d := |trace| - 1;
    var on: set<int> := {act.error} + set l | l in act.frames[d..] :: l;
    OnlyActivatorsFrom(sys, act, d, on);
    ErrorUnsat(clauses, sys, act, trace, true, d, on, core);
  }

  /** The answers to the query whether a cube still meets R_i. */
  lemma StillMeets(
    clauses: Cnf, sys: TransitionSystem, act: Activators, trace: Trace, bound: int, s: seq<Literal>, i: nat,
    m: Assignment)
    requires Synced(clauses, sys, act, trace, true) && Setup(sys, act, |trace|, bound)
    requires FrameInvariant(sys, trace, true) && sys.IsStateCube(s) && i < |trace|
    requires Models(m, clauses) && AllTrue(m, LitSet(s) + ActivatorsFrom(act, i))
    ensures !Blocked(sys, trace, true, i, s)
  {
    ActivatorsHold(act, i, m, |trace|);
    ModelLiesInFrame(clauses, sys, act, trace, true, m, i);
    sys.StateCubeMeaning(m, s);
    var p := m * sys.states.Vars();
    assert sys.IsState(p) && CubeTrue(p, s);
  }

  lemma MeetsNoMore(
    clauses: Cnf, sys: TransitionSystem, act: Activators, trace: Trace, bound: int, s: seq<Literal>, i: nat,
    core: set<Literal>)
    requires Synced(clauses, sys, act, trace, true) && Setup(sys, act, |trace|, bound)
    requires FrameInvariant(sys, trace, true) && sys.IsStateCube(s) && i < |trace|
    requires core <= LitSet(s) + ActivatorsFrom(act, i)
    requires forall a :: !Answers(a, clauses, core, [])
    ensures Blocked(sys, trace, true, i, s)
  {
    var on: set<int> := set l | l in act.frames[i..] :: l;
    OnlyActivatorsFrom(sys, act, i, on);
    assert act.error !in on by {
      forall l | l in act.frames[i..]
        ensures l in act.frames
      {
      }
    }
    BlockedUnsat(clauses, sys, act, trace, true, s, i, on, core);
  }

  // ------------------------------------------------------------------
  // Blocking a cube
  // ------------------------------------------------------------------

  /** Blocking c: the frames keep their invariant, shrink, and stay represented in the solver. */
  lemma BlockedAt(
    clauses: Cnf, sys: TransitionSystem, act: Activators, bound: int, trace: Trace, trace': Trace,
    c: Cube, from: int, k: int, level: nat)
    requires Synced(clauses, sys, act, trace, true) && Setup(sys, act, |trace|, bound)
    requires FrameInvariant(sys, trace, true)
    requires 1 <= from <= k < |trace| && k <= level && act.frames[k] > 0
    requires sys.IsStateCube(c.literals) && MissesInit(sys, c.literals)
    requires Blockable(sys, trace, true, c.literals, level - 1)
    requires BlockedBetween(trace, trace', c, from, k) && |act.frames| == |trace|
    ensures FrameInvariant(sys, trace', true) && |trace'| == |trace|
    ensures Synced(clauses + Activate(NegateCube(c), act.frames[k]), sys, act, trace', true)
    ensures SizeFrom(sys, trace', true, 1) <= SizeFrom(sys, trace, true, 1)
    ensures forall m: nat :: 1 <= m <= k && !Blocked(sys, trace, true, m, c.literals) ==>
              SizeFrom(sys, trace', true, 1) < SizeFrom(sys, trace, true, 1)
    ensures forall m: nat :: m <= k ==> Blocked(sys, trace', true, m, c.literals)
  {
    hide TransitionSystem.WellFormed, Synced, FrameInvariant, Setup;
    BlockedBetweenIsBlockedIn(trace, trace', c, from, k);
    SyncedAfterBlocking(
      clauses, clauses + Activate(NegateCube(c), act.frames[k]), sys, act, trace, trace', true, c, k);
    BlockingKeeps(sys, act, bound, trace, trace', c, k, level);
    BlockingShrinksFrames(sys, trace, trace', true, c, k);
    forall m: nat | m <= k
      ensures Blocked(sys, trace', true, m, c.literals)
    {
      forall p | sys.IsState(p) && InFrame(sys, trace', true, m, p)
        ensures !CubeTrue(p, c.literals)
      {
        BlockingMeaning(sys, trace, trace', true, c, k, m, p);
      }
    }
  }

  lemma BlockingKeeps(
    sys: TransitionSystem, act: Activators, bound: int, trace: Trace, trace': Trace, c: Cube, k: int, level: nat)
    requires Setup(sys, act, |trace|, bound) && FrameInvariant(sys, trace, true)
    requires 1 <= k < |trace| == |trace'| && k <= level && BlockedIn(trace, trace', true, c, k)
    requires sys.IsStateCube(c.literals) && MissesInit(sys, c.literals)
    requires Blockable(sys, trace, true, c.literals, level - 1)
    ensures FrameInvariant(sys, trace', true)
  {
    BlockingKeepsInvariant(sys, trace, trace', true, c, k, level - 1);
  }

  // ------------------------------------------------------------------
  // Shrinking a blocked cube
  // ------------------------------------------------------------------

  /** Every literal that did not fail keeps the initial states out. */
  ghost predicate OnlyFailedOrNeeded(sys: TransitionSystem, initCube: Cube, core: set<Literal>, res: seq<Literal>)
    requires sys.DisjointRanges() && sys.IsStateCube(res)
  {
    forall l :: l in res && sys.Prime(l) !in core ==> !ClashesWith(initCube, Remove(res, l))
  }

  /** The same for the first n literals of a vector, as far as they are left. */
  ghost predicate NeededUpTo(
    sys: TransitionSystem, initCube: Cube, core: set<Literal>, s: seq<Literal>, res: seq<Literal>, n: nat)
    requires sys.DisjointRanges() && sys.IsStateCube(s) && n <= |s|
  {
    forall k :: 0 <= k < n ==> NeededLiteral(sys, initCube, core, res, s[k])
  }

  ghost predicate NeededLiteral(
    sys: TransitionSystem, initCube: Cube, core: set<Literal>, res: seq<Literal>, l: Literal)
    requires sys.DisjointRanges()
  {
    sys.states.Contains(VarOf(l)) && l in res && sys.Prime(l) !in core ==> !ClashesWith(initCube, Remove(res, l))
  }

  lemma NeededOneMore(
    sys: TransitionSystem, initCube: Cube, core: set<Literal>, s: seq<Literal>,
    res: seq<Literal>, res': seq<Literal>, n: nat)
    requires sys.DisjointRanges() && sys.IsStateCube(s) && n < |s|
    requires NeededUpTo(sys, initCube, core, s, res, n)
    requires forall l :: l in res' ==> l in res
    requires NeededLiteral(sys, initCube, core, res', s[n])
    ensures NeededUpTo(sys, initCube, core, s, res', n + 1)
  {
    forall k | 0 <= k < n
      ensures NeededLiteral(sys, initCube, core, res', s[k])
    {
      assert NeededLiteral(sys, initCube, core, res, s[k]);
      hide ClashesWith;
      if s[k] in res' && sys.states.Contains(VarOf(s[k])) && sys.Prime(s[k]) !in core
         && ClashesWith(initCube, Remove(res', s[k])) {
        SameClash(initCube, Remove(res', s[k]), Remove(res, s[k]));
      }
    }
  }

  lemma AllNeededForInit(
    sys: TransitionSystem, initCube: Cube, core: set<Literal>, s: seq<Literal>, res: seq<Literal>)
    requires sys.DisjointRanges() && sys.IsStateCube(s) && NeededUpTo(sys, initCube, core, s, res, |s|)
    requires forall l :: l in res ==> l in s
    ensures sys.IsStateCube(res) && OnlyFailedOrNeeded(sys, initCube, core, res)
  {
    forall l | l in res && sys.Prime(l) !in core
      ensures !ClashesWith(initCube, Remove(res, l))
    {
      var k :| 0 <= k < |s| && s[k] == l;
      assert NeededLiteral(sys, initCube, core, res, s[k]);
    }
  }

  /** Putting a literal back leaves the same literals. */
  lemma PutBack(initCube: Cube, res: seq<Literal>, lit: Literal)
    requires ClashesWith(initCube, res) && !ClashesWith(initCube, Remove(res, lit))
    ensures lit in res && forall l :: l in Remove(res, lit) + [lit] <==> l in res
    ensures !ClashesWith(initCube, Remove(Remove(res, lit) + [lit], lit))
  {
    hide ClashesWith;
    if lit !in res {
      SameClash(initCube, res, Remove(res, lit));
    }
    if ClashesWith(initCube, Remove(Remove(res, lit) + [lit], lit)) {
      SameClash(initCube, Remove(Remove(res, lit) + [lit], lit), Remove(res, lit));
    }
  }

  /** A literal stays if its primed version failed or if it is needed to keep the initial states out. */
  lemma UnfailedStep(
    sys: TransitionSystem, initCube: Cube, core: set<Literal>, s: seq<Literal>,
    res: seq<Literal>, res': seq<Literal>, n: nat)
    requires sys.DisjointRanges() && sys.IsStateCube(s) && n < |s|
    requires ClashesWith(initCube, res) && NeededUpTo(sys, initCube, core, s, res, n)
    requires var rest := Remove(res, s[n]);
             res' == if sys.Prime(s[n]) in core then res
                     else if ClashesWith(initCube, rest) then rest else rest + [s[n]]
    ensures forall l :: l in res' ==> l in res
    ensures forall l :: l in res && (l != s[n] || sys.Prime(l) in core) ==> l in res'
    ensures ClashesWith(initCube, res') && NeededUpTo(sys, initCube, core, s, res', n + 1)
  {
    hide ClashesWith, NeededUpTo;
    if sys.Prime(s[n]) !in core && !ClashesWith(initCube, Remove(res, s[n])) {
      PutBack(initCube, res, s[n]);
      SameClash(initCube, res, res');
    }
    NeededOneMore(sys, initCube, core, s, res, res', n);
  }

  /** One attempt to drop a literal: it goes unless it keeps Init out or the cube relatively inductive. */
  ghost function Dropped(
    sys: TransitionSystem, trace: Trace, initCube: Cube, res: seq<Literal>, lit: Literal, j: nat): seq<Literal>
    requires sys.WellFormed()
  {
    var rest := Remove(res, lit);
    if ClashesWith(initCube, rest) && Blockable(sys, trace, true, rest, j) then rest else rest + [lit]
  }

  /** An attempt for each of the first n literals. */
  ghost function DroppedUpTo(
    sys: TransitionSystem, trace: Trace, initCube: Cube, s: seq<Literal>, j: nat, n: nat): seq<Literal>
    requires sys.WellFormed() && n <= |s|
  {
    if n == 0 then s else Dropped(sys, trace, initCube, DroppedUpTo(sys, trace, initCube, s, j, n - 1), s[n - 1], j)
  }

  /** What generalisation makes of a blocked cube before it is moved along the trace. */
  ghost predicate ShrunkFrom(
    sys: TransitionSystem, trace: Trace, initCube: Cube, s: seq<Literal>, core: set<Literal>, c: Cube, j: nat)
    requires sys.WellFormed()
  {
    exists lits: seq<Literal> ::
      && (forall l :: l in lits ==> l in s) && sys.IsStateCube(lits)
      && OnlyFailedOrNeeded(sys, initCube, core, lits)
      && c == MakeCube(DroppedUpTo(sys, trace, initCube, lits, j, |lits|))
  }

  /** A literal that was in the cube may go back to the end; if it was not, nothing is lost. */
  lemma LiteralRemoved(
    sys: TransitionSystem, act: Activators, bound: int, trace: Trace, initCube: Cube,
    res: seq<Literal>, lit: Literal, j: nat)
    requires Setup(sys, act, |trace|, bound) && sys.WellFormed()
    requires ClashesWith(initCube, res) && Blockable(sys, trace, true, res, j)
    ensures var back := if lit in res then Remove(res, lit) + [lit] else Remove(res, lit);
            ClashesWith(initCube, back) && Blockable(sys, trace, true, back, j)
  {
    hide Blockable, ClashesWith, TransitionSystem.WellFormed;
    var back := if lit in res then Remove(res, lit) + [lit] else Remove(res, lit);
    assert forall l :: l in res <==> l in back;
    SameLiterals(sys, act, bound, trace, true, res, back, j);
    SameClash(initCube, res, back);
  }

  /** Dropping literals twice and sorting what remains gives a part of the cube that is as good. */
  lemma ShrunkCube(
    sys: TransitionSystem, act: Activators, bound: int, trace: Trace, initCube: Cube,
    s: seq<Literal>, core: set<Literal>, lits: seq<Literal>, res: seq<Literal>, j: nat)
    requires Setup(sys, act, |trace|, bound) && sys.WellFormed()
    requires (forall l :: l in lits ==> l in s) && (forall l :: l in res ==> l in lits)
    requires sys.IsStateCube(lits) && OnlyFailedOrNeeded(sys, initCube, core, lits)
    requires res == DroppedUpTo(sys, trace, initCube, lits, j, |lits|)
    requires ClashesWith(initCube, res) && Blockable(sys, trace, true, res, j)
    ensures forall l :: l in MakeCube(res).literals ==> l in s
    ensures ClashesWith(initCube, MakeCube(res).literals)
    ensures Blockable(sys, trace, true, MakeCube(res).literals, j)
    ensures ShrunkFrom(sys, trace, initCube, s, core, MakeCube(res), j)
  {
    hide Blockable, ClashesWith, MakeCube, TransitionSystem.WellFormed, OnlyFailedOrNeeded, DroppedUpTo;
    SameLiterals(sys, act, bound, trace, true, res, MakeCube(res).literals, j);
    SameClash(initCube, res, MakeCube(res).literals);
  }

  lemma CubeOfTrace(
    sys: TransitionSystem, act: Activators, bound: int, trace: Trace, i: nat, c: Cube)
    requires Setup(sys, act, |trace|, bound) && FrameInvariant(sys, trace, true)
    requires i < |trace| && c in trace[i]
    ensures sys.IsStateCube(c.literals) && MissesInit(sys, c.literals)
  {
  }
}
