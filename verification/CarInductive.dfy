/**
 * The inductiveness test of CAR (src/engine/car.cpp, is_inductive): a separate
 * solver accumulates the negations of the earlier frames, encoded with fresh
 * variables, and is asked for a state of the next frame outside all of them.
 */
module CarInductive {
  import opened Logic
  import opened TransitionSystems
  import opened Solvers
  import opened Frames
  import opened FrameInvariants
  import opened Queries
  import opened CarQueries

  // ------------------------------------------------------------------
  // The clauses of a negated frame
  // ------------------------------------------------------------------

  lemma TwoLiteralClause(a: Assignment, l: Literal, m: Literal)
    ensures ClauseTrue(a, [l, m]) <==> LitTrue(a, l) || LitTrue(a, m)
    ensures ClauseTrue(a, [l]) <==> LitTrue(a, l)
  {
    assert l in [l, m] && m in [l, m] && l in [l];
  }

  lemma OneMoreClause(a: Assignment, f: Cnf, c: Clause)
    ensures Models(a, f + [c]) <==> Models(a, f) && ClauseTrue(a, c)
  {
    ModelsConcat(a, f, [c]);
    assert c in [c];
  }

  lemma OneMoreLiteral(a: Assignment, c: Clause, l: Literal)
    ensures ClauseTrue(a, c + [l]) <==> ClauseTrue(a, c) || LitTrue(a, l)
  {
    if ClauseTrue(a, c) {
      var m :| m in c && LitTrue(a, m);
      assert m in c + [l];
    }
    assert l in c + [l];
  }

  /** The variable of cube k, made right after x. */
  function CubeVar(x: int, k: int): int {
    x + 1 + k
  }

  /** Each cube's variable is true exactly if the cube is. */
  ghost predicate DefinesCubes(a: Assignment, cubes: seq<Cube>, x: int, n: nat)
    requires n <= |cubes|
  {
    forall k {:trigger CubeVar(x, k)} :: 0 <= k < n ==> (CubeVar(x, k) in a <==> CubeTrue(a, cubes[k].literals))
  }

  /** What the encoding says: x is true, each y stands for its cube, and some y is true. */
  ghost predicate NegationHolds(a: Assignment, cubes: seq<Cube>, x: int) {
    && x in a
    && DefinesCubes(a, cubes, x, |cubes|)
    && (exists k :: 0 <= k < |cubes| && CubeVar(x, k) in a)
  }

  /** The clauses y -> l for every literal l of the cube. */
  method ImpliesLiterals(cnf: Cnf, y: Literal, ls: seq<Literal>) returns (r: Cnf)
    ensures forall a :: Models(a, r) <==> Models(a, cnf) && (LitTrue(a, y) ==> CubeTrue(a, ls))
    ensures VarsBelow(cnf, VarOf(y) + 1) && LitsBelow(ls, VarOf(y) + 1) ==> VarsBelow(r, VarOf(y) + 1)
  {
    r := cnf;
    for n := 0 to |ls|
      invariant forall a :: Models(a, r) <==>
                  Models(a, cnf) && (LitTrue(a, y) ==> CubeTrue(a, ls[..n]))
      invariant VarsBelow(cnf, VarOf(y) + 1) && LitsBelow(ls, VarOf(y) + 1) ==> VarsBelow(r, VarOf(y) + 1)
    {
      ghost var before := r;
      r := r + [[Not(y), ls[n]]];
      forall a: Assignment
        ensures Models(a, r) <==> Models(a, before) && (LitTrue(a, y) ==> LitTrue(a, ls[n]))
      {
        OneMoreClause(a, before, [Not(y), ls[n]]);
        TwoLiteralClause(a, Not(y), ls[n]);
      }
      assert ls[..n + 1] == ls[..n] + [ls[n]];
    }
    assert ls[..|ls|] == ls;
  }

  ghost predicate LitsBelow(ls: seq<Literal>, bound: int) {
    forall l :: l in ls ==> VarOf(l) < bound
  }

  /** All variables of the formula are below the bound. */
  ghost predicate VarsBelow(f: Cnf, bound: int) {
    forall c :: c in f ==> LitsBelow(c, bound)
  }

  lemma BelowAgrees(f: Cnf, bound: int, a: Assignment, b: Assignment)
    requires VarsBelow(f, bound) && Models(a, f)
    requires forall v :: 0 < v < bound ==> (v in a <==> v in b)
    ensures Models(b, f)
  {
    forall c | c in f
      ensures ClauseTrue(b, c)
    {
      var l :| l in c && LitTrue(a, l);
      assert LitTrue(b, l);
    }
  }

  /** Encodes that some of the cubes is true, with a variable for each of them. */
  method ClausifyFrameNegation(store: VariableStore, cubes: seq<Cube>) returns (cnf: Cnf, ghost x: int)
    requires store.size > 0 && forall c :: c in cubes ==> LitsBelow(c.literals, store.size)
    modifies store
    ensures x == old(store.size) && store.size == old(store.size) + 1 + |cubes|
    ensures forall a :: Models(a, cnf) <==> NegationHolds(a, cubes, x)
    ensures VarsBelow(cnf, store.size)
  {
    var xv := store.Make();
    x := xv;
    cnf := [[xv]];
    assert cnf[0] in cnf;
    forall a: Assignment
      ensures Models(a, cnf) <==> xv in a
    {
      OneMoreClause(a, [], [xv]);
      TwoLiteralClause(a, xv, xv);
      assert [] + [[xv]] == cnf;
    }
    var ys: seq<Literal> := [];
    for n := 0 to |cubes|
      invariant store.size == old(store.size) + 1 + n
      invariant |ys| == n && forall k :: 0 <= k < n ==> ys[k] == CubeVar(xv, k)
      invariant VarsBelow(cnf, store.size)
      invariant forall a :: Models(a, cnf) <==> xv in a && DefinesCubes(a, cubes, xv, n)
    {
      ghost var before := cnf;
      var y := store.Make();
      ys := ys + [y];
      cnf := ImpliesLiterals(cnf, y, cubes[n].literals);
      ghost var middle := cnf;
      cnf := cnf + [NotAll(cubes[n].literals) + [y]];
      assert LitsBelow(NotAll(cubes[n].literals) + [y], store.size);
      forall a: Assignment
        ensures Models(a, cnf) <==>
                  Models(a, before) && (y in a <==> CubeTrue(a, cubes[n].literals))
      {
        OneMoreClause(a, middle, NotAll(cubes[n].literals) + [y]);
        OneMoreLiteral(a, NotAll(cubes[n].literals), y);
        NegatedCube(a, cubes[n].literals);
      }
      forall a: Assignment
        ensures DefinesCubes(a, cubes, xv, n + 1) <==>
                  DefinesCubes(a, cubes, xv, n) && (y in a <==> CubeTrue(a, cubes[n].literals))
      {
        assert CubeVar(xv, n) == y;
      }
    }
    ghost var defined := cnf;
    cnf := cnf + [[Not(xv)] + ys];
    assert LitsBelow([Not(xv)] + ys, store.size);
    forall a: Assignment
      ensures Models(a, cnf) <==> NegationHolds(a, cubes, x)
    {
      OneMoreClause(a, defined, [Not(xv)] + ys);
      SomeLiteral(a, xv, ys);
    }
    ghost var complete := cnf;
    for n := 0 to |ys|
      invariant VarsBelow(cnf, store.size)
      invariant forall a :: Models(a, cnf) <==> NegationHolds(a, cubes, x)
    {
      ghost var before := cnf;
      cnf := cnf + [[Not(ys[n]), xv]];
      forall a: Assignment
        ensures Models(a, cnf) <==> NegationHolds(a, cubes, x)
      {
        OneMoreClause(a, before, [Not(ys[n]), xv]);
        TwoLiteralClause(a, Not(ys[n]), xv);
      }
    }
  }

  lemma SomeLiteral(a: Assignment, x: Literal, ys: seq<Literal>)
    requires x > 0 && forall k :: 0 <= k < |ys| ==> ys[k] == CubeVar(x, k)
    ensures ClauseTrue(a, [Not(x)] + ys) <==> x !in a || exists k :: 0 <= k < |ys| && CubeVar(x, k) in a
  {
    var c := [Not(x)] + ys;
    if k :| 0 <= k < |ys| && CubeVar(x, k) in a {
      assert c[k + 1] == ys[k] && ys[k] in c && LitTrue(a, ys[k]);
    }
    assert c[0] in c;
    if ClauseTrue(a, c) && x in a {
      var l :| l in c && LitTrue(a, l);
      var j :| 0 <= j < |c| && c[j] == l;
      assert j > 0 && ys[j - 1] == l;
      assert CubeVar(x, j - 1) in a;
    }
  }

  // ------------------------------------------------------------------
  // The accumulating solver
  // ------------------------------------------------------------------

  /** The clauses describe, over the state variables, exactly the states outside the frames below i. */
  ghost predicate DescribesOutside(clauses: Cnf, sys: TransitionSystem, trace: Trace, i: nat, bound: int) {
    && VarsBelow(clauses, bound)
    && (forall a :: Models(a, clauses) ==> !InEarlierFrame(sys, trace, i, a * sys.states.Vars()))
    && (forall s :: sys.IsState(s) && !InEarlierFrame(sys, trace, i, s) ==> HasModelAt(clauses, sys, s))
  }

  ghost predicate HasModelAt(clauses: Cnf, sys: TransitionSystem, s: State) {
    exists a :: Models(a, clauses) && a * sys.states.Vars() == s
  }

  /** The formula says: if the activator is true, the state lies in no cube. */
  ghost predicate ActivatesFrame(f: Cnf, cubes: seq<Cube>, activator: int) {
    forall a :: Models(a, f) <==> (activator in a ==> Avoids(a, cubes))
  }

  lemma InitOutside(sys: TransitionSystem, act: Activators, bound: int, trace: Trace)
    requires Setup(sys, act, |trace|, bound) && FrameInvariant(sys, trace, false)
    ensures DescribesOutside(NegateCube(sys.InitCube()), sys, trace, 1, bound)
  {
    var c := sys.InitCube();
    StateVarsBelow(sys, act, |trace|, bound);
    forall l | l in c.literals
      ensures sys.states.Contains(VarOf(l)) && VarOf(l) < bound
    {
      assert [l] in sys.init && [l][0] == l;
      assert VarOf(l) in sys.states.Vars();
    }
    assert VarsBelow(NegateCube(c), bound);
    forall a: Assignment
      ensures Models(a, NegateCube(c)) <==> !InEarlierFrame(sys, trace, 1, a * sys.states.Vars())
    {
      var s := a * sys.states.Vars();
      sys.StateCubeMeaning(a, c.literals);
      sys.InitIsCubeMeaning(s);
      InEarliest(sys, trace, s);
    }
    forall s | sys.IsState(s) && !InEarlierFrame(sys, trace, 1, s)
      ensures HasModelAt(NegateCube(c), sys, s)
    {
      assert s * sys.states.Vars() == s;
      assert Models(s, NegateCube(c));
    }
  }

  lemma InEarliest(sys: TransitionSystem, trace: Trace, s: State)
    requires |trace| > 0 && trace[0] == []
    ensures InEarlierFrame(sys, trace, 1, s) <==> sys.Init(s)
  {
    assert InFrame(sys, trace, false, 0, s) <==> sys.Init(s);
  }

  /** The state part of a model that also satisfies the active frame is a new state of R_i. */
  lemma NewStateFound(
    clauses: Cnf, f: Cnf, sys: TransitionSystem, act: Activators, trace: Trace, i: nat, bound: int, bound': int,
    activator: int, m: Assignment)
    requires Setup(sys, act, |trace|, bound') && FrameInvariant(sys, trace, false) && 1 <= i < |trace|
    requires DescribesOutside(clauses, sys, trace, i, bound) && ActivatesFrame(f, trace[i], activator)
    requires Models(m, clauses + f) && activator in m
    ensures !CoveredFrame(sys, trace, i)
  {
    ModelsConcat(m, clauses, f);
    var s := m * sys.states.Vars();
    assert sys.IsState(s) && !InEarlierFrame(sys, trace, i, s);
    forall c | c in trace[i]
      ensures !CubeTrue(s, c.literals)
    {
      sys.StateCubeMeaning(m, c.literals);
    }
    assert InFrame(sys, trace, false, i, s);
  }

  /** Without such a model, R_i lies within the earlier frames. */
  lemma NothingNew(
    clauses: Cnf, f: Cnf, sys: TransitionSystem, act: Activators, trace: Trace, i: nat, bound: int,
    activator: int)
    requires Setup(sys, act, |trace|, bound) && FrameInvariant(sys, trace, false) && 1 <= i < |trace|
    requires DescribesOutside(clauses, sys, trace, i, bound) && ActivatesFrame(f, trace[i], activator)
    requires activator >= bound
    requires forall a :: Models(a, clauses + f) ==> activator !in a
    ensures CoveredFrame(sys, trace, i)
  {
    StateVarsBelow(sys, act, |trace|, bound);
    forall s | sys.IsState(s) && !InEarlierFrame(sys, trace, i, s)
      ensures !InFrame(sys, trace, false, i, s)
    {
      assert HasModelAt(clauses, sys, s);
      var a0 :| Models(a0, clauses) && a0 * sys.states.Vars() == s;
      var a := a0 + {activator};
      BelowAgrees(clauses, bound, a0, a);
      ModelsConcat(a, clauses, f);
      assert !Avoids(a, trace[i]);
      var c :| c in trace[i] && CubeTrue(a, c.literals);
      assert a * sys.states.Vars() == s;
      sys.StateCubeMeaning(a, c.literals);
      assert InFrame(sys, trace, false, i, s) ==> Avoids(s, trace[i]);
    }
  }

  lemma StateVarsBelow(sys: TransitionSystem, act: Activators, frames: int, bound: int)
    requires Setup(sys, act, frames, bound)
    ensures forall v :: v in sys.states.Vars() ==> 0 < v < bound
  {
    forall v | v in sys.states.Vars()
      ensures 0 < v < bound
    {
      assert v in sys.Vars();
      assert v in act.All() + sys.Vars();
    }
  }

  /** Switching the frame off and adding its negation moves on to the next frame. */
  lemma OutsideNext(
    clauses: Cnf, f: Cnf, neg: Cnf, sys: TransitionSystem, act: Activators, trace: Trace, i: nat, bound: int,
    activator: Literal, x: int, bound': int)
    requires Setup(sys, act, |trace|, bound) && FrameInvariant(sys, trace, false) && 1 <= i < |trace|
    requires DescribesOutside(clauses, sys, trace, i, bound) && ActivatesFrame(f, trace[i], activator)
    requires 0 < bound <= activator < x && bound' == x + 1 + |trace[i]|
    requires VarsBelow(f, bound') && VarsBelow(neg, bound')
    requires forall a :: Models(a, neg) <==> NegationHolds(a, trace[i], x)
    ensures DescribesOutside(clauses + f + [[Not(activator)]] + neg, sys, trace, i + 1, bound')
  {
    var g := clauses + f + [[Not(activator)]] + neg;
    forall a: Assignment
      ensures Models(a, g) <==>
                Models(a, clauses) && Models(a, f) && activator !in a && NegationHolds(a, trace[i], x)
    {
      ModelsConcat(a, clauses + f + [[Not(activator)]], neg);
      OneMoreClause(a, clauses + f, [Not(activator)]);
      TwoLiteralClause(a, Not(activator), Not(activator));
      ModelsConcat(a, clauses, f);
    }
    assert VarsBelow(g, bound');
    forall a | Models(a, g)
      ensures !InEarlierFrame(sys, trace, i + 1, a * sys.states.Vars())
    {
      var k :| 0 <= k < |trace[i]| && CubeVar(x, k) in a;
      assert CubeTrue(a, trace[i][k].literals);
      NotInFrame(sys, trace, i, trace[i][k], a);
    }
    forall s | sys.IsState(s) && !InEarlierFrame(sys, trace, i + 1, s)
      ensures HasModelAt(g, sys, s)
    {
      var a := NextModel(clauses, f, sys, act, trace, i, bound, activator, x, s);
      assert Models(a, g);
    }
  }

  lemma NotInFrame(sys: TransitionSystem, trace: Trace, i: nat, c: Cube, a: Assignment)
    requires i < |trace| && c in trace[i] && sys.IsStateCube(c.literals) && CubeTrue(a, c.literals)
    requires !InEarlierFrame(sys, trace, i, a * sys.states.Vars())
    ensures !InEarlierFrame(sys, trace, i + 1, a * sys.states.Vars())
  {
    var s := a * sys.states.Vars();
    sys.StateCubeMeaning(a, c.literals);
    assert InFrame(sys, trace, false, i, s) ==> Avoids(s, trace[i]);
  }

  lemma NextModel(
    clauses: Cnf, f: Cnf, sys: TransitionSystem, act: Activators, trace: Trace, i: nat, bound: int,
    activator: Literal, x: int, s: State) returns (a: Assignment)
    requires Setup(sys, act, |trace|, bound) && FrameInvariant(sys, trace, false) && 1 <= i < |trace|
    requires DescribesOutside(clauses, sys, trace, i, bound) && ActivatesFrame(f, trace[i], activator)
    requires 0 < bound <= activator < x
    requires sys.IsState(s) && !InEarlierFrame(sys, trace, i + 1, s)
    ensures Models(a, clauses) && Models(a, f) && activator !in a && NegationHolds(a, trace[i], x)
    ensures a * sys.states.Vars() == s
  {
    var k := BlockingCube(sys, trace, i, s);
    assert HasModelAt(clauses, sys, s);
    var a0 :| Models(a0, clauses) && a0 * sys.states.Vars() == s;
    StateVarsBelow(sys, act, |trace|, bound);
    a := ExtendWithCubes(sys, trace[i], x, bound, a0, s, k);
    BelowAgrees(clauses, bound, a0, a);
  }

  lemma BlockingCube(sys: TransitionSystem, trace: Trace, i: nat, s: State) returns (k: nat)
    requires 1 <= i < |trace| && !InEarlierFrame(sys, trace, i + 1, s)
    ensures k < |trace[i]| && CubeTrue(s, trace[i][k].literals)
    ensures !InEarlierFrame(sys, trace, i, s)
  {
    assert !InEarlierFrame(sys, trace, i, s) by {
      forall j | 0 <= j < i
        ensures !InFrame(sys, trace, false, j, s)
      {
      }
    }
    assert !InFrame(sys, trace, false, i, s);
    assert !Avoids(s, trace[i]);
    var c :| c in trace[i] && CubeTrue(s, c.literals);
    k :| 0 <= k < |trace[i]| && trace[i][k] == c;
  }

  /** Cuts an assignment off at the bound and sets the variables of the true cubes. */
  lemma ExtendWithCubes(
    sys: TransitionSystem, cubes: seq<Cube>, x: int, bound: int, a0: Assignment, s: State, some: nat)
    returns (a: Assignment)
    requires 0 < bound < x && a0 * sys.states.Vars() == s
    requires forall v :: v in sys.states.Vars() ==> 0 < v < bound
    requires forall c :: c in cubes ==> sys.IsStateCube(c.literals)
    requires some < |cubes| && CubeTrue(s, cubes[some].literals)
    ensures forall v :: v < bound ==> (v in a <==> v in a0)
    ensures forall v :: bound <= v < x ==> v !in a
    ensures a * sys.states.Vars() == s && NegationHolds(a, cubes, x)
  {
    var low := set v | v in a0 && v < bound;
    var ys := set k | 0 <= k < |cubes| && CubeTrue(s, cubes[k].literals) :: CubeVar(x, k);
    a := low + {x} + ys;
    assert a * sys.states.Vars() == s;
    forall k | 0 <= k < |cubes|
      ensures CubeVar(x, k) in a <==> CubeTrue(a, cubes[k].literals)
    {
      assert cubes[k] in cubes;
      sys.StateCubeMeaning(a, cubes[k].literals);
      assert CubeVar(x, k) in a <==> CubeVar(x, k) in ys;
    }
    assert CubeVar(x, some) in a;
  }

  /** The clauses of frame i under an activator. */
  method ActivateFrame(cubes: seq<Cube>, activator: Literal, ghost bound: int) returns (f: Cnf)
    requires activator > 0 && activator < bound && forall c :: c in cubes ==> LitsBelow(c.literals, bound)
    ensures ActivatesFrame(f, cubes, activator) && VarsBelow(f, bound)
  {
    f := [];
    for n := 0 to |cubes|
      invariant ActivatesFrame(f, cubes[..n], activator) && VarsBelow(f, bound)
    {
      ghost var before := f;
      f := f + Activate(NegateCube(cubes[n]), activator);
      assert cubes[..n + 1] == cubes[..n] + [cubes[n]];
      forall a: Assignment
        ensures Models(a, f) <==> (activator in a ==> Avoids(a, cubes[..n + 1]))
      {
        ModelsConcat(a, before, Activate(NegateCube(cubes[n]), activator));
        ActivatedHolds(a, NegateCube(cubes[n]), activator);
        assert cubes[n] in cubes[..n + 1];
      }
      ActivatedCubeBelow(cubes[n], activator, bound);
    }
    assert cubes[..|cubes|] == cubes;
  }

  lemma ActivatedCubeBelow(c: Cube, activator: Literal, bound: int)
    requires 0 < activator < bound && LitsBelow(c.literals, bound)
    ensures VarsBelow(Activate(NegateCube(c), activator), bound)
  {
    var f := Activate(NegateCube(c), activator);
    forall d | d in f
      ensures LitsBelow(d, bound)
    {
      assert f[0] == NegateCube(c)[0] + [Not(activator)];
    }
  }

  // ------------------------------------------------------------------
  // The answers of the accumulating solver
  // ------------------------------------------------------------------

  lemma NewStateAnswer(
    clauses: Cnf, f: Cnf, sys: TransitionSystem, act: Activators, trace: Trace, i: nat, bound: int, bound': int,
    activator: Literal, m: Assignment)
    requires Setup(sys, act, |trace|, bound') && FrameInvariant(sys, trace, false) && 1 <= i < |trace|
    requires DescribesOutside(clauses, sys, trace, i, bound) && ActivatesFrame(f, trace[i], activator)
    requires activator > 0 && Answers(m, clauses + f, {} + LitSet([activator]), [])
    ensures !CoveredFrame(sys, trace, i)
  {
    assert activator in [activator] && LitTrue(m, activator);
    ModelsConcat(m, clauses, f);
    NewStateFound(clauses, f, sys, act, trace, i, bound, bound', activator, m);
  }

  lemma NothingNewAnswer(
    clauses: Cnf, f: Cnf, sys: TransitionSystem, act: Activators, trace: Trace, i: nat, bound: int,
    activator: Literal, core: set<Literal>)
    requires Setup(sys, act, |trace|, bound) && FrameInvariant(sys, trace, false) && 1 <= i < |trace|
    requires DescribesOutside(clauses, sys, trace, i, bound) && ActivatesFrame(f, trace[i], activator)
    requires activator >= bound > 0 && core <= {} + LitSet([activator])
    requires forall a :: !Answers(a, clauses + f, core, [])
    ensures CoveredFrame(sys, trace, i)
  {
    forall a | Models(a, clauses + f)
      ensures activator !in a
    {
      assert !Answers(a, clauses + f, core, []);
    }
    NothingNew(clauses, f, sys, act, trace, i, bound, activator);
  }

  lemma NextOutside(
    clauses: Cnf, f: Cnf, neg: Cnf, sys: TransitionSystem, act: Activators, trace: Trace, i: nat, bound: int,
    activator: Literal, x: int, bound': int)
    requires Setup(sys, act, |trace|, bound) && FrameInvariant(sys, trace, false) && 1 <= i < |trace|
    requires DescribesOutside(clauses, sys, trace, i, bound) && ActivatesFrame(f, trace[i], activator)
    requires 0 < bound <= activator < x && bound' == x + 1 + |trace[i]|
    requires VarsBelow(f, x) && VarsBelow(neg, bound')
    requires forall a :: Models(a, neg) <==> NegationHolds(a, trace[i], x)
    ensures DescribesOutside(clauses + f + [[Not(activator)]] + neg, sys, trace, i + 1, bound')
  {
    OutsideNext(clauses, f, neg, sys, act, trace, i, bound, activator, x, bound');
  }
}
