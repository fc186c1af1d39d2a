/**
 * Symbolic transition systems over disjoint variable ranges
 * (src/transition_system.hpp, the range class of src/logic.hpp) and what they
 * mean: initial states, the successor function, error states and runs.
 */
module TransitionSystems {
  import opened Logic

  /** The variables begin, ..., end - 1. */
  datatype VariableRange = VariableRange(begin: int, end: int) {

    predicate Valid() {
      0 < begin <= end
    }

    function Size(): int {
      end - begin
    }

    predicate Contains(v: int) {
      begin <= v < end
    }

    function Vars(): (vs: set<int>)
      ensures forall v :: v in vs <==> Contains(v)
    {
      set v: int {:trigger Contains(v)} | begin <= v < end
    }

    function Nth(n: int): (v: int)
      requires 0 <= n < Size()
      ensures Contains(v)
    {
      begin + n
    }

    function Offset(v: int): (n: int)
      requires Contains(v)
      ensures 0 <= n < Size() && Nth(n) == v
    {
      v - begin
    }
  }

  /** A state (an input): the set of state (input) variables that are true. */
  type State = set<int>

  type Input = set<int>

  datatype VarType = InputVar | StateVar | NextStateVar | AuxiliaryVar

  datatype TransitionSystem = TransitionSystem(
    inputs: VariableRange,
    states: VariableRange,
    nexts: VariableRange,
    aux: VariableRange,
    init: Cnf,
    trans: Cnf,
    error: Cnf)
  {
    // ----------------------------------------------------------------
    // Variables
    // ----------------------------------------------------------------

    ghost function Vars(): set<int> {
      inputs.Vars() + states.Vars() + nexts.Vars() + aux.Vars()
    }

    predicate DisjointRanges() {
      && inputs.Valid() && states.Valid() && nexts.Valid() && aux.Valid()
      && inputs.Vars() !! states.Vars() !! nexts.Vars() !! aux.Vars()
      && states.Size() == nexts.Size()
    }

    /** The kind of a variable and its position within its range. */
    function GetVarInfo(v: int): (info: (VarType, int))
      requires DisjointRanges() && v in Vars()
      ensures match info.0
              case InputVar => inputs.Contains(v) && info.1 == v - inputs.begin
              case StateVar => states.Contains(v) && info.1 == v - states.begin
              case NextStateVar => nexts.Contains(v) && info.1 == v - nexts.begin
              case AuxiliaryVar => aux.Contains(v) && info.1 == v - aux.begin
    {
      if inputs.Contains(v) then (InputVar, inputs.Offset(v))
      else if states.Contains(v) then (StateVar, states.Offset(v))
      else if nexts.Contains(v) then (NextStateVar, nexts.Offset(v))
      else (AuxiliaryVar, aux.Offset(v))
    }

    function PrimeVar(v: int): int {
      v - states.begin + nexts.begin
    }

    predicate IsStateCube(ls: seq<Literal>) {
      forall l :: l in ls ==> states.Contains(VarOf(l))
    }

    predicate IsNextStateCube(ls: seq<Literal>) {
      forall l :: l in ls ==> nexts.Contains(VarOf(l))
    }

    function Prime(l: Literal): (r: Literal)
      requires DisjointRanges() && states.Contains(VarOf(l))
      ensures VarOf(r) == PrimeVar(VarOf(l)) && nexts.Contains(VarOf(r))
      ensures r > 0 <==> l > 0
    {
      Substitute(l, nexts.Nth(states.Offset(VarOf(l))))
    }

    function Unprime(l: Literal): (r: Literal)
      requires DisjointRanges() && nexts.Contains(VarOf(l))
      ensures states.Contains(VarOf(r)) && Prime(r) == l
    {
      Substitute(l, states.Nth(nexts.Offset(VarOf(l))))
    }

    function PrimeAll(ls: seq<Literal>): (r: seq<Literal>)
      requires DisjointRanges() && IsStateCube(ls)
      ensures |r| == |ls| && IsNextStateCube(r)
      ensures forall i :: 0 <= i < |ls| ==> r[i] == Prime(ls[i])
      ensures forall l :: l in ls ==> Prime(l) in r
    {
      var r := seq(|ls|, i requires 0 <= i < |ls| => assert ls[i] in ls; Prime(ls[i]));
      assert forall l :: l in ls ==> Prime(l) in r by {
        forall l | l in ls
          ensures Prime(l) in r
        {
          var i :| 0 <= i < |ls| && ls[i] == l;
          assert r[i] == Prime(l);
        }
      }
      r
    }

    function UnprimeAll(ls: seq<Literal>): (r: seq<Literal>)
      requires DisjointRanges() && IsNextStateCube(ls)
      ensures |r| == |ls| && IsStateCube(r)
      ensures forall l :: states.Contains(VarOf(l)) ==> (l in r <==> Prime(l) in ls)
    {
      var r := seq(|ls|, i requires 0 <= i < |ls| => assert ls[i] in ls; Unprime(ls[i]));
      assert forall l :: states.Contains(VarOf(l)) ==> (l in r <==> Prime(l) in ls) by {
        forall l | states.Contains(VarOf(l))
          ensures l in r <==> Prime(l) in ls
        {
          if l in r {
            var i :| 0 <= i < |r| && r[i] == l;
            assert Prime(l) == ls[i];
          }
          if Prime(l) in ls {
            var i :| 0 <= i < |ls| && ls[i] == Prime(l);
            assert r[i] == l;
          }
        }
      }
      r
    }

    // ----------------------------------------------------------------
    // Meaning
    // ----------------------------------------------------------------

    predicate IsState(s: State) {
      forall v :: v in s ==> states.Contains(v)
    }

    predicate IsInput(y: Input) {
      forall v :: v in y ==> inputs.Contains(v)
    }

    predicate IsAux(w: set<int>) {
      forall v :: v in w ==> aux.Contains(v)
    }

    ghost predicate AreInputs(ys: seq<Input>) {
      forall i :: 0 <= i < |ys| ==> IsInput(ys[i])
    }

    ghost function PrimeState(t: State): set<int> {
      set v | v in t :: PrimeVar(v)
    }

    ghost function UnprimeState(a: Assignment): State {
      set v | v in states.Vars() && PrimeVar(v) in a
    }

    /** The assignment made of a state, an input, a next state and auxiliaries. */
    ghost function Join(s: State, y: Input, t: State, w: set<int>): Assignment {
      s + y + PrimeState(t) + w
    }

    ghost predicate Init(s: State) {
      Models(s, init)
    }

    ghost predicate Step(s: State, y: Input, t: State) {
      exists w :: IsAux(w) && Models(Join(s, y, t, w), trans)
    }

    ghost predicate Error(s: State, y: Input) {
      exists w :: IsAux(w) && Models(s + y + w, error)
    }

    /** Every state has exactly one successor under every input. */
    ghost predicate Functional() {
      && (forall s, y {:trigger HasSuccessor(s, y)} :: IsState(s) && IsInput(y) ==> HasSuccessor(s, y))
      && (forall s, y, t, u {:trigger Step(s, y, t), Step(s, y, u)} ::
            IsState(s) && IsInput(y) && IsState(t) && IsState(u) && Step(s, y, t) && Step(s, y, u) ==> t == u)
    }

    ghost predicate HasSuccessor(s: State, y: Input) {
      exists t :: IsState(t) && Step(s, y, t)
    }

    /** The initial formula consists of unit clauses over distinct state variables. */
    predicate InitIsCube() {
      && (forall c :: c in init ==> |c| == 1 && states.Contains(VarOf(c[0])))
      && (forall c, d :: c in init && d in init ==> c[0] != Not(d[0]))
    }

    ghost predicate WellFormed() {
      && DisjointRanges()
      && InitIsCube()
      && CnfOver(trans, Vars())
      && CnfOver(error, inputs.Vars() + states.Vars() + aux.Vars())
      && Functional()
    }

    ghost function Succ(s: State, y: Input): (t: State)
      requires WellFormed() && IsState(s) && IsInput(y)
      ensures IsState(t) && Step(s, y, t)
      ensures forall u :: IsState(u) && Step(s, y, u) ==> u == t
    {
      assert HasSuccessor(s, y);
      var t :| IsState(t) && Step(s, y, t);
      t
    }

    /** Reading the inputs one by one from state s, the last one shows an error. */
    ghost predicate Violates(s: State, ys: seq<Input>)
      requires WellFormed() && IsState(s) && AreInputs(ys)
      decreases |ys|
    {
      if ys == [] then false
      else if |ys| == 1 then Error(s, ys[0])
      else Violates(Succ(s, ys[0]), ys[1..])
    }

    ghost predicate Unsafe()
      requires WellFormed()
    {
      exists s, ys :: IsState(s) && AreInputs(ys) && Init(s) && Violates(s, ys)
    }

    /** Some run from an initial state ends in an error at its n-th input. */
    ghost predicate UnsafeIn(n: nat)
      requires WellFormed()
    {
      exists s, ys :: IsState(s) && AreInputs(ys) && Init(s) && |ys| == n && Violates(s, ys)
    }

    /** State s is reachable from an initial state in exactly k steps. */
    ghost predicate Reachable(k: nat, s: State)
      requires WellFormed()
    {
      if k == 0 then IsState(s) && Init(s)
      else exists p, y :: IsState(p) && IsInput(y) && Reachable(k - 1, p) && s == Succ(p, y)
    }

    /** A set of states that proves safety. */
    ghost predicate InductiveInvariant(inv: set<State>)
      requires WellFormed()
    {
      && (forall s :: s in inv ==> IsState(s))
      && (forall s :: IsState(s) && Init(s) ==> s in inv)
      && (forall s, y {:trigger Succ(s, y)} :: s in inv && IsState(s) && IsInput(y) ==> Succ(s, y) in inv)
      && (forall s, y {:trigger Error(s, y)} :: s in inv && IsInput(y) ==> !Error(s, y))
    }

    // ----------------------------------------------------------------
    // Lemmas
    // ----------------------------------------------------------------

    lemma {:induction false} InvariantHasNoViolation(inv: set<State>, s: State, ys: seq<Input>)
      requires WellFormed() && InductiveInvariant(inv) && s in inv && IsState(s) && AreInputs(ys)
      ensures !Violates(s, ys)
      decreases |ys|
    {
      if |ys| > 1 {
        InvariantHasNoViolation(inv, Succ(s, ys[0]), ys[1..]);
      }
    }

    /** An inductive invariant proves that no run from an initial state ends in an error. */
    lemma InvariantProvesSafety(inv: set<State>)
      requires WellFormed() && InductiveInvariant(inv)
      ensures !Unsafe()
    {
      forall s, ys | IsState(s) && AreInputs(ys) && Init(s)
        ensures !Violates(s, ys)
      {
        InvariantHasNoViolation(inv, s, ys);
      }
    }

    /** The parts of a joined assignment can be read back. */
    lemma JoinParts(s: State, y: Input, t: State, w: set<int>)
      requires DisjointRanges() && IsState(s) && IsInput(y) && IsState(t) && IsAux(w)
      ensures forall v :: states.Contains(v) ==> (v in Join(s, y, t, w) <==> v in s)
      ensures forall v :: states.Contains(v) ==> (PrimeVar(v) in Join(s, y, t, w) <==> v in t)
      ensures forall v :: inputs.Contains(v) ==> (v in Join(s, y, t, w) <==> v in y)
      ensures forall v :: aux.Contains(v) ==> (v in Join(s, y, t, w) <==> v in w)
      ensures Join(s, y, t, w) <= Vars()
    {
      assert forall v :: v in PrimeState(t) ==> v in nexts.Vars();
      assert forall v :: v in s ==> v in states.Vars();
      assert forall v :: v in y ==> v in inputs.Vars();
      assert forall v :: v in w ==> v in aux.Vars();
      forall v | states.Contains(v)
        ensures PrimeVar(v) in Join(s, y, t, w) <==> v in t
      {
        assert PrimeVar(v) in nexts.Vars();
        if PrimeVar(v) in PrimeState(t) {
          var u :| u in t && PrimeVar(u) == PrimeVar(v);
        }
      }
      forall v | states.Contains(v)
        ensures v in Join(s, y, t, w) <==> v in s
      {
        assert v in states.Vars();
      }
      forall v | inputs.Contains(v)
        ensures v in Join(s, y, t, w) <==> v in y
      {
        assert v in inputs.Vars();
      }
      forall v | aux.Contains(v)
        ensures v in Join(s, y, t, w) <==> v in w
      {
        assert v in aux.Vars();
      }
    }

    /** Any assignment agrees with the join of its own parts. */
    lemma SplitAssignment(a: Assignment)
      requires DisjointRanges()
      ensures IsState(a * states.Vars()) && IsInput(a * inputs.Vars())
      ensures IsState(UnprimeState(a)) && IsAux(a * aux.Vars())
      ensures Agree(a, Join(a * states.Vars(), a * inputs.Vars(), UnprimeState(a), a * aux.Vars()), Vars())
    {
      var s, y, t, w := a * states.Vars(), a * inputs.Vars(), UnprimeState(a), a * aux.Vars();
      JoinParts(s, y, t, w);
      forall v | v in Vars()
        ensures v in a <==> v in Join(s, y, t, w)
      {
        if nexts.Contains(v) {
          var u := v - nexts.begin + states.begin;
          assert states.Contains(u) && PrimeVar(u) == v;
        }
      }
    }

    /** A model of the transition formula is a step between the states it encodes. */
    lemma ModelOfTransIsStep(a: Assignment)
      requires WellFormed() && Models(a, trans)
      ensures IsState(a * states.Vars()) && IsInput(a * inputs.Vars())
      ensures UnprimeState(a) == Succ(a * states.Vars(), a * inputs.Vars())
    {
      var s, y, t, w := a * states.Vars(), a * inputs.Vars(), UnprimeState(a), a * aux.Vars();
      SplitAssignment(a);
      AgreeOnCnf(a, Join(s, y, t, w), Vars(), trans);
      assert Step(s, y, t);
    }

    /** A model of the error formula is an error of the state and input it encodes. */
    lemma ModelOfErrorIsError(a: Assignment)
      requires WellFormed() && Models(a, error)
      ensures Error(a * states.Vars(), a * inputs.Vars())
    {
      var s, y, w := a * states.Vars(), a * inputs.Vars(), a * aux.Vars();
      AgreeOnCnf(a, s + y + w, inputs.Vars() + states.Vars() + aux.Vars(), error);
    }

    /** A primed cube speaks about the next state as the cube does about the state. */
    lemma PrimedCubeMeaning(a: Assignment, ls: seq<Literal>)
      requires DisjointRanges() && IsStateCube(ls)
      ensures CubeTrue(a, PrimeAll(ls)) <==> CubeTrue(UnprimeState(a), ls)
    {
      var ps := PrimeAll(ls);
      forall l | l in ls
        ensures LitTrue(a, Prime(l)) <==> LitTrue(UnprimeState(a), l)
      {
        assert VarOf(l) in states.Vars();
      }
      if CubeTrue(UnprimeState(a), ls) {
        forall p | p in ps
          ensures LitTrue(a, p)
        {
          var i :| 0 <= i < |ps| && ps[i] == p;
          assert ls[i] in ls;
        }
      }
    }

    lemma StateCubeMeaning(a: Assignment, ls: seq<Literal>)
      requires IsStateCube(ls)
      ensures CubeTrue(a, ls) <==> CubeTrue(a * states.Vars(), ls)
    {
      AgreeOnCube(a, a * states.Vars(), states.Vars(), ls);
    }

    lemma InitMeaning(a: Assignment)
      requires InitIsCube()
      ensures Models(a, init) <==> Init(a * states.Vars())
    {
      AgreeOnCnf(a, a * states.Vars(), states.Vars(), init);
    }

    /** The literals of the initial cube. */
    function InitCube(): (c: Cube)
      requires InitIsCube()
      ensures forall l :: l in c.literals <==> [l] in init
    {
      var ls: seq<Literal> := seq(|init|, i requires 0 <= i < |init| => assert init[i] in init; init[i][0]);
      assert forall l :: l in ls <==> [l] in init by {
        forall l: Literal
          ensures l in ls <==> [l] in init
        {
          if l in ls {
            var i :| 0 <= i < |ls| && ls[i] == l;
            assert init[i] in init && init[i] == [l];
          }
          if [l] in init {
            var i :| 0 <= i < |init| && init[i] == [l];
            assert ls[i] == l;
          }
        }
      }
      MakeCube(ls)
    }

    lemma InitIsCubeMeaning(s: State)
      requires InitIsCube()
      ensures Init(s) <==> CubeTrue(s, InitCube().literals)
    {
      if Init(s) {
        forall l | l in InitCube().literals
          ensures LitTrue(s, l)
        {
          assert ClauseTrue(s, [l]);
          assert exists m :: m in [l] && LitTrue(s, m);
        }
      }
      if CubeTrue(s, InitCube().literals) {
        forall c | c in init
          ensures ClauseTrue(s, c)
        {
          assert c == [c[0]] && c[0] in InitCube().literals;
          assert c[0] in c;
        }
      }
    }
  }

  /** The state set of a literal vector: its positive variables. */
  function TrueVars(ls: seq<Literal>): (s: set<int>)
    ensures forall v :: v in s <==> v > 0 && v in ls
  {
    set l | l in ls && l > 0 :: l
  }

  lemma ConsistentCubeHolds(ls: seq<Literal>)
    requires Consistent(ls)
    ensures CubeTrue(TrueVars(ls), ls)
  {
    forall l | l in ls
      ensures LitTrue(TrueVars(ls), l)
    {
      assert Not(l) !in ls;
      if l < 0 {
        assert Not(l) == VarOf(l);
      }
    }
  }

  /** The literals that give every variable of a range its value in a. */
  function ValuationOf(a: Assignment, range: VariableRange): (ls: seq<Literal>)
    requires range.Valid()
    ensures |ls| == range.Size()
    ensures forall i :: 0 <= i < |ls| ==> VarOf(ls[i]) == range.Nth(i) && LitTrue(a, ls[i])
    ensures forall l :: l in ls <==> range.Contains(VarOf(l)) && LitTrue(a, l)
    ensures Consistent(ls)
  {
    var ls: seq<Literal> :=
      seq(range.Size(), i requires 0 <= i < range.Size() =>
        Substitute(if range.Nth(i) in a then 1 else -1, range.Nth(i)));
    assert forall l :: l in ls <==> range.Contains(VarOf(l)) && LitTrue(a, l) by {
      forall l | range.Contains(VarOf(l)) && LitTrue(a, l)
        ensures l in ls
      {
        assert ls[range.Offset(VarOf(l))] == l;
      }
    }
    ls
  }

  lemma ValuationMeaning(a: Assignment, range: VariableRange, b: Assignment)
    requires range.Valid()
    ensures CubeTrue(b, ValuationOf(a, range)) <==> b * range.Vars() == a * range.Vars()
    ensures TrueVars(ValuationOf(a, range)) == a * range.Vars()
  {
    var ls := ValuationOf(a, range);
    forall v | v in TrueVars(ls)
      ensures v in a * range.Vars()
    {
      var l: Literal := v;
      assert l in ls && VarOf(l) == v;
    }
    forall v | v in a * range.Vars()
      ensures v in TrueVars(ls)
    {
      var l: Literal := v;
      assert VarOf(l) == v && LitTrue(a, l);
    }
    if CubeTrue(b, ls) {
      forall v | range.Contains(v)
        ensures v in a <==> v in b
      {
        assert ls[range.Offset(v)] in ls;
      }
    }
    if b * range.Vars() == a * range.Vars() {
      forall l | l in ls
        ensures LitTrue(b, l)
      {
        assert VarOf(l) in range.Vars();
        assert VarOf(l) in a <==> VarOf(l) in a * range.Vars();
        assert VarOf(l) in b <==> VarOf(l) in b * range.Vars();
      }
    }
  }
}
