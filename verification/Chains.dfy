/**
 * Chains of cubes that lead to an error, as kept in the CTI pool of PDR and in
 * the cotrace of CAR, and the counterexamples read off them
 * (src/engine/base.hpp, src/engine/pdr.hpp, src/engine/pdr.cpp,
 * src/engine/car.hpp, src/engine/car.cpp).
 */
module Chains {
  import opened Logic
  import opened TransitionSystems

  datatype Option<T> = None | Some(value: T)

  datatype Result =
    | Ok
    | Unknown
    | Counterexample(initialState: seq<Literal>, inputs: seq<seq<Literal>>)

  datatype Entry = Entry(state: Cube, input: Cube, successor: Option<nat>)

  type Pool = seq<Entry>

  ghost function InputOf(e: Entry): Input {
    TrueVars(e.input.literals)
  }

  /** From every state of the entry's cube, its input leads on along the chain. */
  ghost predicate EntryOk(sys: TransitionSystem, pool: Pool, h: nat)
    requires sys.WellFormed() && h < |pool|
  {
    var e := pool[h];
    && sys.IsStateCube(e.state.literals) && Consistent(e.state.literals)
    && LitsOver(e.input.literals, sys.inputs.Vars()) && sys.IsInput(InputOf(e))
    && match e.successor
       case None => forall s :: sys.IsState(s) && CubeTrue(s, e.state.literals) ==> sys.Error(s, InputOf(e))
       case Some(n) =>
         && n < h
         && forall s {:trigger sys.Succ(s, InputOf(e))} :: sys.IsState(s) && CubeTrue(s, e.state.literals) ==>
              CubeTrue(sys.Succ(s, InputOf(e)), pool[n].state.literals)
  }

  ghost predicate PoolOk(sys: TransitionSystem, pool: Pool)
    requires sys.WellFormed()
  {
    forall h :: 0 <= h < |pool| ==> EntryOk(sys, pool, h)
  }

  lemma PoolExtends(sys: TransitionSystem, pool: Pool, e: Entry)
    requires sys.WellFormed() && PoolOk(sys, pool) && EntryOk(sys, pool + [e], |pool|)
    ensures PoolOk(sys, pool + [e])
  {
    forall h | 0 <= h < |pool| + 1
      ensures EntryOk(sys, pool + [e], h)
    {
      if h < |pool| {
        assert EntryOk(sys, pool, h);
        assert (pool + [e])[h] == pool[h];
      }
    }
  }

  /** The recorded inputs from a handle to the end of its chain. */
  ghost function InputsFrom(pool: Pool, h: nat): (ys: seq<Input>)
    requires h < |pool|
    requires forall k :: 0 <= k < |pool| && pool[k].successor.Some? ==> pool[k].successor.value < k
    ensures |ys| >= 1
  {
    [InputOf(pool[h])] +
    (match pool[h].successor
     case None => []
     case Some(n) => InputsFrom(pool, n))
  }

  ghost predicate SuccessorsDecrease(pool: Pool) {
    forall k :: 0 <= k < |pool| && pool[k].successor.Some? ==> pool[k].successor.value < k
  }

  lemma PoolSuccessorsDecrease(sys: TransitionSystem, pool: Pool)
    requires sys.WellFormed() && PoolOk(sys, pool)
    ensures SuccessorsDecrease(pool)
  {
    forall k | 0 <= k < |pool| && pool[k].successor.Some?
      ensures pool[k].successor.value < k
    {
      assert EntryOk(sys, pool, k);
    }
  }

  /** Every state of a pooled cube runs into an error under the recorded inputs. */
  lemma {:induction false} ChainViolates(sys: TransitionSystem, pool: Pool, h: nat, s: State)
    requires sys.WellFormed() && PoolOk(sys, pool) && SuccessorsDecrease(pool)
    requires h < |pool| && sys.IsState(s) && CubeTrue(s, pool[h].state.literals)
    ensures sys.AreInputs(InputsFrom(pool, h)) && sys.Violates(s, InputsFrom(pool, h))
    decreases h
  {
    assert EntryOk(sys, pool, h);
    var ys := InputsFrom(pool, h);
    var y := InputOf(pool[h]);
    match pool[h].successor {
      case None =>
        assert ys == [y];
      case Some(n) =>
        ChainViolates(sys, pool, n, sys.Succ(s, y));
        assert ys[1..] == InputsFrom(pool, n);
        forall i | 0 <= i < |ys|
          ensures sys.IsInput(ys[i])
        {
          if i > 0 {
            assert ys[i] == ys[1..][i - 1];
          }
        }
    }
  }

  // ------------------------------------------------------------------
  // Reading off a counterexample
  // ------------------------------------------------------------------

  function Find(c: Cube, v: int): (r: Option<Literal>)
    requires v > 0
    ensures match r
            case Some(l) => l in c.literals && VarOf(l) == v && (l > 0 <==> v in c.literals)
            case None => forall l :: l in c.literals ==> VarOf(l) != v
  {
    var l: Literal := v;
    if l in c.literals then Some(l)
    else if Not(l) in c.literals then Some(Not(l))
    else
      assert forall m: Literal :: VarOf(m) == v ==> m == l || m == Not(l);
      None
  }

  /** One literal for each variable of a range, in order. */
  ghost predicate RowOver(range: VariableRange, row: seq<Literal>) {
    |row| == range.Size() && forall i :: 0 <= i < |row| ==> VarOf(row[i]) == range.Nth(i)
  }

  /** Gives every variable of a range its sign in the cube, and false if it is missing. */
  method Complete(range: VariableRange, c: Cube) returns (row: seq<Literal>)
    requires range.Valid()
    ensures RowOver(range, row)
    ensures TrueVars(row) == TrueVars(c.literals) * range.Vars()
  {
    row := [];
    for i := 0 to range.Size()
      invariant |row| == i
      invariant forall k :: 0 <= k < i ==> VarOf(row[k]) == range.Nth(k)
      invariant forall k :: 0 <= k < i ==> (row[k] > 0 <==> range.Nth(k) in c.literals)
    {
      var v := range.Nth(i);
      var l := Find(c, v);
      row := row + [if l.Some? then l.value else Substitute(-1, v)];
    }
    forall v | v in TrueVars(c.literals) * range.Vars()
      ensures v in TrueVars(row)
    {
      assert row[range.Offset(v)] == v;
    }
    forall v | v in TrueVars(row)
      ensures v in TrueVars(c.literals) * range.Vars()
    {
      var k :| 0 <= k < |row| && row[k] == v;
      assert VarOf(row[k]) == v;
    }
  }

  /** The counterexample's start state and inputs, as sets of true variables. */
  ghost function StartOf(cex: Result): State
    requires cex.Counterexample?
  {
    TrueVars(cex.initialState)
  }

  ghost predicate RowsOver(range: VariableRange, rows: seq<seq<Literal>>) {
    forall i :: 0 <= i < |rows| ==> RowOver(range, rows[i])
  }

  ghost function RowInputs(rows: seq<seq<Literal>>): (ys: seq<Input>)
    ensures |ys| == |rows|
    ensures forall i :: 0 <= i < |rows| ==> ys[i] == TrueVars(rows[i])
  {
    seq(|rows|, i requires 0 <= i < |rows| => TrueVars(rows[i]))
  }

  ghost function RunOf(cex: Result): (ys: seq<Input>)
    requires cex.Counterexample?
  {
    RowInputs(cex.inputs)
  }

  /**
   * The counterexample has a value for every variable, and its inputs lead
   * from its start state to an error.
   */
  ghost predicate GenuineRun(sys: TransitionSystem, cex: Result)
    requires sys.WellFormed()
  {
    && cex.Counterexample?
    && RowOver(sys.states, cex.initialState) && RowsOver(sys.inputs, cex.inputs)
    && sys.IsState(StartOf(cex)) && sys.AreInputs(RunOf(cex))
    && sys.Violates(StartOf(cex), RunOf(cex))
  }

  /** The inputs of the chain that starts at an optional handle. */
  ghost function InputsFromOption(pool: Pool, entry: Option<nat>): seq<Input>
    requires SuccessorsDecrease(pool) && (entry.Some? ==> entry.value < |pool|)
  {
    if entry.Some? then InputsFrom(pool, entry.value) else []
  }

  lemma OneMoreRow(pool: Pool, initial: nat, rows: seq<seq<Literal>>, h: nat, row: seq<Literal>)
    requires SuccessorsDecrease(pool) && initial < |pool| && h < |pool|
    requires InputsFrom(pool, initial) == RowInputs(rows) + InputsFrom(pool, h)
    requires TrueVars(row) == InputOf(pool[h])
    ensures InputsFrom(pool, initial) == RowInputs(rows + [row]) + InputsFromOption(pool, pool[h].successor)
  {
    hide InputsFrom, InputOf, TrueVars, InputsFromOption;
    ChainUnfolds(pool, h);
    RowsAppend(rows, row);
    var (done, here, rest) := (RowInputs(rows), InputOf(pool[h]), InputsFromOption(pool, pool[h].successor));
    assert done + ([here] + rest) == (done + [here]) + rest;
  }

  lemma ChainUnfolds(pool: Pool, h: nat)
    requires SuccessorsDecrease(pool) && h < |pool|
    ensures InputsFrom(pool, h) == [InputOf(pool[h])] + InputsFromOption(pool, pool[h].successor)
  {
  }

  lemma RowsAppend(rows: seq<seq<Literal>>, row: seq<Literal>)
    ensures RowInputs(rows + [row]) == RowInputs(rows) + [TrueVars(row)]
  {
  }

  /** Follows the successor handles and completes the inputs on the way. */
  method ReadInputs(sys: TransitionSystem, pool: Pool, initial: nat) returns (rows: seq<seq<Literal>>)
    requires sys.WellFormed() && PoolOk(sys, pool) && SuccessorsDecrease(pool) && initial < |pool|
    ensures RowInputs(rows) == InputsFrom(pool, initial)
    ensures RowsOver(sys.inputs, rows)
  {
    hide RowOver, PoolOk, TransitionSystem.WellFormed, InputOf, TrueVars, InputsFrom, RowInputs;
    rows := [];
    var entry := Some(initial);
    while entry.Some?
      invariant entry.Some? ==> 0 <= entry.value < |pool|
      invariant InputsFrom(pool, initial) == RowInputs(rows) + InputsFromOption(pool, entry)
      invariant RowsOver(sys.inputs, rows)
      decreases if entry.Some? then entry.value + 1 else 0
    {
      var e := pool[entry.value];
      InputsAreValid(sys);
      var row := Complete(sys.inputs, e.input);
      CompletedInput(sys, pool, entry.value);
      OneMoreRow(pool, initial, rows, entry.value, row);
      rows := rows + [row];
      entry := e.successor;
    }
  }

  lemma InputsAreValid(sys: TransitionSystem)
    requires sys.WellFormed()
    ensures sys.inputs.Valid()
  {
  }

  lemma CompletedInput(sys: TransitionSystem, pool: Pool, h: nat)
    requires sys.WellFormed() && PoolOk(sys, pool) && h < |pool|
    ensures TrueVars(pool[h].input.literals) * sys.inputs.Vars() == InputOf(pool[h])
    ensures InputOf(pool[h]) == TrueVars(pool[h].input.literals)
    ensures pool[h].successor.Some? ==> 0 <= pool[h].successor.value < h
  {
    assert EntryOk(sys, pool, h);
    forall v | v in InputOf(pool[h])
      ensures v in sys.inputs.Vars()
    {
      assert sys.inputs.Contains(v);
    }
  }

  /** The counterexample starts in the completion of the handle's cube and has the inputs of its chain. */
  ghost predicate ReadOff(sys: TransitionSystem, pool: Pool, h: nat, cex: Result)
    requires sys.WellFormed() && h < |pool|
  {
    && GenuineRun(sys, cex)
    && StartOf(cex) == TrueVars(pool[h].state.literals)
    && SuccessorsDecrease(pool) && RunOf(cex) == InputsFrom(pool, h)
  }

  method BuildCounterexample(sys: TransitionSystem, pool: Pool, initial: nat) returns (cex: Result)
    requires sys.WellFormed() && PoolOk(sys, pool) && initial < |pool|
    ensures cex.Counterexample? && ReadOff(sys, pool, initial, cex)
  {
    PoolSuccessorsDecrease(sys, pool);
    var initialState := Complete(sys.states, pool[initial].state);
    var inputs := ReadInputs(sys, pool, initial);
    cex := Counterexample(initialState, inputs);
    assert EntryOk(sys, pool, initial);
    CubeOfState(sys, pool[initial].state.literals);
    ChainViolates(sys, pool, initial, StartOf(cex));
  }

  lemma CubeOfState(sys: TransitionSystem, ls: seq<Literal>)
    requires sys.IsStateCube(ls) && Consistent(ls)
    ensures sys.IsState(TrueVars(ls)) && CubeTrue(TrueVars(ls), ls)
    ensures TrueVars(ls) * sys.states.Vars() == TrueVars(ls)
  {
    ConsistentCubeHolds(ls);
    forall v | v in TrueVars(ls)
      ensures sys.states.Contains(v)
    {
      var l: Literal := v;
      assert VarOf(l) == v;
    }
  }

  // ------------------------------------------------------------------
  // Where a counterexample starts
  // ------------------------------------------------------------------

  /** The cube contains an initial state. */
  ghost predicate MeetsInit(sys: TransitionSystem, ls: seq<Literal>) {
    exists s :: sys.IsState(s) && sys.Init(s) && CubeTrue(s, ls)
  }

  /** Every variable that is initially true occurs in the cube. */
  ghost predicate FixesResetOnes(sys: TransitionSystem, ls: seq<Literal>) {
    forall l :: [l] in sys.init && l > 0 ==> l in ls
  }

  /** Latches start at 0 or uninitialised only. */
  predicate NoResetOnes(sys: TransitionSystem) {
    forall c, l :: c in sys.init && l in c ==> l < 0
  }

  /**
   * Completing a cube that contains an initial state with false gives an
   * initial state exactly if the cube mentions every variable that is
   * initially true.
   */
  lemma CompletionIsInitial(sys: TransitionSystem, ls: seq<Literal>)
    requires sys.WellFormed() && MeetsInit(sys, ls)
    ensures sys.Init(TrueVars(ls)) <==> FixesResetOnes(sys, ls)
    ensures NoResetOnes(sys) ==> FixesResetOnes(sys, ls)
  {
    var s :| sys.IsState(s) && sys.Init(s) && CubeTrue(s, ls);
    sys.InitIsCubeMeaning(s);
    sys.InitIsCubeMeaning(TrueVars(ls));
    var init := sys.InitCube().literals;
    forall v | v in TrueVars(ls)
      ensures v in s
    {
      var l: Literal := v;
      assert LitTrue(s, l);
    }
    if FixesResetOnes(sys, ls) {
      forall l | l in init
        ensures LitTrue(TrueVars(ls), l)
      {
        assert LitTrue(s, l);
      }
    }
    if sys.Init(TrueVars(ls)) {
      forall l | [l] in sys.init && l > 0
        ensures l in ls
      {
        assert l in init;
        assert LitTrue(TrueVars(ls), l);
      }
    }
    if NoResetOnes(sys) {
      forall l | [l] in sys.init && l > 0
        ensures l in ls
      {
        assert l in [l];
      }
    }
  }

  /** The variables that are initially true. */
  ghost function ResetOnes(sys: TransitionSystem): (s: State)
    requires sys.InitIsCube()
    ensures forall v: Literal :: v in s <==> v > 0 && [v] in sys.init
    ensures forall v :: v in s ==> v > 0
  {
    var s: set<int> := set c | c in sys.init && c[0] > 0 :: c[0];
    assert forall c :: c in sys.init ==> c == [c[0]];
    assert forall v: Literal :: [v] in sys.init ==> [v][0] == v;
    s
  }

  /**
   * Setting the variables that start at one in the completion of a cube that
   * contains an initial state gives an initial state of the cube.
   */
  lemma ResetsGiveInitial(sys: TransitionSystem, ls: seq<Literal>)
    requires sys.WellFormed() && sys.IsStateCube(ls) && Consistent(ls) && MeetsInit(sys, ls)
    ensures var s := TrueVars(ls) + ResetOnes(sys);
            sys.IsState(s) && sys.Init(s) && CubeTrue(s, ls)
  {
    var p :| sys.IsState(p) && sys.Init(p) && CubeTrue(p, ls);
    var s := TrueVars(ls) + ResetOnes(sys);
    sys.InitIsCubeMeaning(p);
    sys.InitIsCubeMeaning(s);
    CubeOfState(sys, ls);
    forall v | v in ResetOnes(sys)
      ensures sys.states.Contains(v) && v in p
    {
      var l: Literal := v;
      assert [l] in sys.init && [l][0] == l && VarOf(l) == v;
      assert LitTrue(p, l);
    }
    forall v | v in TrueVars(ls)
      ensures v in p
    {
      var l: Literal := v;
      assert LitTrue(p, l);
    }
    assert s <= p;
    forall l | l in ls
      ensures LitTrue(s, l)
    {
      assert LitTrue(p, l);
    }
    forall l | l in sys.InitCube().literals
      ensures LitTrue(s, l)
    {
      assert LitTrue(p, l) && [l] in sys.init;
    }
  }
}
