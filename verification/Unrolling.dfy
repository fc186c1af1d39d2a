/**
 * Transition formulas over versioned copies of the variables, as bounded model
 * checking unrolls them (src/engine/bmc.hpp, src/engine/bmc.cpp).
 */
module Unrolling {
  import opened Logic
  import opened TransitionSystems

  /** Version i of the state, input and auxiliary variables; version 0 are the variables themselves. */
  datatype Versions = Versions(
    states: seq<VariableRange>,
    inputs: seq<VariableRange>,
    aux: seq<VariableRange>)

  function Shift(v: int, from: VariableRange, to: VariableRange): int {
    v - from.begin + to.begin
  }

  /** Some copy of a variable is a variable of version i. */
  predicate Owns(vs: Versions, i: int, v: int)
    requires 0 <= i < |vs.states| == |vs.inputs| == |vs.aux|
  {
    vs.states[i].Contains(v) || vs.inputs[i].Contains(v) || vs.aux[i].Contains(v)
  }

  /** The three ranges have the right sizes and do not overlap. */
  predicate VersionOk(sys: TransitionSystem, s: VariableRange, y: VariableRange, w: VariableRange) {
    && s.Valid() && y.Valid() && w.Valid()
    && s.Size() == sys.states.Size() && y.Size() == sys.inputs.Size() && w.Size() == sys.aux.Size()
    && (s.end <= y.begin || y.end <= s.begin || s.Size() == 0 || y.Size() == 0)
    && (s.end <= w.begin || w.end <= s.begin || s.Size() == 0 || w.Size() == 0)
    && (y.end <= w.begin || w.end <= y.begin || y.Size() == 0 || w.Size() == 0)
  }

  /** No variable belongs to two versions, and all lie below the bound. */
  ghost predicate Apart(sys: TransitionSystem, vs: Versions, bound: int) {
    && |vs.states| == |vs.inputs| == |vs.aux| > 0
    && vs.states[0] == sys.states && vs.inputs[0] == sys.inputs && vs.aux[0] == sys.aux
    && (forall i :: 0 <= i < |vs.states| ==> VersionOk(sys, vs.states[i], vs.inputs[i], vs.aux[i]))
    && (forall i, v :: 0 <= i < |vs.states| && Owns(vs, i, v) ==> v < bound)
    && (forall i, j, v :: 0 <= i < j < |vs.states| && Owns(vs, i, v) ==> !Owns(vs, j, v))
  }

  lemma FirstVersion(sys: TransitionSystem, bound: int)
    requires sys.DisjointRanges() && forall v :: v in sys.Vars() ==> v < bound
    ensures Apart(sys, Versions([sys.states], [sys.inputs], [sys.aux]), bound)
  {
    RangesDoNotOverlap(sys.states, sys.inputs);
    RangesDoNotOverlap(sys.states, sys.aux);
    RangesDoNotOverlap(sys.inputs, sys.aux);
    var vs := Versions([sys.states], [sys.inputs], [sys.aux]);
    forall v | Owns(vs, 0, v)
      ensures v < bound
    {
      assert v in sys.Vars();
    }
  }

  lemma RangesDoNotOverlap(r: VariableRange, q: VariableRange)
    requires r.Valid() && q.Valid() && r.Vars() !! q.Vars()
    ensures r.end <= q.begin || q.end <= r.begin || r.Size() == 0 || q.Size() == 0
  {
    var m := if r.begin < q.begin then q.begin else r.begin;
    assert m in r.Vars() ==> m !in q.Vars();
  }

  /** A version made of variables that were handed out later stays apart from the earlier ones. */
  lemma NextVersion(
    sys: TransitionSystem, vs: Versions, bound: int,
    s: VariableRange, y: VariableRange, w: VariableRange, bound': int)
    requires Apart(sys, vs, bound) && VersionOk(sys, s, y, w)
    requires bound <= s.begin && bound <= y.begin && bound <= w.begin
    requires s.end <= bound' && y.end <= bound' && w.end <= bound'
    ensures bound <= bound' ==> Apart(sys, Versions(vs.states + [s], vs.inputs + [y], vs.aux + [w]), bound')
  {
    var vs' := Versions(vs.states + [s], vs.inputs + [y], vs.aux + [w]);
    var n := |vs.states|;
    forall i, v | 0 <= i < n
      ensures Owns(vs', i, v) <==> Owns(vs, i, v)
    {
    }
    forall v | Owns(vs', n, v)
      ensures bound <= v < bound'
    {
    }
  }

  // ------------------------------------------------------------------
  // Reading versions back
  // ------------------------------------------------------------------

  /** The original variables whose copies are true. */
  ghost function Pull(from: VariableRange, to: VariableRange, a: Assignment): (s: set<int>)
    requires from.Valid()
    ensures forall v :: v in s <==> from.Contains(v) && Shift(v, from, to) in a
  {
    set v | v in from.Vars() && Shift(v, from, to) in a
  }

  /** The copies of the true original variables. */
  ghost function Push(from: VariableRange, to: VariableRange, s: set<int>): (a: set<int>)
    requires to.Valid()
    ensures forall v :: v in a <==> to.Contains(v) && Shift(v, to, from) in s
  {
    set v | v in to.Vars() && Shift(v, to, from) in s
  }

  ghost function StateAt(sys: TransitionSystem, vs: Versions, i: nat, a: Assignment): (s: State)
    requires sys.DisjointRanges() && i < |vs.states|
    ensures sys.IsState(s)
  {
    Pull(sys.states, vs.states[i], a)
  }

  ghost function InputAt(sys: TransitionSystem, vs: Versions, i: nat, a: Assignment): (y: Input)
    requires sys.DisjointRanges() && i < |vs.inputs|
    ensures sys.IsInput(y)
  {
    Pull(sys.inputs, vs.inputs[i], a)
  }

  ghost function AuxAt(sys: TransitionSystem, vs: Versions, i: nat, a: Assignment): (w: set<int>)
    requires sys.DisjointRanges() && i < |vs.aux|
    ensures sys.IsAux(w)
  {
    Pull(sys.aux, vs.aux[i], a)
  }

  // ------------------------------------------------------------------
  // Versioned formulas
  // ------------------------------------------------------------------

  /** The ranges that replace inputs, states, next states and auxiliary variables. */
  datatype Renaming = Renaming(ins: VariableRange, here: VariableRange, there: VariableRange, aux: VariableRange)
  {
    predicate Fits(sys: TransitionSystem) {
      && sys.DisjointRanges()
      && ins.Valid() && here.Valid() && there.Valid() && aux.Valid()
      && ins.Size() == sys.inputs.Size() && here.Size() == there.Size() == sys.states.Size()
      && aux.Size() == sys.aux.Size()
    }

    function Lit(sys: TransitionSystem, l: Literal): (r: Literal)
      requires Fits(sys) && VarOf(l) in sys.Vars()
      ensures r > 0 <==> l > 0
    {
      var (kind, pos) := sys.GetVarInfo(VarOf(l));
      match kind
      case InputVar => Substitute(l, ins.Nth(pos))
      case StateVar => Substitute(l, here.Nth(pos))
      case NextStateVar => Substitute(l, there.Nth(pos))
      case AuxiliaryVar => Substitute(l, aux.Nth(pos))
    }

    /** The assignment of the original variables that an assignment of the copies stands for. */
    ghost function View(sys: TransitionSystem, a: Assignment): Assignment
      requires Fits(sys)
    {
      sys.Join(Pull(sys.states, here, a), Pull(sys.inputs, ins, a), Pull(sys.states, there, a), Pull(sys.aux, aux, a))
    }

    lemma LitMeaning(sys: TransitionSystem, l: Literal, a: Assignment)
      requires Fits(sys) && VarOf(l) in sys.Vars()
      ensures LitTrue(a, Lit(sys, l)) <==> LitTrue(View(sys, a), l)
    {
      sys.JoinParts(Pull(sys.states, here, a), Pull(sys.inputs, ins, a), Pull(sys.states, there, a), Pull(sys.aux,
        aux, a));
      var v := VarOf(l);
      if sys.nexts.Contains(v) {
        var u := v - sys.nexts.begin + sys.states.begin;
        assert sys.states.Contains(u) && sys.PrimeVar(u) == v;
      }
    }

    function MapClause(sys: TransitionSystem, c: Clause): (r: Clause)
      requires Fits(sys) && LitsOver(c, sys.Vars())
      ensures |r| == |c|
      ensures forall i :: 0 <= i < |c| ==> c[i] in c && r[i] == Lit(sys, c[i])
    {
      seq(|c|, i requires 0 <= i < |c| => assert c[i] in c; Lit(sys, c[i]))
    }

    function Map(sys: TransitionSystem, f: Cnf): (r: Cnf)
      requires Fits(sys) && CnfOver(f, sys.Vars())
      ensures |r| == |f|
      ensures forall i :: 0 <= i < |f| ==> f[i] in f && r[i] == MapClause(sys, f[i])
    {
      seq(|f|, i requires 0 <= i < |f| => assert f[i] in f; MapClause(sys, f[i]))
    }

    lemma ClauseMeaning(sys: TransitionSystem, c: Clause, a: Assignment)
      requires Fits(sys) && LitsOver(c, sys.Vars())
      ensures ClauseTrue(a, MapClause(sys, c)) <==> ClauseTrue(View(sys, a), c)
    {
      var r := MapClause(sys, c);
      forall i | 0 <= i < |c|
        ensures LitTrue(a, r[i]) <==> LitTrue(View(sys, a), c[i])
      {
        assert c[i] in c;
        LitMeaning(sys, c[i], a);
      }
      if ClauseTrue(View(sys, a), c) {
        var l :| l in c && LitTrue(View(sys, a), l);
        var i :| 0 <= i < |c| && c[i] == l;
        assert r[i] in r;
      }
    }

    /** A renamed formula holds exactly if the formula holds of what the copies stand for. */
    lemma MapMeaning(sys: TransitionSystem, f: Cnf, a: Assignment)
      requires Fits(sys) && CnfOver(f, sys.Vars())
      ensures Models(a, Map(sys, f)) <==> Models(View(sys, a), f)
    {
      hide Renaming.Fits, Renaming.View, Renaming.MapClause, ClauseTrue;
      var r := Map(sys, f);
      forall i | 0 <= i < |f|
        ensures ClauseTrue(a, r[i]) <==> ClauseTrue(View(sys, a), f[i])
      {
        assert f[i] in f;
        ClauseMeaning(sys, f[i], a);
      }
      if Models(View(sys, a), f) {
        forall c | c in r
          ensures ClauseTrue(a, c)
        {
          var i :| 0 <= i < |r| && r[i] == c;
          assert f[i] in f;
        }
      }
      if Models(a, r) {
        forall c | c in f
          ensures ClauseTrue(View(sys, a), c)
        {
          var i :| 0 <= i < |f| && f[i] == c;
          assert r[i] in r;
        }
      }
    }
  }

  lemma VersionFits(sys: TransitionSystem, vs: Versions, bound: int, i: nat)
    requires sys.DisjointRanges() && Apart(sys, vs, bound) && i < |vs.states|
    ensures StepRenaming(vs, i).Fits(sys)
  {
    assert VersionOk(sys, vs.states[i], vs.inputs[i], vs.aux[i]);
    if i + 1 < |vs.states| {
      assert VersionOk(sys, vs.states[i + 1], vs.inputs[i + 1], vs.aux[i + 1]);
    }
  }

  /** Step i reads version i and writes the states of version i + 1; an error reads version i only. */
  function StepRenaming(vs: Versions, i: nat): Renaming
    requires i < |vs.states| == |vs.inputs| == |vs.aux|
  {
    Renaming(vs.inputs[i], vs.states[i], if i + 1 < |vs.states| then vs.states[i + 1] else vs.states[i], vs.aux[i])
  }

  // ------------------------------------------------------------------
  // Assignments as runs
  // ------------------------------------------------------------------

  /** The assignment takes a step from version i to version i + 1. */
  ghost predicate TransHolds(sys: TransitionSystem, vs: Versions, i: nat, a: Assignment)
    requires sys.DisjointRanges() && i + 1 < |vs.states| == |vs.inputs| == |vs.aux|
  {
    Models(
      sys.Join(StateAt(sys, vs, i, a), InputAt(sys, vs, i, a), StateAt(sys, vs, i + 1, a), AuxAt(sys, vs, i, a)),
      sys.trans)
  }

  /** The assignment shows an error in version i. */
  ghost predicate ErrorHolds(sys: TransitionSystem, vs: Versions, i: nat, a: Assignment)
    requires sys.DisjointRanges() && i < |vs.states| == |vs.inputs| == |vs.aux|
  {
    Models(StateAt(sys, vs, i, a) + InputAt(sys, vs, i, a) + AuxAt(sys, vs, i, a), sys.error)
  }

  lemma MappedTrans(sys: TransitionSystem, vs: Versions, bound: int, i: nat, a: Assignment)
    requires sys.WellFormed() && Apart(sys, vs, bound) && i + 1 < |vs.states|
    ensures StepRenaming(vs, i).Fits(sys)
    ensures Models(a, StepRenaming(vs, i).Map(sys, sys.trans)) <==> TransHolds(sys, vs, i, a)
  {
    VersionFits(sys, vs, bound, i);
    StepRenaming(vs, i).MapMeaning(sys, sys.trans, a);
  }

  lemma MappedError(sys: TransitionSystem, vs: Versions, bound: int, i: nat, a: Assignment)
    requires sys.WellFormed() && Apart(sys, vs, bound) && i < |vs.states|
    ensures StepRenaming(vs, i).Fits(sys) && CnfOver(sys.error, sys.Vars())
    ensures Models(a, StepRenaming(vs, i).Map(sys, sys.error)) <==> ErrorHolds(sys, vs, i, a)
  {
    VersionFits(sys, vs, bound, i);
    var r := StepRenaming(vs, i);
    ErrorIsOverAll(sys);
    r.MapMeaning(sys, sys.error, a);
    var s, y, t, w := StateAt(sys, vs, i, a), InputAt(sys, vs, i, a), Pull(sys.states, r.there, a), AuxAt(sys, vs, i,
      a);
    sys.JoinParts(s, y, t, w);
    sys.JoinParts(s, y, {}, w);
    assert sys.Join(s, y, {}, w) == s + y + w;
    AgreeOnCnf(r.View(sys, a), s + y + w, sys.inputs.Vars() + sys.states.Vars() + sys.aux.Vars(), sys.error);
  }

  lemma ErrorIsOverAll(sys: TransitionSystem)
    requires sys.WellFormed()
    ensures CnfOver(sys.error, sys.Vars())
  {
  }

  /** The inputs of the versions first to last. */
  ghost function InputsBetween(sys: TransitionSystem, vs: Versions, first: nat, last: nat,
    a: Assignment): (ys: seq<Input>)
    requires sys.DisjointRanges() && first <= last < |vs.inputs|
    ensures sys.AreInputs(ys) && |ys| == last - first + 1
    ensures forall i :: 0 <= i < |ys| ==> ys[i] == InputAt(sys, vs, first + i, a)
    decreases last - first
  {
    [InputAt(sys, vs, first, a)] + if first == last then [] else InputsBetween(sys, vs, first + 1, last, a)
  }

  lemma Lengths(sys: TransitionSystem, vs: Versions, bound: int)
    requires sys.WellFormed() && Apart(sys, vs, bound)
    ensures sys.DisjointRanges() && |vs.states| == |vs.inputs| == |vs.aux| > 0
    ensures forall i :: 0 <= i < |vs.states| ==> VersionOk(sys, vs.states[i], vs.inputs[i], vs.aux[i])
    ensures CnfOver(sys.trans, sys.Vars())
  {
  }

  lemma {:induction false} ModelViolates(
    sys: TransitionSystem, vs: Versions, bound: int, first: nat, last: nat, a: Assignment)
    requires sys.WellFormed() && Apart(sys, vs, bound) && first <= last < |vs.states|
    requires forall i :: first <= i < last ==> TransHolds(sys, vs, i, a)
    requires ErrorHolds(sys, vs, last, a)
    ensures sys.Violates(StateAt(sys, vs, first, a), InputsBetween(sys, vs, first, last, a))
    decreases last - first
  {
    hide TransitionSystem.WellFormed, Apart, Models, StateAt, InputAt, AuxAt, TransitionSystem.Join;
    Lengths(sys, vs, bound);
    var s, y, w := StateAt(sys, vs, first, a), InputAt(sys, vs, first, a), AuxAt(sys, vs, first, a);
    var ys := InputsBetween(sys, vs, first, last, a);
    if first == last {
      assert ys == [y];
      assert sys.Error(s, y);
    } else {
      assert TransHolds(sys, vs, first, a);
      var t := StateAt(sys, vs, first + 1, a);
      assert sys.Step(s, y, t);
      ModelViolates(sys, vs, bound, first + 1, last, a);
      assert ys[1..] == InputsBetween(sys, vs, first + 1, last, a);
    }
  }

  /** A state, an input and auxiliaries written into the variables of version i. */
  ghost function Written(sys: TransitionSystem, vs: Versions, i: nat, s: State, y: Input, w: set<int>): set<int>
    requires i < |vs.states| == |vs.inputs| == |vs.aux|
    requires VersionOk(sys, vs.states[i], vs.inputs[i], vs.aux[i])
  {
    Push(sys.states, vs.states[i], s) + Push(sys.inputs, vs.inputs[i], y) + Push(sys.aux, vs.aux[i], w)
  }

  /** What one range of the version holds is read back from it. */
  lemma ReadRange(from: VariableRange, copy: VariableRange, s: set<int>, a: Assignment)
    requires from.Valid() && copy.Valid() && from.Size() == copy.Size()
    requires forall v :: v in s ==> from.Contains(v)
    requires forall c :: copy.Contains(c) ==> (c in a <==> c in Push(from, copy, s))
    ensures Pull(from, copy, a) == s
  {
    forall v
      ensures v in Pull(from, copy, a) <==> v in s
    {
      if from.Contains(v) {
        var c := Shift(v, from, copy);
        assert copy.Contains(c) && Shift(c, copy, from) == v;
        assert c in a <==> c in Push(from, copy, s);
      }
    }
  }

  lemma PushStaysInside(from: VariableRange, copy: VariableRange, s: set<int>, c: int)
    requires copy.Valid() && !copy.Contains(c)
    ensures c !in Push(from, copy, s)
  {
  }

  /** An assignment that agrees with what was written reads it back. */
  lemma ReadWritten(
    sys: TransitionSystem, vs: Versions, i: nat, s: State, y: Input, w: set<int>, a: Assignment)
    requires sys.DisjointRanges() && i < |vs.states| == |vs.inputs| == |vs.aux|
    requires VersionOk(sys, vs.states[i], vs.inputs[i], vs.aux[i])
    requires sys.IsState(s) && sys.IsInput(y) && sys.IsAux(w)
    requires forall v :: Owns(vs, i, v) ==> (v in a <==> v in Written(sys, vs, i, s, y, w))
    ensures StateAt(sys, vs, i, a) == s && InputAt(sys, vs, i, a) == y && AuxAt(sys, vs, i, a) == w
  {
    var (rs, ry, rw) := (vs.states[i], vs.inputs[i], vs.aux[i]);
    forall c | rs.Contains(c)
      ensures c in a <==> c in Push(sys.states, rs, s)
    {
      assert Owns(vs, i, c);
      PushStaysInside(sys.inputs, ry, y, c);
      PushStaysInside(sys.aux, rw, w, c);
    }
    forall c | ry.Contains(c)
      ensures c in a <==> c in Push(sys.inputs, ry, y)
    {
      assert Owns(vs, i, c);
      PushStaysInside(sys.states, rs, s, c);
      PushStaysInside(sys.aux, rw, w, c);
    }
    forall c | rw.Contains(c)
      ensures c in a <==> c in Push(sys.aux, rw, w)
    {
      assert Owns(vs, i, c);
      PushStaysInside(sys.states, rs, s, c);
      PushStaysInside(sys.inputs, ry, y, c);
    }
    ReadRange(sys.states, rs, s, a);
    ReadRange(sys.inputs, ry, y, a);
    ReadRange(sys.aux, rw, w, a);
  }

  lemma WrittenIsOwned(sys: TransitionSystem, vs: Versions, i: nat, s: State, y: Input, w: set<int>)
    requires i < |vs.states| == |vs.inputs| == |vs.aux|
    requires VersionOk(sys, vs.states[i], vs.inputs[i], vs.aux[i])
    ensures forall v :: v in Written(sys, vs, i, s, y, w) ==> Owns(vs, i, v)
  {
  }

  /** The assignment says nothing about versions outside first to last. */
  ghost predicate OnlyBetween(vs: Versions, first: nat, last: nat, a: Assignment)
    requires last < |vs.states| == |vs.inputs| == |vs.aux|
  {
    forall v :: v in a ==> exists i :: first <= i <= last && Owns(vs, i, v)
  }

  /** Writing one more version in front leaves the later ones as they are. */
  lemma WriteVersion(
    sys: TransitionSystem, vs: Versions, bound: int, i: nat, last: nat,
    s: State, y: Input, w: set<int>, b: Assignment) returns (a: Assignment)
    requires sys.DisjointRanges() && Apart(sys, vs, bound) && i <= last < |vs.states|
    requires sys.IsState(s) && sys.IsInput(y) && sys.IsAux(w)
    requires forall v :: v in b ==> exists j :: i < j <= last && Owns(vs, j, v)
    ensures OnlyBetween(vs, i, last, a)
    ensures StateAt(sys, vs, i, a) == s && InputAt(sys, vs, i, a) == y && AuxAt(sys, vs, i, a) == w
    ensures forall j, v :: i < j < |vs.states| && Owns(vs, j, v) ==> (v in a <==> v in b)
  {
    a := b + Written(sys, vs, i, s, y, w);
    WrittenIsOwned(sys, vs, i, s, y, w);
    ReadWritten(sys, vs, i, s, y, w, a);
  }

  lemma SameVersionSameParts(sys: TransitionSystem, vs: Versions, i: nat, a: Assignment, b: Assignment)
    requires sys.DisjointRanges() && i < |vs.states| == |vs.inputs| == |vs.aux|
    requires VersionOk(sys, vs.states[i], vs.inputs[i], vs.aux[i])
    requires forall v :: Owns(vs, i, v) ==> (v in a <==> v in b)
    ensures StateAt(sys, vs, i, a) == StateAt(sys, vs, i, b)
    ensures InputAt(sys, vs, i, a) == InputAt(sys, vs, i, b) && AuxAt(sys, vs, i, a) == AuxAt(sys, vs, i, b)
  {
    forall v | sys.states.Contains(v)
      ensures Owns(vs, i, Shift(v, sys.states, vs.states[i]))
    {
    }
    forall v | sys.inputs.Contains(v)
      ensures Owns(vs, i, Shift(v, sys.inputs, vs.inputs[i]))
    {
    }
    forall v | sys.aux.Contains(v)
      ensures Owns(vs, i, Shift(v, sys.aux, vs.aux[i]))
    {
    }
  }

  /** Every violating run is an assignment of the versions. */
  lemma {:induction false} RunIsModel(
    sys: TransitionSystem, vs: Versions, bound: int, first: nat, last: nat, s: State, ys: seq<Input>)
    returns (a: Assignment)
    requires sys.WellFormed() && Apart(sys, vs, bound) && first <= last < |vs.states| && |ys| == last - first + 1
    requires sys.IsState(s) && sys.AreInputs(ys) && sys.Violates(s, ys)
    ensures OnlyBetween(vs, first, last, a)
    ensures StateAt(sys, vs, first, a) == s
    ensures forall i :: first <= i < last ==> TransHolds(sys, vs, i, a)
    ensures ErrorHolds(sys, vs, last, a)
    decreases last - first
  {
    hide TransitionSystem.WellFormed, Apart, Models, StateAt, InputAt, AuxAt, TransitionSystem.Join, VersionOk, Owns;
    Lengths(sys, vs, bound);
    if first == last {
      var w :| sys.IsAux(w) && Models(s + ys[0] + w, sys.error);
      a := WriteVersion(sys, vs, bound, first, last, s, ys[0], w, {});
    } else {
      var t := sys.Succ(s, ys[0]);
      var w :| sys.IsAux(w) && Models(sys.Join(s, ys[0], t, w), sys.trans);
      var b := RunIsModel(sys, vs, bound, first + 1, last, t, ys[1..]);
      a := WriteVersion(sys, vs, bound, first, last, s, ys[0], w, b);
      forall i | first < i <= last
        ensures StateAt(sys, vs, i, a) == StateAt(sys, vs, i, b)
        ensures InputAt(sys, vs, i, a) == InputAt(sys, vs, i, b) && AuxAt(sys, vs, i, a) == AuxAt(sys, vs, i, b)
      {
        SameVersionSameParts(sys, vs, i, a, b);
      }
      forall i | first <= i < last
        ensures TransHolds(sys, vs, i, a)
      {
        assert i > first ==> TransHolds(sys, vs, i, b);
      }
    }
  }
}
