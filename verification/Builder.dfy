/**
 * The translation of an ordered and-inverter graph into a symbolic transition
 * system (src/aiger_builder.hpp, src/aiger_builder.cpp).
 */
module Builder {
  import opened Logic
  import opened TransitionSystems
  import opened Aigs
  import opened Reencoding
  import opened Solvers

  datatype Rejection = NotOneProperty | JusticeOrFairness | Constraints

  /** The reason for which a graph is rejected: the first one of these that applies. */
  ghost predicate RejectedFor(aig: Aig, reason: Rejection) {
    match reason
    case NotOneProperty => |aig.outputs| + |aig.bad| != 1
    case JusticeOrFairness => |aig.outputs| + |aig.bad| == 1 && (aig.fairness != [] || aig.justice != [])
    case Constraints =>
      |aig.outputs| + |aig.bad| == 1 && aig.fairness == [] && aig.justice == [] && aig.constraints != []
  }

  /** Exactly one property, and nothing the builder does not support. */
  predicate Supported(aig: Aig) {
    |aig.outputs| + |aig.bad| == 1 && aig.fairness == [] && aig.justice == [] && aig.constraints == []
  }

  datatype Context = Context(
    aig: Aig,
    inputs: VariableRange,
    states: VariableRange,
    nexts: VariableRange,
    ands: VariableRange)
  {
    ghost predicate Valid() {
      && Ordered(aig) && Acyclic(aig) && Supported(aig)
      && inputs.Valid() && states.Valid() && nexts.Valid() && ands.Valid()
      && inputs.Size() == |aig.inputs| && states.Size() == |aig.latches| == nexts.Size()
      && ands.Size() == |aig.ands|
      && inputs.Vars() !! states.Vars() !! nexts.Vars() !! ands.Vars()
    }

    /** The literal that must never become true. */
    function BadLiteral(): (lit: nat)
      requires Supported(aig)
      ensures lit in aig.outputs || lit in aig.bad
      ensures forall l :: l in aig.outputs || l in aig.bad ==> l == lit
    {
      if |aig.outputs| > 0 then aig.outputs[0] else aig.bad[0]
    }

    /** The solver variable of an AIGER variable. */
    function FromAigerVar(v: nat): (r: int)
      requires Valid() && 1 <= v <= LastVar(aig)
      ensures r > 0 && (inputs.Contains(r) || states.Contains(r) || ands.Contains(r))
    {
      if v < FirstLatch(aig) then inputs.Nth(v - 1)
      else if v < FirstAnd(aig) then states.Nth(v - FirstLatch(aig))
      else ands.Nth(v - FirstAnd(aig))
    }

    /** The solver literal of a non-constant AIGER literal. */
    function FromAigerLit(lit: nat): (l: Literal)
      requires Valid() && lit >= 2 && InRange(aig, lit)
      ensures VarOf(l) == FromAigerVar(Lit2Var(lit)) && (l > 0 <==> !Sign(lit))
    {
      Substitute(if Sign(lit) then -1 else 1, FromAigerVar(Lit2Var(lit)))
    }
  }

  /** A literal maps to the variable at the position where the graph lists its variable, with the same sign. */
  lemma LiteralByPosition(ctx: Context, lit: nat)
    requires ctx.Valid() && lit >= 2 && InRange(ctx.aig, lit)
    ensures ctx.FromAigerLit(lit) > 0 <==> !Sign(lit)
    ensures forall i :: 0 <= i < |ctx.aig.inputs| && Lit2Var(ctx.aig.inputs[i]) == Lit2Var(lit) ==>
              VarOf(ctx.FromAigerLit(lit)) == ctx.inputs.Nth(i)
    ensures forall i :: 0 <= i < |ctx.aig.latches| && Lit2Var(ctx.aig.latches[i].lit) == Lit2Var(lit) ==>
              VarOf(ctx.FromAigerLit(lit)) == ctx.states.Nth(i)
    ensures forall k :: 0 <= k < |ctx.aig.ands| && Lit2Var(ctx.aig.ands[k].lhs) == Lit2Var(lit) ==>
              VarOf(ctx.FromAigerLit(lit)) == ctx.ands.Nth(k)
    ensures IsInputVar(ctx.aig, Lit2Var(lit)) || IsLatchVar(ctx.aig, Lit2Var(lit)) || IsAndVar(ctx.aig, Lit2Var(lit))
  {
    NumberedVars(ctx.aig, Lit2Var(lit));
  }

  /** Different AIGER variables get different solver variables. */
  lemma VarsAreDistinct(ctx: Context, v: nat, w: nat)
    requires ctx.Valid() && 1 <= v <= LastVar(ctx.aig) && 1 <= w <= LastVar(ctx.aig)
    requires ctx.FromAigerVar(v) == ctx.FromAigerVar(w)
    ensures v == w
  {
    var r := ctx.FromAigerVar(v);
    assert r in ctx.inputs.Vars() || r in ctx.states.Vars() || r in ctx.ands.Vars();
  }

  // ------------------------------------------------------------------
  // What an assignment says about the graph
  // ------------------------------------------------------------------

  /** The AIGER variables whose solver variables are true. */
  ghost function ValOf(ctx: Context, a: Assignment): (val: Valuation)
    requires ctx.Valid()
  {
    set v: nat | 1 <= v <= LastVar(ctx.aig) && ctx.FromAigerVar(v) in a
  }

  lemma LitValue(ctx: Context, a: Assignment, lit: nat)
    requires ctx.Valid() && lit >= 2 && InRange(ctx.aig, lit)
    ensures LitTrue(a, ctx.FromAigerLit(lit)) <==> LitHolds(ValOf(ctx, a), lit)
  {
    var v := Lit2Var(lit);
    assert v in ValOf(ctx, a) <==> ctx.FromAigerVar(v) in a;
  }

  lemma ConstantValues(ctx: Context, a: Assignment)
    requires ctx.Valid()
    ensures !LitHolds(ValOf(ctx, a), 0) && LitHolds(ValOf(ctx, a), 1)
  {
  }

  /** The positions of a range whose variables are true. */
  ghost function Indices(range: VariableRange, a: set<int>): (r: set<nat>)
    requires range.Valid()
    ensures forall i: nat :: i in r <==> i < range.Size() && range.Nth(i) in a
  {
    set i: nat {:trigger range.begin + i} | i < range.Size() && range.begin + i in a
  }

  /** The variables of a range at the given positions. */
  ghost function VarsAt(range: VariableRange, positions: set<nat>): (r: set<int>)
    requires range.Valid()
    ensures forall v :: v in r <==> range.Contains(v) && range.Offset(v) in positions
  {
    set v | v in range.Vars() && range.Offset(v) in positions
  }

  lemma IndicesOfVarsAt(range: VariableRange, positions: set<nat>)
    requires range.Valid() && forall i :: i in positions ==> i < range.Size()
    ensures Indices(range, VarsAt(range, positions)) == positions
  {
    forall i: nat
      ensures i in Indices(range, VarsAt(range, positions)) <==> i in positions
    {
      if i < range.Size() {
        assert range.Offset(range.Nth(i)) == i;
      }
    }
  }

  lemma LeavesAreRead(ctx: Context, a: Assignment)
    requires ctx.Valid()
    ensures forall i :: 0 <= i < |ctx.aig.inputs| ==>
              (Lit2Var(ctx.aig.inputs[i]) in ValOf(ctx, a) <==> i in Indices(ctx.inputs, a))
    ensures forall i :: 0 <= i < |ctx.aig.latches| ==>
              (Lit2Var(ctx.aig.latches[i].lit) in ValOf(ctx, a) <==> i in Indices(ctx.states, a))
  {
    forall i | 0 <= i < |ctx.aig.inputs|
      ensures Lit2Var(ctx.aig.inputs[i]) in ValOf(ctx, a) <==> i in Indices(ctx.inputs, a)
    {
      assert ctx.FromAigerVar(i + 1) == ctx.inputs.Nth(i);
    }
    forall i | 0 <= i < |ctx.aig.latches|
      ensures Lit2Var(ctx.aig.latches[i].lit) in ValOf(ctx, a) <==> i in Indices(ctx.states, a)
    {
      assert ctx.FromAigerVar(FirstLatch(ctx.aig) + i) == ctx.states.Nth(i);
    }
  }

  // ------------------------------------------------------------------
  // One gate
  // ------------------------------------------------------------------

  lemma UnitClause(a: Assignment, l: Literal)
    ensures Models(a, [[l]]) <==> LitTrue(a, l)
  {
    assert l in [l] && [l] in [[l]];
    assert ClauseTrue(a, [l]) <==> LitTrue(a, l);
  }

  lemma BinaryClause(a: Assignment, l: Literal, m: Literal)
    ensures ClauseTrue(a, [l, m]) <==> LitTrue(a, l) || LitTrue(a, m)
  {
    assert l in [l, m] && m in [l, m];
  }

  lemma TernaryClause(a: Assignment, l: Literal, m: Literal, n: Literal)
    ensures ClauseTrue(a, [l, m, n]) <==> LitTrue(a, l) || LitTrue(a, m) || LitTrue(a, n)
  {
    assert l in [l, m, n] && m in [l, m, n] && n in [l, m, n];
  }

  /** The clauses of x <-> y. */
  function Equivalence(x: Literal, y: Literal): Cnf {
    [[Not(x), y], [Not(y), x]]
  }

  lemma EquivalenceMeaning(a: Assignment, x: Literal, y: Literal)
    ensures Models(a, Equivalence(x, y)) <==> (LitTrue(a, x) <==> LitTrue(a, y))
  {
    BinaryClause(a, Not(x), y);
    BinaryClause(a, Not(y), x);
    var f := Equivalence(x, y);
    assert f[0] in f && f[1] in f;
  }

  predicate GateInRange(aig: Aig, conj: And) {
    conj.lhs >= 2 && !Sign(conj.lhs) && InRange(aig, conj.lhs) && InRange(aig, conj.rhs0) && InRange(aig, conj.rhs1)
  }

  /** The clauses of lhs = rhs0 /\ rhs1, with constant inputs simplified away. */
  function ClausifyAnd(ctx: Context, conj: And): Cnf
    requires ctx.Valid() && GateInRange(ctx.aig, conj)
  {
    var And(lhs, rhs0, rhs1) := conj;
    if rhs0 == 0 || rhs1 == 0 then [[Not(ctx.FromAigerLit(lhs))]]
    else if rhs0 == 1 && rhs1 == 1 then [[ctx.FromAigerLit(lhs)]]
    else if rhs0 == 1 then Equivalence(ctx.FromAigerLit(lhs), ctx.FromAigerLit(rhs1))
    else if rhs1 == 1 then Equivalence(ctx.FromAigerLit(lhs), ctx.FromAigerLit(rhs0))
    else
      var (l, r0, r1) := (ctx.FromAigerLit(lhs), ctx.FromAigerLit(rhs0), ctx.FromAigerLit(rhs1));
      [[Not(l), r0], [Not(l), r1], [Not(r0), Not(r1), l]]
  }

  /** The clauses of a gate hold exactly if the gate computes its conjunction. */
  lemma ClausifyAndMeaning(ctx: Context, conj: And, a: Assignment)
    requires ctx.Valid() && GateInRange(ctx.aig, conj)
    ensures Models(a, ClausifyAnd(ctx, conj)) <==> AndHolds(ValOf(ctx, a), conj)
  {
    var And(lhs, rhs0, rhs1) := conj;
    var val := ValOf(ctx, a);
    var l := ctx.FromAigerLit(lhs);
    ConstantValues(ctx, a);
    LitValue(ctx, a, lhs);
    assert LitTrue(a, l) <==> Lit2Var(lhs) in val;
    UnitClause(a, l);
    UnitClause(a, Not(l));
    if rhs0 > 1 {
      LitValue(ctx, a, rhs0);
      EquivalenceMeaning(a, l, ctx.FromAigerLit(rhs0));
    }
    if rhs1 > 1 {
      LitValue(ctx, a, rhs1);
      EquivalenceMeaning(a, l, ctx.FromAigerLit(rhs1));
    }
    if rhs0 > 1 && rhs1 > 1 {
      ThreeClauses(a, l, ctx.FromAigerLit(rhs0), ctx.FromAigerLit(rhs1));
    }
  }

  lemma ThreeClauses(a: Assignment, l: Literal, r0: Literal, r1: Literal)
    ensures Models(a, [[Not(l), r0], [Not(l), r1], [Not(r0), Not(r1), l]]) <==>
            (LitTrue(a, l) <==> LitTrue(a, r0) && LitTrue(a, r1))
  {
    var f := [[Not(l), r0], [Not(l), r1], [Not(r0), Not(r1), l]];
    BinaryClause(a, Not(l), r0);
    BinaryClause(a, Not(l), r1);
    TernaryClause(a, Not(r0), Not(r1), l);
    assert f[0] in f && f[1] in f && f[2] in f;
  }

  ghost function LeafVars(ctx: Context): set<int> {
    ctx.inputs.Vars() + ctx.states.Vars() + ctx.ands.Vars()
  }

  lemma ClausifyAndOver(ctx: Context, conj: And)
    requires ctx.Valid() && GateInRange(ctx.aig, conj)
    ensures CnfOver(ClausifyAnd(ctx, conj), LeafVars(ctx))
  {
    forall lit: nat | lit >= 2 && InRange(ctx.aig, lit)
      ensures VarOf(ctx.FromAigerLit(lit)) in LeafVars(ctx)
    {
    }
  }

  // ------------------------------------------------------------------
  // The cone of some literals
  // ------------------------------------------------------------------

  /** The traversal has to visit gate k. */
  predicate Required(aig: Aig, required: set<nat>, k: nat)
    requires k < |aig.ands|
  {
    aig.ands[k].lhs in required || Negated(aig.ands[k].lhs) in required
  }

  /** The set is closed: the inputs of a required gate are in it. */
  ghost predicate ClosedFrom(aig: Aig, required: set<nat>, from: nat) {
    forall k :: from <= k < |aig.ands| && Required(aig, required, k) ==>
      aig.ands[k].rhs0 in required && aig.ands[k].rhs1 in required
  }

  ghost predicate RequiredHold(aig: Aig, val: Valuation, required: set<nat>, from: nat) {
    forall k :: from <= k < |aig.ands| && Required(aig, required, k) ==> GateHolds(aig, val, k)
  }

  /** The formula says that the required gates from `from` on hold, and nothing else. */
  ghost predicate ClausifiesFrom(ctx: Context, f: Cnf, required: set<nat>, from: nat)
    requires ctx.Valid()
  {
    && CnfOver(f, LeafVars(ctx))
    && (forall a :: Models(a, f) <==> RequiredHold(ctx.aig, ValOf(ctx, a), required, from))
  }

  /** The formula clausifies some closed set of literals that contains the roots. */
  ghost predicate ClausifiesCone(ctx: Context, f: Cnf, roots: set<nat>, cone: set<nat>)
    requires ctx.Valid()
  {
    roots <= cone && ClosedFrom(ctx.aig, cone, 0) && ClausifiesFrom(ctx, f, cone, 0)
  }

  /** Visits the gates from the last to the first, collecting those in the cone of the roots. */
  method ClausifySubgraph(ctx: Context, roots: set<nat>) returns (result: Cnf)
    requires ctx.Valid()
    ensures exists cone :: ClausifiesCone(ctx, result, roots, cone)
  {
    result := [];
    var required := roots;
    for i := |ctx.aig.ands| downto 0
      invariant roots <= required && ClosedFrom(ctx.aig, required, i)
      invariant ClausifiesFrom(ctx, result, required, i)
    {
      var And(lhs, rhs0, rhs1) := ctx.aig.ands[i];
      if lhs in required || Negated(lhs) in required {
        ghost var before, beforeRequired := result, required;
        result := result + ClausifyAnd(ctx, ctx.aig.ands[i]);
        required := required + {rhs0, rhs1};
        VisitedGate(ctx, before, beforeRequired, i);
      } else {
        SkippedGate(ctx, result, required, i);
      }
    }
    assert ClausifiesCone(ctx, result, roots, required);
  }

  lemma LaterGatesUnaffected(aig: Aig, required: set<nat>, i: nat, k: nat)
    requires Ordered(aig) && i <= k < |aig.ands|
    ensures Required(aig, required + {aig.ands[i].rhs0, aig.ands[i].rhs1}, k) <==> Required(aig, required, k)
  {
    assert aig.ands[i].rhs0 < aig.ands[i].lhs <= aig.ands[k].lhs;
  }

  lemma ClosedOneMore(aig: Aig, required: set<nat>, i: nat)
    requires Ordered(aig) && i < |aig.ands| && ClosedFrom(aig, required, i + 1)
    ensures ClosedFrom(aig, required + {aig.ands[i].rhs0, aig.ands[i].rhs1}, i)
  {
    hide Required, WellDefined;
    var required' := required + {aig.ands[i].rhs0, aig.ands[i].rhs1};
    forall k | i <= k < |aig.ands|
      ensures Required(aig, required', k) <==> Required(aig, required, k)
    {
      LaterGatesUnaffected(aig, required, i, k);
    }
  }

  lemma HoldOneMore(aig: Aig, val: Valuation, required: set<nat>, i: nat)
    requires Ordered(aig) && i < |aig.ands| && Required(aig, required, i)
    ensures RequiredHold(aig, val, required + {aig.ands[i].rhs0, aig.ands[i].rhs1}, i) <==>
            RequiredHold(aig, val, required, i + 1) && GateHolds(aig, val, i)
  {
    hide Required, WellDefined, GateHolds;
    var required' := required + {aig.ands[i].rhs0, aig.ands[i].rhs1};
    forall k | i <= k < |aig.ands|
      ensures Required(aig, required', k) <==> Required(aig, required, k)
    {
      LaterGatesUnaffected(aig, required, i, k);
    }
  }

  lemma VisitedGate(ctx: Context, f: Cnf, required: set<nat>, i: nat)
    requires ctx.Valid() && i < |ctx.aig.ands| && Required(ctx.aig, required, i)
    requires ClosedFrom(ctx.aig, required, i + 1) && ClausifiesFrom(ctx, f, required, i + 1)
    ensures var required' := required + {ctx.aig.ands[i].rhs0, ctx.aig.ands[i].rhs1};
            && ClosedFrom(ctx.aig, required', i)
            && ClausifiesFrom(ctx, f + ClausifyAnd(ctx, ctx.aig.ands[i]), required', i)
  {
    hide ClosedFrom, RequiredHold, Required, ClausifyAnd, ValOf, AndHolds, Models;
    var required' := required + {ctx.aig.ands[i].rhs0, ctx.aig.ands[i].rhs1};
    var g := ClausifyAnd(ctx, ctx.aig.ands[i]);
    ClosedOneMore(ctx.aig, required, i);
    forall a: Assignment
      ensures Models(a, f + g) <==> RequiredHold(ctx.aig, ValOf(ctx, a), required', i)
    {
      ModelsConcat(a, f, g);
      ClausifyAndMeaning(ctx, ctx.aig.ands[i], a);
      HoldOneMore(ctx.aig, ValOf(ctx, a), required, i);
    }
    ClausifyAndOver(ctx, ctx.aig.ands[i]);
    forall c | c in f + g
      ensures LitsOver(c, LeafVars(ctx))
    {
      assert c in f || c in g;
    }
  }

  lemma SkippedGate(ctx: Context, f: Cnf, required: set<nat>, i: nat)
    requires ctx.Valid() && i < |ctx.aig.ands| && !Required(ctx.aig, required, i)
    requires ClosedFrom(ctx.aig, required, i + 1) && ClausifiesFrom(ctx, f, required, i + 1)
    ensures ClosedFrom(ctx.aig, required, i) && ClausifiesFrom(ctx, f, required, i)
  {
    forall a: Assignment
      ensures Models(a, f) <==> RequiredHold(ctx.aig, ValOf(ctx, a), required, i)
    {
      assert Models(a, f) <==> RequiredHold(ctx.aig, ValOf(ctx, a), required, i + 1);
    }
  }

  /** In a model of the cone's clauses, every literal of the cone has its value in the graph. */
  lemma {:induction false} ConeValues(ctx: Context, f: Cnf, cone: set<nat>, a: Assignment, lit: nat)
    requires ctx.Valid() && ClosedFrom(ctx.aig, cone, 0) && ClausifiesFrom(ctx, f, cone, 0)
    requires Models(a, f) && lit in cone && InRange(ctx.aig, lit)
    ensures Lit2Var(lit) in ValOf(ctx, a) <==>
            Lit2Var(lit) in Values(ctx.aig, Indices(ctx.states, a), Indices(ctx.inputs, a))
    decreases Lit2Var(lit)
  {
    var aig, v := ctx.aig, Lit2Var(lit);
    var val := Values(aig, Indices(ctx.states, a), Indices(ctx.inputs, a));
    LeavesAreRead(ctx, a);
    if v == 0 {
    } else if v < FirstLatch(aig) {
      assert Lit2Var(aig.inputs[v - 1]) == v;
    } else if v < FirstAnd(aig) {
      assert Lit2Var(aig.latches[v - FirstLatch(aig)].lit) == v;
    } else {
      var k := v - FirstAnd(aig);
      assert Required(aig, cone, k);
      assert RequiredHold(aig, ValOf(ctx, a), cone, 0);
      assert GateHolds(aig, ValOf(ctx, a), k) && GateHolds(aig, val, k);
      ConeValues(ctx, f, cone, a, aig.ands[k].rhs0);
      ConeValues(ctx, f, cone, a, aig.ands[k].rhs1);
    }
  }

  // ------------------------------------------------------------------
  // The three formulas
  // ------------------------------------------------------------------

  /** The clause that fixes latch i to its constant reset value. */
  function ResetClause(ctx: Context, i: nat): (c: Clause)
    requires ctx.Valid() && i < |ctx.aig.latches|
    ensures |c| == 1 && VarOf(c[0]) == ctx.states.Nth(i)
  {
    [Substitute(if ctx.aig.latches[i].reset == 0 then -1 else 1, ctx.states.Nth(i))]
  }

  lemma ResetClauseVar(ctx: Context, i: nat)
    requires ctx.Valid() && i < |ctx.aig.latches|
    ensures VarOf(ResetClause(ctx, i)[0]) == ctx.states.begin + i
  {
  }

  /** Exactly the reset clauses of the first n latches with a constant reset value. */
  ghost predicate ResetsUpTo(ctx: Context, init: Cnf, n: nat)
    requires ctx.Valid() && n <= |ctx.aig.latches|
  {
    && (forall c :: c in init ==> exists i :: 0 <= i < n && ctx.aig.latches[i].reset <= 1 && c == ResetClause(ctx, i))
    && (forall i :: 0 <= i < n && ctx.aig.latches[i].reset <= 1 ==> ResetClause(ctx, i) in init)
  }

  method BuildInit(ctx: Context) returns (init: Cnf)
    requires ctx.Valid()
    ensures ResetsUpTo(ctx, init, |ctx.aig.latches|)
    ensures forall a :: Models(a, init) <==> InitialLatches(ctx.aig, Indices(ctx.states, a))
  {
    init := [];
    for i := 0 to |ctx.aig.latches|
      invariant ResetsUpTo(ctx, init, i)
    {
      if ctx.aig.latches[i].reset <= 1 {
        init := init + [ResetClause(ctx, i)];
      }
    }
    forall a: Assignment
      ensures Models(a, init) <==> InitialLatches(ctx.aig, Indices(ctx.states, a))
    {
      ResetsMeaning(ctx, init, a);
    }
  }

  lemma ResetsMeaning(ctx: Context, init: Cnf, a: Assignment)
    requires ctx.Valid() && ResetsUpTo(ctx, init, |ctx.aig.latches|)
    ensures Models(a, init) <==> InitialLatches(ctx.aig, Indices(ctx.states, a))
  {
    forall i | 0 <= i < |ctx.aig.latches| && ctx.aig.latches[i].reset <= 1
      ensures ClauseTrue(a, ResetClause(ctx, i)) <==>
              (i in Indices(ctx.states, a) <==> ctx.aig.latches[i].reset == 1)
    {
      var c := ResetClause(ctx, i);
      assert c == [c[0]];
      assert c[0] in c;
    }
  }

  /** In a model, every next-state variable has the value of the latch's next literal. */
  ghost predicate LinkHolds(ctx: Context, a: Assignment, i: nat)
    requires ctx.Valid() && i < |ctx.aig.latches|
  {
    ctx.nexts.Nth(i) in a <==> LitHolds(ValOf(ctx, a), ctx.aig.latches[i].next)
  }

  /** The clauses that equate the next-state variable of latch i with its next literal. */
  function LinkLatch(ctx: Context, i: nat): (f: Cnf)
    requires ctx.Valid() && i < |ctx.aig.latches|
  {
    var next: Literal := ctx.nexts.Nth(i);
    var lit := ctx.aig.latches[i].next;
    if lit == 1 then [[next]]
    else if lit == 0 then [[Not(next)]]
    else Equivalence(next, ctx.FromAigerLit(lit))
  }

  lemma LinkLatchMeaning(ctx: Context, i: nat, a: Assignment)
    requires ctx.Valid() && i < |ctx.aig.latches|
    ensures Models(a, LinkLatch(ctx, i)) <==> LinkHolds(ctx, a, i)
  {
    var next: Literal := ctx.nexts.Nth(i);
    var lit := ctx.aig.latches[i].next;
    ConstantValues(ctx, a);
    UnitClause(a, next);
    UnitClause(a, Not(next));
    assert VarOf(next) == next;
    if lit >= 2 {
      LitValue(ctx, a, lit);
      EquivalenceMeaning(a, next, ctx.FromAigerLit(lit));
    }
  }

  lemma LinkLatchOver(ctx: Context, i: nat)
    requires ctx.Valid() && i < |ctx.aig.latches|
    ensures CnfOver(LinkLatch(ctx, i), LeafVars(ctx) + ctx.nexts.Vars())
  {
    var lit := ctx.aig.latches[i].next;
    if lit >= 2 {
      assert VarOf(ctx.FromAigerLit(lit)) in LeafVars(ctx);
    }
  }

  /** The roots of the transition formula. */
  method NextRoots(ctx: Context) returns (roots: set<nat>)
    requires ctx.Valid()
    ensures forall i :: 0 <= i < |ctx.aig.latches| && ctx.aig.latches[i].next > 1 ==> ctx.aig.latches[i].next in roots
  {
    roots := {};
    for i := 0 to |ctx.aig.latches|
      invariant forall j :: 0 <= j < i && ctx.aig.latches[j].next > 1 ==> ctx.aig.latches[j].next in roots
    {
      if ctx.aig.latches[i].next > 1 {
        roots := roots + {ctx.aig.latches[i].next};
      }
    }
  }

  /**
   * What the transition formula says. Every model gives each next-state
   * variable the value of the latch's next literal in the graph; and an
   * assignment in which all gates and links hold is a model.
   */
  ghost predicate TransMeans(ctx: Context, trans: Cnf)
    requires ctx.Valid()
  {
    && CnfOver(trans, LeafVars(ctx) + ctx.nexts.Vars())
    && (forall a, i: nat :: Models(a, trans) && i < |ctx.aig.latches| ==>
          (ctx.nexts.Nth(i) in a <==>
           LitHolds(Values(ctx.aig, Indices(ctx.states, a), Indices(ctx.inputs, a)), ctx.aig.latches[i].next)))
    && (forall a {:trigger Models(a, trans)} ::
          && (forall k :: 0 <= k < |ctx.aig.ands| ==> GateHolds(ctx.aig, ValOf(ctx, a), k))
          && (forall i :: 0 <= i < |ctx.aig.latches| ==> LinkHolds(ctx, a, i))
          ==> Models(a, trans))
  }

  /** The formula consists of the cone's clauses and the links of the first n latches. */
  ghost predicate LinkedUpTo(ctx: Context, trans: Cnf, cone: Cnf, n: nat)
    requires ctx.Valid() && n <= |ctx.aig.latches|
  {
    && CnfOver(trans, LeafVars(ctx) + ctx.nexts.Vars())
    && (forall a :: Models(a, trans) <==> Models(a, cone) && forall i :: 0 <= i < n ==> LinkHolds(ctx, a, i))
  }

  lemma LinkedOneMore(ctx: Context, trans: Cnf, cone: Cnf, n: nat)
    requires ctx.Valid() && n < |ctx.aig.latches| && LinkedUpTo(ctx, trans, cone, n)
    ensures LinkedUpTo(ctx, trans + LinkLatch(ctx, n), cone, n + 1)
  {
    var g := LinkLatch(ctx, n);
    LinkLatchOver(ctx, n);
    forall c | c in trans + g
      ensures LitsOver(c, LeafVars(ctx) + ctx.nexts.Vars())
    {
      assert c in trans || c in g;
    }
    forall a: Assignment
      ensures Models(a, trans + g) <==> Models(a, cone) && forall i :: 0 <= i < n + 1 ==> LinkHolds(ctx, a, i)
    {
      ModelsConcat(a, trans, g);
      LinkLatchMeaning(ctx, n, a);
    }
  }

  lemma LinkedMeans(ctx: Context, trans: Cnf, f: Cnf, cone: set<nat>)
    requires ctx.Valid() && ClosedFrom(ctx.aig, cone, 0) && ClausifiesFrom(ctx, f, cone, 0)
    requires LinkedUpTo(ctx, trans, f, |ctx.aig.latches|)
    requires forall i :: 0 <= i < |ctx.aig.latches| && ctx.aig.latches[i].next > 1 ==> ctx.aig.latches[i].next in cone
    ensures TransMeans(ctx, trans)
  {
    forall a, i: nat | Models(a, trans) && i < |ctx.aig.latches|
      ensures ctx.nexts.Nth(i) in a <==>
              LitHolds(Values(ctx.aig, Indices(ctx.states, a), Indices(ctx.inputs, a)), ctx.aig.latches[i].next)
    {
      assert LinkHolds(ctx, a, i);
      ConstantValues(ctx, a);
      if ctx.aig.latches[i].next > 1 {
        ConeValues(ctx, f, cone, a, ctx.aig.latches[i].next);
      }
    }
  }

  method BuildTrans(ctx: Context) returns (trans: Cnf)
    requires ctx.Valid()
    ensures TransMeans(ctx, trans)
  {
    var roots := NextRoots(ctx);
    trans := ClausifySubgraph(ctx, roots);
    ghost var cone :| ClausifiesCone(ctx, trans, roots, cone);
    ghost var f := trans;
    for i := 0 to |ctx.aig.latches|
      invariant LinkedUpTo(ctx, trans, f, i)
    {
      LinkedOneMore(ctx, trans, f, i);
      trans := trans + LinkLatch(ctx, i);
    }
    LinkedMeans(ctx, trans, f, cone);
  }

  /** What the error formula says: the bad literal is true. */
  ghost predicate ErrorMeans(ctx: Context, error: Cnf)
    requires ctx.Valid()
  {
    && CnfOver(error, LeafVars(ctx))
    && (forall a :: Models(a, error) ==>
          LitHolds(Values(ctx.aig, Indices(ctx.states, a), Indices(ctx.inputs, a)), ctx.BadLiteral()))
    && (forall a {:trigger Models(a, error)} ::
          && (forall k :: 0 <= k < |ctx.aig.ands| ==> GateHolds(ctx.aig, ValOf(ctx, a), k))
          && LitHolds(ValOf(ctx, a), ctx.BadLiteral())
          ==> Models(a, error))
  }

  method BuildError(ctx: Context) returns (error: Cnf)
    requires ctx.Valid()
    ensures ErrorMeans(ctx, error)
  {
    var lit := if |ctx.aig.outputs| > 0 then ctx.aig.outputs[0] else ctx.aig.bad[0];
    if lit == 1 {
      return [];
    }
    if lit == 0 {
      error := [[]];
      assert [] in error;
      return;
    }
    error := ClausifySubgraph(ctx, {lit});
    ghost var cone :| ClausifiesCone(ctx, error, {lit}, cone);
    ErrorClause(ctx, error, cone, lit);
    error := error + [[ctx.FromAigerLit(lit)]];
  }

  lemma ErrorClause(ctx: Context, f: Cnf, cone: set<nat>, lit: nat)
    requires ctx.Valid()
    requires lit == ctx.BadLiteral() && lit > 1 && lit in cone
    requires ClosedFrom(ctx.aig, cone, 0) && ClausifiesFrom(ctx, f, cone, 0)
    ensures ErrorMeans(ctx, f + [[ctx.FromAigerLit(lit)]])
  {
    var l := ctx.FromAigerLit(lit);
    forall a: Assignment
      ensures Models(a, f + [[l]]) <==> Models(a, f) && LitHolds(ValOf(ctx, a), lit)
    {
      ModelsConcat(a, f, [[l]]);
      UnitClause(a, l);
      LitValue(ctx, a, lit);
    }
    forall a: Assignment | Models(a, f + [[l]])
      ensures LitHolds(Values(ctx.aig, Indices(ctx.states, a), Indices(ctx.inputs, a)), lit)
    {
      ConeValues(ctx, f, cone, a, lit);
    }
    forall c | c in f + [[l]]
      ensures LitsOver(c, LeafVars(ctx))
    {
      assert c in f || c == [l];
    }
  }

  // ------------------------------------------------------------------
  // The transition system
  // ------------------------------------------------------------------

  /** The system over the context's ranges whose formulas mean what they should. */
  ghost predicate BuiltFrom(ctx: Context, sys: TransitionSystem)
    requires ctx.Valid()
  {
    && sys.inputs == ctx.inputs && sys.states == ctx.states && sys.nexts == ctx.nexts && sys.aux == ctx.ands
    && ResetsUpTo(ctx, sys.init, |ctx.aig.latches|)
    && TransMeans(ctx, sys.trans)
    && ErrorMeans(ctx, sys.error)
  }

  /** The auxiliary variables of the gates that are true in the graph. */
  ghost function GateVars(ctx: Context, s: State, y: Input): (w: set<int>)
    requires ctx.Valid()
    ensures forall v :: v in w ==> ctx.ands.Contains(v)
  {
    var val := Values(ctx.aig, Indices(ctx.states, s), Indices(ctx.inputs, y));
    VarsAt(ctx.ands, set k: nat | k < |ctx.aig.ands| && GateIn(ctx.aig, val, k))
  }

  ghost predicate GateIn(aig: Aig, val: Valuation, k: nat) {
    FirstAnd(aig) + k in val
  }

  /** With the gate variables set, an assignment reads off the graph's own values. */
  lemma GateVarsGiveValues(ctx: Context, s: State, y: Input, a: Assignment)
    requires ctx.Valid()
    requires forall v :: ctx.states.Contains(v) ==> (v in a <==> v in s)
    requires forall v :: ctx.inputs.Contains(v) ==> (v in a <==> v in y)
    requires forall v :: ctx.ands.Contains(v) ==> (v in a <==> v in GateVars(ctx, s, y))
    ensures Indices(ctx.states, a) == Indices(ctx.states, s) && Indices(ctx.inputs, a) == Indices(ctx.inputs, y)
    ensures forall v: nat :: v <= LastVar(ctx.aig) ==>
              (v in ValOf(ctx, a) <==> v in Values(ctx.aig, Indices(ctx.states, s), Indices(ctx.inputs, y)))
    ensures forall k :: 0 <= k < |ctx.aig.ands| ==> GateHolds(ctx.aig, ValOf(ctx, a), k)
  {
    var aig := ctx.aig;
    var val := Values(aig, Indices(ctx.states, s), Indices(ctx.inputs, y));
    assert Indices(ctx.states, a) == Indices(ctx.states, s);
    assert Indices(ctx.inputs, a) == Indices(ctx.inputs, y);
    LeavesAreRead(ctx, a);
    forall v: nat | v <= LastVar(aig)
      ensures v in ValOf(ctx, a) <==> v in val
    {
      if v == 0 {
      } else if v < FirstLatch(aig) {
        assert Lit2Var(aig.inputs[v - 1]) == v;
      } else if v < FirstAnd(aig) {
        assert Lit2Var(aig.latches[v - FirstLatch(aig)].lit) == v;
      } else {
        GateVariable(ctx, s, y, v - FirstAnd(aig));
      }
    }
    forall k | 0 <= k < |aig.ands|
      ensures GateHolds(aig, ValOf(ctx, a), k)
    {
      assert GateHolds(aig, val, k);
      assert Lit2Var(aig.ands[k].rhs0) <= LastVar(aig) && Lit2Var(aig.ands[k].rhs1) <= LastVar(aig);
    }
  }

  lemma GateVariable(ctx: Context, s: State, y: Input, k: nat)
    requires ctx.Valid() && k < |ctx.aig.ands|
    ensures ctx.FromAigerVar(FirstAnd(ctx.aig) + k) == ctx.ands.Nth(k)
    ensures ctx.ands.Nth(k) in GateVars(ctx, s, y) <==>
            FirstAnd(ctx.aig) + k in Values(ctx.aig, Indices(ctx.states, s), Indices(ctx.inputs, y))
  {
    assert ctx.ands.Offset(ctx.ands.Nth(k)) == k;
  }

  /** The successor the graph computes. */
  ghost function NextState(ctx: Context, s: State, y: Input): (t: State)
    requires ctx.Valid()
    ensures forall v :: v in t ==> ctx.states.Contains(v)
    ensures Indices(ctx.states, t) ==
            NextLatches(ctx.aig, Values(ctx.aig, Indices(ctx.states, s), Indices(ctx.inputs, y)))
  {
    var latches := NextLatches(ctx.aig, Values(ctx.aig, Indices(ctx.states, s), Indices(ctx.inputs, y)));
    IndicesOfVarsAt(ctx.states, latches);
    VarsAt(ctx.states, latches)
  }

  lemma JoinedGates(ctx: Context, sys: TransitionSystem, s: State, y: Input, t: State, w: set<int>)
    requires ctx.Valid() && BuiltFrom(ctx, sys)
    requires sys.IsState(s) && sys.IsInput(y) && sys.IsState(t) && sys.IsAux(w)
    ensures var a := sys.Join(s, y, t, w);
            && Indices(ctx.states, a) == Indices(ctx.states, s)
            && Indices(ctx.inputs, a) == Indices(ctx.inputs, y)
            && Indices(ctx.nexts, a) == Indices(ctx.states, t)
            && forall v :: ctx.ands.Contains(v) ==> (v in a <==> v in w)
  {
    var a := sys.Join(s, y, t, w);
    sys.JoinParts(s, y, t, w);
    assert Indices(ctx.states, a) == Indices(ctx.states, s);
    assert Indices(ctx.inputs, a) == Indices(ctx.inputs, y);
    forall i: nat | i < ctx.states.Size()
      ensures i in Indices(ctx.nexts, a) <==> i in Indices(ctx.states, t)
    {
      assert sys.PrimeVar(ctx.states.Nth(i)) == ctx.nexts.Nth(i);
    }
  }

  /** A step goes to the state the graph computes, and to no other. */
  lemma StepIsNextState(ctx: Context, sys: TransitionSystem, s: State, y: Input, t: State)
    requires ctx.Valid() && BuiltFrom(ctx, sys)
    requires sys.IsState(s) && sys.IsInput(y) && sys.IsState(t)
    ensures sys.Step(s, y, t) <==> t == NextState(ctx, s, y)
  {
    var val := Values(ctx.aig, Indices(ctx.states, s), Indices(ctx.inputs, y));
    if sys.Step(s, y, t) {
      var w :| sys.IsAux(w) && Models(sys.Join(s, y, t, w), sys.trans);
      var a := sys.Join(s, y, t, w);
      JoinedGates(ctx, sys, s, y, t, w);
      forall i: nat | i < |ctx.aig.latches|
        ensures i in Indices(ctx.states, t) <==> LitHolds(val, ctx.aig.latches[i].next)
      {
        assert ctx.nexts.Nth(i) in a <==> LitHolds(val, ctx.aig.latches[i].next);
        assert i in Indices(ctx.nexts, a) <==> ctx.nexts.Nth(i) in a;
      }
      SameIndices(ctx.states, t, NextState(ctx, s, y));
    }
    if t == NextState(ctx, s, y) {
      NextStateIsStep(ctx, sys, s, y);
    }
  }

  lemma SameIndices(range: VariableRange, s: set<int>, t: set<int>)
    requires range.Valid() && Indices(range, s) == Indices(range, t)
    requires forall v :: v in s || v in t ==> range.Contains(v)
    ensures s == t
  {
    forall v
      ensures v in s <==> v in t
    {
      if range.Contains(v) {
        var i := range.Offset(v);
        assert i in Indices(range, s) <==> range.Nth(i) in s;
        assert i in Indices(range, t) <==> range.Nth(i) in t;
      }
    }
  }

  lemma LinksHold(ctx: Context, val: Valuation, a: Assignment)
    requires ctx.Valid() && Indices(ctx.nexts, a) == NextLatches(ctx.aig, val)
    requires forall v: nat :: v <= LastVar(ctx.aig) ==> (v in ValOf(ctx, a) <==> v in val)
    ensures forall i :: 0 <= i < |ctx.aig.latches| ==> LinkHolds(ctx, a, i)
  {
    forall i | 0 <= i < |ctx.aig.latches|
      ensures LinkHolds(ctx, a, i)
    {
      assert i in Indices(ctx.nexts, a) <==> ctx.nexts.Nth(i) in a;
      assert LitHolds(val, ctx.aig.latches[i].next) <==> LitHolds(ValOf(ctx, a), ctx.aig.latches[i].next);
    }
  }

  lemma GatesAndLinksSuffice(ctx: Context, trans: Cnf, a: Assignment)
    requires ctx.Valid() && TransMeans(ctx, trans)
    requires forall k :: 0 <= k < |ctx.aig.ands| ==> GateHolds(ctx.aig, ValOf(ctx, a), k)
    requires forall i :: 0 <= i < |ctx.aig.latches| ==> LinkHolds(ctx, a, i)
    ensures Models(a, trans)
  {
  }

  lemma NextStateIsStep(ctx: Context, sys: TransitionSystem, s: State, y: Input)
    requires ctx.Valid() && BuiltFrom(ctx, sys)
    requires sys.IsState(s) && sys.IsInput(y)
    ensures sys.Step(s, y, NextState(ctx, s, y))
  {
    hide TransMeans, ErrorMeans, ResetsUpTo, LinkHolds, GateHolds;
    var t, w := NextState(ctx, s, y), GateVars(ctx, s, y);
    var a := sys.Join(s, y, t, w);
    var val := Values(ctx.aig, Indices(ctx.states, s), Indices(ctx.inputs, y));
    sys.JoinParts(s, y, t, w);
    JoinedGates(ctx, sys, s, y, t, w);
    GateVarsGiveValues(ctx, s, y, a);
    LinksHold(ctx, val, a);
    GatesAndLinksSuffice(ctx, sys.trans, a);
    assert sys.IsAux(w);
  }

  /** The error formula is satisfiable at a state and an input exactly when the bad literal is true there. */
  lemma ErrorIsBad(ctx: Context, sys: TransitionSystem, s: State, y: Input)
    requires ctx.Valid() && BuiltFrom(ctx, sys)
    requires sys.IsState(s) && sys.IsInput(y)
    ensures sys.Error(s, y) <==> Bad(ctx.aig, Indices(ctx.states, s), Indices(ctx.inputs, y))
  {
    hide TransMeans, ErrorMeans, ResetsUpTo, Bad, Indices, GateHolds, Models;
    ValuesDecideBad(ctx.aig, Indices(ctx.states, s), Indices(ctx.inputs, y));
    OneProperty(ctx, Values(ctx.aig, Indices(ctx.states, s), Indices(ctx.inputs, y)));
    if sys.Error(s, y) {
      var w :| sys.IsAux(w) && Models(s + y + w, sys.error);
      JoinedGates(ctx, sys, s, y, {}, w);
      assert sys.Join(s, y, {}, w) == s + y + w;
      ErrorModelIsBad(ctx, sys.error, s + y + w);
    }
    if LitHolds(Values(ctx.aig, Indices(ctx.states, s), Indices(ctx.inputs, y)), ctx.BadLiteral()) {
      var w := GateVars(ctx, s, y);
      var a := sys.Join(s, y, {}, w);
      assert a == s + y + w;
      sys.JoinParts(s, y, {}, w);
      GateVarsGiveValues(ctx, s, y, a);
      BadIsErrorModel(ctx, sys.error, s, y, a);
      assert sys.IsAux(w);
    }
  }

  lemma ErrorModelIsBad(ctx: Context, error: Cnf, a: Assignment)
    requires ctx.Valid() && ErrorMeans(ctx, error) && Models(a, error)
    ensures LitHolds(Values(ctx.aig, Indices(ctx.states, a), Indices(ctx.inputs, a)), ctx.BadLiteral())
  {
  }

  lemma BadIsErrorModel(ctx: Context, error: Cnf, s: State, y: Input, a: Assignment)
    requires ctx.Valid() && ErrorMeans(ctx, error)
    requires forall k :: 0 <= k < |ctx.aig.ands| ==> GateHolds(ctx.aig, ValOf(ctx, a), k)
    requires forall v: nat :: v <= LastVar(ctx.aig) ==>
               (v in ValOf(ctx, a) <==> v in Values(ctx.aig, Indices(ctx.states, s), Indices(ctx.inputs, y)))
    requires LitHolds(Values(ctx.aig, Indices(ctx.states, s), Indices(ctx.inputs, y)), ctx.BadLiteral())
    ensures Models(a, error)
  {
    hide Values, Indices, ValOf, GateHolds, Models;
    BadIsInRange(ctx);
  }

  lemma BadIsInRange(ctx: Context)
    requires ctx.Valid()
    ensures InRange(ctx.aig, ctx.BadLiteral())
  {
    NumberedDefined(ctx.aig, ctx.BadLiteral());
  }

  /** With one property and no constraints, a state is bad exactly if the bad literal is true. */
  lemma OneProperty(ctx: Context, val: Valuation)
    requires ctx.Valid()
    ensures ConstraintsHold(ctx.aig, val)
    ensures PropertyFails(ctx.aig, val) <==> LitHolds(val, ctx.BadLiteral())
  {
  }

  /** The built system meets everything the engines rely on: every state has exactly one successor. */
  lemma BuiltIsWellFormed(ctx: Context, sys: TransitionSystem)
    requires ctx.Valid() && BuiltFrom(ctx, sys)
    ensures sys.WellFormed()
  {
    forall s, y | sys.IsState(s) && sys.IsInput(y)
      ensures sys.HasSuccessor(s, y)
    {
      NextStateIsStep(ctx, sys, s, y);
      assert sys.IsState(NextState(ctx, s, y));
    }
    forall s, y, t, u | sys.IsState(s) && sys.IsInput(y) && sys.IsState(t) && sys.IsState(u)
                        && sys.Step(s, y, t) && sys.Step(s, y, u)
      ensures t == u
    {
      StepIsNextState(ctx, sys, s, y, t);
      StepIsNextState(ctx, sys, s, y, u);
    }
    BuiltInitIsCube(ctx, sys);
    assert LeafVars(ctx) + ctx.nexts.Vars() == sys.Vars();
    assert LeafVars(ctx) == sys.inputs.Vars() + sys.states.Vars() + sys.aux.Vars();
  }

  lemma BuiltInitIsCube(ctx: Context, sys: TransitionSystem)
    requires ctx.Valid() && BuiltFrom(ctx, sys)
    ensures sys.InitIsCube()
  {
    hide Ordered, Acyclic, Supported, TransMeans, ErrorMeans;
    forall c, d | c in sys.init && d in sys.init
      ensures |c| == 1 && |d| == 1 && c[0] != Not(d[0])
    {
      var i :| 0 <= i < |ctx.aig.latches| && c == ResetClause(ctx, i);
      var j :| 0 <= j < |ctx.aig.latches| && d == ResetClause(ctx, j);
      ResetClauseVar(ctx, i);
      ResetClauseVar(ctx, j);
    }
  }

  // ------------------------------------------------------------------
  // The system and the graph have the same runs
  // ------------------------------------------------------------------

  ghost function InputIndices(range: VariableRange, ys: seq<Input>): (r: seq<set<nat>>)
    requires range.Valid()
    ensures |r| == |ys|
    ensures forall i :: 0 <= i < |ys| ==> r[i] == Indices(range, ys[i])
  {
    seq(|ys|, i requires 0 <= i < |ys| => Indices(range, ys[i]))
  }

  /** State s under input y steps and fails as the graph does at the same latch and input values. */
  ghost predicate SameStep(sys: TransitionSystem, aig: Aig, s: State, y: Input)
    requires sys.WellFormed() && sys.IsState(s) && sys.IsInput(y)
  {
    && (forall l :: Steps(aig, Indices(sys.states, s), Indices(sys.inputs, y), l) <==>
                    l == Indices(sys.states, sys.Succ(s, y)))
    && (sys.Error(s, y) <==> Bad(aig, Indices(sys.states, s), Indices(sys.inputs, y)))
  }

  /** Latches and inputs stand in the order of the graph, and the system starts, steps and fails as the graph does. */
  ghost predicate Represents(sys: TransitionSystem, aig: Aig)
    requires sys.WellFormed()
  {
    && sys.inputs.Size() == |aig.inputs| && sys.states.Size() == |aig.latches|
    && (forall s :: sys.IsState(s) ==> (sys.Init(s) <==> InitialLatches(aig, Indices(sys.states, s))))
    && (forall s, y :: sys.IsState(s) && sys.IsInput(y) ==> SameStep(sys, aig, s, y))
  }

  /** The graph steps to the latches of the system's successor, and to no others. */
  lemma GraphFollows(ctx: Context, sys: TransitionSystem, s: State, y: Input)
    requires ctx.Valid() && BuiltFrom(ctx, sys) && sys.WellFormed()
    requires sys.IsState(s) && sys.IsInput(y)
    ensures forall l :: Steps(ctx.aig, Indices(ctx.states, s), Indices(ctx.inputs, y), l) <==>
                        l == Indices(ctx.states, sys.Succ(s, y))
  {
    hide BuiltFrom, TransitionSystem.WellFormed;
    StepIsNextState(ctx, sys, s, y, sys.Succ(s, y));
    forall l
      ensures Steps(ctx.aig, Indices(ctx.states, s), Indices(ctx.inputs, y), l) <==>
              l == Indices(ctx.states, sys.Succ(s, y))
    {
      ValuesDecideSteps(ctx.aig, Indices(ctx.states, s), Indices(ctx.inputs, y), l);
      OneProperty(ctx, Values(ctx.aig, Indices(ctx.states, s), Indices(ctx.inputs, y)));
    }
  }

  /** The built system represents the graph it was built from. */
  lemma BuiltRepresents(ctx: Context, sys: TransitionSystem)
    requires ctx.Valid() && BuiltFrom(ctx, sys)
    ensures sys.WellFormed() && Represents(sys, ctx.aig)
  {
    hide TransitionSystem.WellFormed, TransMeans, ErrorMeans, Bad, Steps, Indices;
    BuiltIsWellFormed(ctx, sys);
    forall s | sys.IsState(s)
      ensures sys.Init(s) <==> InitialLatches(ctx.aig, Indices(sys.states, s))
    {
      ResetsMeaning(ctx, sys.init, s);
    }
    forall s, y | sys.IsState(s) && sys.IsInput(y)
      ensures SameStep(sys, ctx.aig, s, y)
    {
      GraphFollows(ctx, sys, s, y);
      ErrorIsBad(ctx, sys, s, y);
    }
  }

  /** A system that represents a graph represents every graph that behaves alike. */
  lemma RepresentsAlike(sys: TransitionSystem, aig: Aig, aig': Aig)
    requires sys.WellFormed() && Alike(aig, aig') && Represents(sys, aig')
    ensures Represents(sys, aig)
  {
    hide TransitionSystem.WellFormed, Bad, Steps, Indices, InitialLatches;
    forall s, y | sys.IsState(s) && sys.IsInput(y)
      ensures SameStep(sys, aig, s, y)
    {
      assert SameStep(sys, aig', s, y);
    }
  }

  lemma InputsAreRead(sys: TransitionSystem, aig: Aig, y: Input)
    requires sys.WellFormed() && sys.inputs.Size() == |aig.inputs|
    ensures ReadsInputs(aig, Indices(sys.inputs, y))
  {
  }

  lemma OneSuccessor(aig: Aig, latches: set<nat>, zs: seq<set<nat>>, latches': set<nat>)
    requires |zs| > 1 && ReadsInputs(aig, zs[0])
    requires forall l :: Steps(aig, latches, zs[0], l) <==> l == latches'
    ensures Aigs.Violates(aig, latches, zs) <==> Aigs.Violates(aig, latches', zs[1..])
  {
    hide Steps, ReadsInputs, Bad;
  }

  /** A run violates the system exactly if it violates the graph. */
  lemma {:induction false} SameViolations(sys: TransitionSystem, aig: Aig, s: State, ys: seq<Input>)
    requires sys.WellFormed() && Represents(sys, aig)
    requires sys.IsState(s) && sys.AreInputs(ys)
    ensures sys.Violates(s, ys) <==> Aigs.Violates(aig, Indices(sys.states, s), InputIndices(sys.inputs, ys))
    decreases |ys|
  {
    hide TransitionSystem.Functional, TransitionSystem.InitIsCube, CnfOver, Bad, Steps, Indices, InitialLatches,
      ReadsInputs;
    if ys != [] {
      assert SameStep(sys, aig, s, ys[0]);
      InputsAreRead(sys, aig, ys[0]);
      if |ys| > 1 {
        SameViolations(sys, aig, sys.Succ(s, ys[0]), ys[1..]);
        OneSuccessor(
          aig, Indices(sys.states, s), InputIndices(sys.inputs, ys), Indices(sys.states, sys.Succ(s, ys[0])));
        assert InputIndices(sys.inputs, ys)[1..] == InputIndices(sys.inputs, ys[1..]);
      }
    }
  }

  lemma {:induction false} ViolationReadsInputs(aig: Aig, latches: set<nat>, ys: seq<set<nat>>)
    requires Aigs.Violates(aig, latches, ys)
    ensures forall i :: 0 <= i < |ys| ==> ReadsInputs(aig, ys[i])
    decreases |ys|
  {
    if |ys| > 1 {
      var l' :| Steps(aig, latches, ys[0], l') && Aigs.Violates(aig, l', ys[1..]);
      ViolationReadsInputs(aig, l', ys[1..]);
      forall i | 0 <= i < |ys|
        ensures ReadsInputs(aig, ys[i])
      {
        assert i > 0 ==> ys[i] == ys[1..][i - 1];
      }
    }
  }

  /** Every sequence of graph inputs comes from one of system inputs. */
  lemma InputsOf(sys: TransitionSystem, aig: Aig, zs: seq<set<nat>>) returns (ys: seq<Input>)
    requires sys.DisjointRanges() && sys.inputs.Size() == |aig.inputs|
    requires forall i :: 0 <= i < |zs| ==> ReadsInputs(aig, zs[i])
    ensures sys.AreInputs(ys) && InputIndices(sys.inputs, ys) == zs
  {
    ys := seq(|zs|, i requires 0 <= i < |zs| => VarsAt(sys.inputs, zs[i]));
    forall i | 0 <= i < |zs|
      ensures InputIndices(sys.inputs, ys)[i] == zs[i]
    {
      assert ReadsInputs(aig, zs[i]);
      IndicesOfVarsAt(sys.inputs, zs[i]);
    }
  }

  /** Every set of latch values is that of one state. */
  lemma StateOf(sys: TransitionSystem, aig: Aig, latches: set<nat>) returns (s: State)
    requires sys.DisjointRanges() && sys.states.Size() == |aig.latches| && ReadsLatches(aig, latches)
    ensures sys.IsState(s) && Indices(sys.states, s) == latches
  {
    s := VarsAt(sys.states, latches);
    IndicesOfVarsAt(sys.states, latches);
  }

  lemma UnsafeGraph(sys: TransitionSystem, aig: Aig, latches: set<nat>, zs: seq<set<nat>>)
    requires sys.WellFormed() && Represents(sys, aig)
    requires ReadsLatches(aig, latches) && InitialLatches(aig, latches) && Aigs.Violates(aig, latches, zs)
    ensures sys.UnsafeIn(|zs|)
  {
    hide Aigs.Violates, TransitionSystem.Violates, TransitionSystem.Functional, TransitionSystem.InitIsCube;
    ViolationReadsInputs(aig, latches, zs);
    var ys := InputsOf(sys, aig, zs);
    var s := StateOf(sys, aig, latches);
    SameViolations(sys, aig, s, ys);
  }

  lemma UnsafeSystem(sys: TransitionSystem, aig: Aig, s: State, ys: seq<Input>)
    requires sys.WellFormed() && Represents(sys, aig)
    requires sys.IsState(s) && sys.AreInputs(ys) && sys.Init(s) && sys.Violates(s, ys)
    ensures UnsafeIn(aig, |ys|)
  {
    hide Aigs.Violates, TransitionSystem.Violates, TransitionSystem.Functional, TransitionSystem.InitIsCube;
    SameViolations(sys, aig, s, ys);
    assert ReadsLatches(aig, Indices(sys.states, s));
  }

  /** A system has violating runs of the same lengths as the graph it represents. */
  lemma SameSafety(sys: TransitionSystem, aig: Aig)
    requires sys.WellFormed() && Represents(sys, aig)
    ensures forall n :: sys.UnsafeIn(n) <==> UnsafeIn(aig, n)
    ensures sys.Unsafe() <==> Aigs.Unsafe(aig)
  {
    hide Represents, TransitionSystem.WellFormed, TransitionSystem.Violates, Aigs.Violates;
    forall s, ys | sys.IsState(s) && sys.AreInputs(ys) && sys.Init(s) && sys.Violates(s, ys)
      ensures UnsafeIn(aig, |ys|)
    {
      UnsafeSystem(sys, aig, s, ys);
    }
    forall latches, zs | ReadsLatches(aig, latches) && InitialLatches(aig, latches)
                         && Aigs.Violates(aig, latches, zs)
      ensures sys.UnsafeIn(|zs|)
    {
      UnsafeGraph(sys, aig, latches, zs);
    }
    assert sys.Unsafe() <==> exists n :: sys.UnsafeIn(n);
    assert Aigs.Unsafe(aig) <==> exists n :: UnsafeIn(aig, n);
  }

  /** The latch values of the states in a set. */
  ghost function LatchSets(range: VariableRange, inv: set<State>): (r: set<set<nat>>)
    requires range.Valid()
    ensures forall s :: s in inv ==> Indices(range, s) in r
    ensures forall l :: l in r ==> exists s :: s in inv && l == Indices(range, s)
  {
    set s | s in inv :: Indices(range, s)
  }

  /** An inductive invariant of the system is one of the graph. */
  lemma InvariantOfGraph(sys: TransitionSystem, aig: Aig, inv: set<State>)
    requires sys.WellFormed() && Represents(sys, aig)
    requires sys.InductiveInvariant(inv)
    ensures Aigs.InductiveInvariant(aig, LatchSets(sys.states, inv))
  {
    hide TransitionSystem.Functional, TransitionSystem.InitIsCube, Bad, Steps, Indices, InitialLatches,
      LatchSets, TransitionSystem.Error, TransitionSystem.Step, TransitionSystem.Init, CnfOver;
    var r := LatchSets(sys.states, inv);
    forall l | ReadsLatches(aig, l) && InitialLatches(aig, l)
      ensures l in r
    {
      var s := StateOf(sys, aig, l);
      assert s in inv;
    }
    forall l, z | l in r && ReadsInputs(aig, z)
      ensures !Bad(aig, l, z)
      ensures forall l' :: Steps(aig, l, z, l') ==> l' in r
    {
      InvariantStep(sys, aig, inv, l, z);
    }
  }

  lemma InvariantStep(sys: TransitionSystem, aig: Aig, inv: set<State>, l: set<nat>, z: set<nat>)
    requires sys.WellFormed() && Represents(sys, aig)
    requires sys.InductiveInvariant(inv) && l in LatchSets(sys.states, inv) && ReadsInputs(aig, z)
    ensures !Bad(aig, l, z)
    ensures forall l' :: Steps(aig, l, z, l') ==> l' in LatchSets(sys.states, inv)
  {
    hide TransitionSystem.Functional, TransitionSystem.InitIsCube, Bad, Steps, Indices, InitialLatches,
      LatchSets, TransitionSystem.Error, TransitionSystem.Step, TransitionSystem.Init, CnfOver;
    var s :| s in inv && l == Indices(sys.states, s);
    var ys := InputsOf(sys, aig, [z]);
    assert InputIndices(sys.inputs, ys)[0] == z;
    assert SameStep(sys, aig, s, ys[0]);
    assert sys.Succ(s, ys[0]) in inv;
  }

  method BuildFromContext(ctx: Context) returns (sys: TransitionSystem)
    requires ctx.Valid()
    ensures BuiltFrom(ctx, sys) && sys.WellFormed() && Represents(sys, ctx.aig)
  {
    var init := BuildInit(ctx);
    var trans := BuildTrans(ctx);
    var error := BuildError(ctx);
    sys := TransitionSystem(ctx.inputs, ctx.states, ctx.nexts, ctx.ands, init, trans, error);
    BuiltRepresents(ctx, sys);
  }

  // ------------------------------------------------------------------
  // From a graph as it was read
  // ------------------------------------------------------------------

  datatype MakeResult = Made(context: Context) | Rejected(reason: Rejection)

  datatype BuildResult = Built(system: TransitionSystem) | NotBuilt(reason: Rejection)

  /** Brings the graph into normal form and hands out the variables of its context. */
  method MakeContext(store: VariableStore, aig: Aig) returns (r: MakeResult)
    requires WellDefined(aig) && Acyclic(aig) && store.size > 0
    modifies store
    ensures r.Rejected? <==> !Supported(aig)
    ensures forall reason :: r == Rejected(reason) <==> RejectedFor(aig, reason)
    ensures r.Rejected? ==> store.size == old(store.size)
    ensures r.Made? ==>
              && r.context.Valid()
              && Alike(aig, r.context.aig)
              && (forall v :: v in LeafVars(r.context) + r.context.nexts.Vars() ==> old(store.size) <= v < store.size)
              && store.size >= old(store.size)
  {
    hide WellDefined, Acyclic, Aigs.Numbered, Alike, Unsafe, UnsafeIn, IsReencoding;
    if |aig.outputs| + |aig.bad| != 1 {
      return Rejected(NotOneProperty);
    }
    if |aig.fairness| > 0 || |aig.justice| > 0 {
      return Rejected(JusticeOrFairness);
    }
    if |aig.constraints| > 0 {
      return Rejected(Constraints);
    }
    var normal := Reencode(aig);
    var inputs := store.MakeRange(|normal.inputs|);
    var states := store.MakeRange(|normal.latches|);
    var nexts := store.MakeRange(|normal.latches|);
    var ands := store.MakeRange(|normal.ands|);
    r := Made(Context(normal, inputs, states, nexts, ands));
  }

  /**
   * Builds the transition system of a well-defined acyclic graph: it behaves
   * as the graph does, and its variables are new.
   */
  method BuildFromAiger(store: VariableStore, aig: Aig) returns (r: BuildResult)
    requires WellDefined(aig) && Acyclic(aig) && store.size > 0
    modifies store
    ensures r.Built? <==> Supported(aig)
    ensures forall reason :: r == NotBuilt(reason) <==> RejectedFor(aig, reason)
    ensures r.Built? ==>
              && r.system.WellFormed() && Represents(r.system, aig)
              && (r.system.Unsafe() <==> Aigs.Unsafe(aig))
              && (forall n :: r.system.UnsafeIn(n) <==> UnsafeIn(aig, n))
              && (forall v :: v in r.system.Vars() ==> old(store.size) <= v < store.size)
    ensures store.size >= old(store.size)
  {
    hide WellDefined, Context.Valid, Aigs.Unsafe, UnsafeIn, Represents, Alike;
    hide TransitionSystem.Unsafe, TransitionSystem.UnsafeIn, TransitionSystem.WellFormed;
    var made := MakeContext(store, aig);
    match made
    case Rejected(reason) =>
      r := NotBuilt(reason);
    case Made(ctx) =>
      var sys := BuildFromContext(ctx);
      assert sys.Vars() == LeafVars(ctx) + ctx.nexts.Vars();
      RepresentsAlike(sys, aig, ctx.aig);
      SameSafety(sys, aig);
      r := Built(sys);
  }
}
