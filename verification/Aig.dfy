/**
 * And-inverter graphs in the AIGER numbering (dep/aiger/aiger.h) and what they
 * compute. A literal is twice its variable, plus one if negated; variable 0 is
 * the constant false.
 */
module Aigs {

  datatype And = And(lhs: nat, rhs0: nat, rhs1: nat)

  datatype Latch = Latch(lit: nat, next: nat, reset: nat)

  datatype Aig = Aig(
    maxvar: nat,
    inputs: seq<nat>,
    latches: seq<Latch>,
    outputs: seq<nat>,
    bad: seq<nat>,
    ands: seq<And>,
    constraints: seq<nat>,
    justice: seq<seq<nat>>,
    fairness: seq<nat>)

  function Lit2Var(lit: nat): (v: nat) {
    lit / 2
  }

  function Var2Lit(v: nat): (lit: nat)
    ensures Lit2Var(lit) == v && lit % 2 == 0
  {
    2 * v
  }

  predicate Sign(lit: nat) {
    lit % 2 == 1
  }

  function Negated(lit: nat): (r: nat)
    ensures Lit2Var(r) == Lit2Var(lit) && Sign(r) != Sign(lit)
  {
    if lit % 2 == 0 then lit + 1 else lit - 1
  }

  // ------------------------------------------------------------------
  // Meaning
  // ------------------------------------------------------------------

  /** A valuation of all variables, given by the true ones. */
  type Valuation = set<nat>

  predicate LitHolds(val: Valuation, lit: nat) {
    (Lit2Var(lit) in val) != Sign(lit)
  }

  /** The valuation extends the latch and input values to all gates. */
  ghost predicate Simulates(aig: Aig, latches: set<nat>, inputs: set<nat>, val: Valuation) {
    && 0 !in val
    && (forall i :: 0 <= i < |aig.inputs| ==> (Lit2Var(aig.inputs[i]) in val <==> i in inputs))
    && (forall i :: 0 <= i < |aig.latches| ==> (Lit2Var(aig.latches[i].lit) in val <==> i in latches))
    && (forall k :: 0 <= k < |aig.ands| ==> GateHolds(aig, val, k))
  }

  /** The gate's variable is the conjunction of its inputs. */
  ghost predicate AndHolds(val: Valuation, conj: And) {
    Lit2Var(conj.lhs) in val <==> LitHolds(val, conj.rhs0) && LitHolds(val, conj.rhs1)
  }

  ghost predicate GateHolds(aig: Aig, val: Valuation, k: nat)
    requires k < |aig.ands|
  {
    AndHolds(val, aig.ands[k])
  }

  ghost predicate InitialLatches(aig: Aig, latches: set<nat>) {
    forall i :: 0 <= i < |aig.latches| ==>
      (aig.latches[i].reset == 0 ==> i !in latches) && (aig.latches[i].reset == 1 ==> i in latches)
  }

  /** The latch values after one step. */
  ghost function NextLatches(aig: Aig, val: Valuation): (r: set<nat>) {
    set i: nat | i < |aig.latches| && LitHolds(val, aig.latches[i].next)
  }

  /** The invariant constraints, which runs have to meet at every step. */
  ghost predicate ConstraintsHold(aig: Aig, val: Valuation) {
    forall lit :: lit in aig.constraints ==> LitHolds(val, lit)
  }

  /** Some property fails: an output or a bad literal is true. */
  ghost predicate PropertyFails(aig: Aig, val: Valuation) {
    exists lit :: (lit in aig.outputs || lit in aig.bad) && LitHolds(val, lit)
  }

  ghost predicate ReadsLatches(aig: Aig, latches: set<nat>) {
    forall i :: i in latches ==> i < |aig.latches|
  }

  ghost predicate ReadsInputs(aig: Aig, inputs: set<nat>) {
    forall i :: i in inputs ==> i < |aig.inputs|
  }

  ghost predicate Bad(aig: Aig, latches: set<nat>, inputs: set<nat>) {
    exists val :: Simulates(aig, latches, inputs, val) && ConstraintsHold(aig, val) && PropertyFails(aig, val)
  }

  ghost predicate Steps(aig: Aig, latches: set<nat>, inputs: set<nat>, latches': set<nat>) {
    exists val ::
      Simulates(aig, latches, inputs, val) && ConstraintsHold(aig, val) && latches' == NextLatches(aig, val)
  }

  /** Feeding the inputs one by one, the constraints hold throughout, and a property fails at the last one. */
  ghost predicate Violates(aig: Aig, latches: set<nat>, ys: seq<set<nat>>)
    decreases |ys|
  {
    if ys == [] then false
    else if |ys| == 1 then ReadsInputs(aig, ys[0]) && Bad(aig, latches, ys[0])
    else ReadsInputs(aig, ys[0]) && exists l' :: Steps(aig, latches, ys[0], l') && Violates(aig, l', ys[1..])
  }

  /** In some run from an initial state a property fails. */
  ghost predicate Unsafe(aig: Aig) {
    exists latches, ys :: ReadsLatches(aig, latches) && InitialLatches(aig, latches) && Violates(aig, latches, ys)
  }

  /** In some run from an initial state a property fails at its n-th input. */
  ghost predicate UnsafeIn(aig: Aig, n: nat) {
    exists latches, ys ::
      ReadsLatches(aig, latches) && InitialLatches(aig, latches) && |ys| == n && Violates(aig, latches, ys)
  }

  /** A set of latch values that proves safety. */
  ghost predicate InductiveInvariant(aig: Aig, inv: set<set<nat>>) {
    && (forall l :: ReadsLatches(aig, l) && InitialLatches(aig, l) ==> l in inv)
    && (forall l, y, l' :: l in inv && ReadsInputs(aig, y) && Steps(aig, l, y, l') ==> l' in inv)
    && (forall l, y :: l in inv && ReadsInputs(aig, y) ==> !Bad(aig, l, y))
  }

  /** Two graphs over the same latches and inputs start, step and fail alike. */
  ghost predicate Alike(aig: Aig, aig': Aig) {
    && |aig'.inputs| == |aig.inputs| && |aig'.latches| == |aig.latches|
    && |aig'.outputs| == |aig.outputs| && |aig'.bad| == |aig.bad|
    && (forall latches :: InitialLatches(aig', latches) <==> InitialLatches(aig, latches))
    && (forall latches, inputs, l :: Steps(aig', latches, inputs, l) <==> Steps(aig, latches, inputs, l))
    && (forall latches, inputs :: Bad(aig', latches, inputs) <==> Bad(aig, latches, inputs))
  }

  lemma {:induction false} AlikeViolates(aig: Aig, aig': Aig, latches: set<nat>, ys: seq<set<nat>>)
    requires Alike(aig, aig')
    ensures Violates(aig', latches, ys) <==> Violates(aig, latches, ys)
    decreases |ys|
  {
    hide InitialLatches, Steps, Bad;
    if |ys| > 1 {
      forall l {
        AlikeViolates(aig, aig', l, ys[1..]);
      }
    }
  }

  lemma AlikeToItself(aig: Aig)
    ensures Alike(aig, aig)
  {
  }

  lemma AlikeSafety(aig: Aig, aig': Aig)
    requires Alike(aig, aig')
    ensures Unsafe(aig') <==> Unsafe(aig)
    ensures forall n :: UnsafeIn(aig', n) <==> UnsafeIn(aig, n)
  {
    hide Violates, InitialLatches;
    forall latches, ys
      ensures Violates(aig', latches, ys) <==> Violates(aig, latches, ys)
    {
      AlikeViolates(aig, aig', latches, ys);
    }
    assert forall latches :: ReadsLatches(aig', latches) <==> ReadsLatches(aig, latches);
  }

  // ------------------------------------------------------------------
  // Well-defined and acyclic graphs
  // ------------------------------------------------------------------

  predicate IsInputVar(aig: Aig, v: nat) {
    exists i :: 0 <= i < |aig.inputs| && Lit2Var(aig.inputs[i]) == v
  }

  predicate IsLatchVar(aig: Aig, v: nat) {
    exists i :: 0 <= i < |aig.latches| && Lit2Var(aig.latches[i].lit) == v
  }

  predicate IsAndVar(aig: Aig, v: nat) {
    exists k :: 0 <= k < |aig.ands| && Lit2Var(aig.ands[k].lhs) == v
  }

  predicate Defined(aig: Aig, lit: nat) {
    var v := Lit2Var(lit);
    v == 0 || IsInputVar(aig, v) || IsLatchVar(aig, v) || IsAndVar(aig, v)
  }

  /** A positive literal of a variable in use. */
  predicate IsDefinition(aig: Aig, lit: nat) {
    lit % 2 == 0 && 1 <= Lit2Var(lit) <= aig.maxvar
  }

  /** No variable is defined twice. */
  ghost predicate DistinctDefinitions(aig: Aig) {
    && (forall i, j :: 0 <= i < j < |aig.inputs| ==> Lit2Var(aig.inputs[i]) != Lit2Var(aig.inputs[j]))
    && (forall i, j :: 0 <= i < j < |aig.latches| ==> Lit2Var(aig.latches[i].lit) != Lit2Var(aig.latches[j].lit))
    && (forall j, k :: 0 <= j < k < |aig.ands| ==> Lit2Var(aig.ands[j].lhs) != Lit2Var(aig.ands[k].lhs))
    && (forall v {:trigger IsInputVar(aig, v)} {:trigger IsLatchVar(aig, v)} {:trigger IsAndVar(aig, v)} ::
          && !(IsInputVar(aig, v) && IsLatchVar(aig, v))
          && !(IsInputVar(aig, v) && IsAndVar(aig, v))
          && !(IsLatchVar(aig, v) && IsAndVar(aig, v)))
  }

  ghost predicate AllDefined(aig: Aig, lits: seq<nat>) {
    forall i :: 0 <= i < |lits| ==> Defined(aig, lits[i])
  }

  ghost predicate RootsDefined(aig: Aig) {
    && (forall i :: 0 <= i < |aig.latches| ==>
          && Defined(aig, aig.latches[i].next)
          && aig.latches[i].reset in {0, 1, aig.latches[i].lit})
    && AllDefined(aig, aig.outputs) && AllDefined(aig, aig.bad)
    && AllDefined(aig, aig.constraints) && AllDefined(aig, aig.fairness)
    && (forall i :: 0 <= i < |aig.justice| ==> AllDefined(aig, aig.justice[i]))
  }

  /** What the library's checks establish, apart from acyclicity. */
  ghost predicate WellDefined(aig: Aig) {
    && (forall i :: 0 <= i < |aig.inputs| ==> IsDefinition(aig, aig.inputs[i]))
    && (forall i :: 0 <= i < |aig.latches| ==> IsDefinition(aig, aig.latches[i].lit))
    && (forall k :: 0 <= k < |aig.ands| ==>
          && IsDefinition(aig, aig.ands[k].lhs)
          && Defined(aig, aig.ands[k].rhs0) && Defined(aig, aig.ands[k].rhs1))
    && DistinctDefinitions(aig)
    && RootsDefined(aig)
  }

  /** Variable v is a gate and w is one of its inputs. */
  ghost predicate Edge(aig: Aig, v: nat, w: nat) {
    exists k :: 0 <= k < |aig.ands| && Lit2Var(aig.ands[k].lhs) == v
                && (w == Lit2Var(aig.ands[k].rhs0) || w == Lit2Var(aig.ands[k].rhs1))
  }

  /** The position of the gate that defines a variable. */
  function AndOf(aig: Aig, v: nat): (k: nat)
    requires DistinctDefinitions(aig) && IsAndVar(aig, v)
    ensures k < |aig.ands| && Lit2Var(aig.ands[k].lhs) == v
    ensures forall w: nat :: Edge(aig, v, w) <==> w == Lit2Var(aig.ands[k].rhs0) || w == Lit2Var(aig.ands[k].rhs1)
  {
    var k: nat :| k < |aig.ands| && Lit2Var(aig.ands[k].lhs) == v;
    k
  }

  ghost predicate Distinct(order: seq<nat>) {
    forall i, j :: 0 <= i < j < |order| ==> order[i] != order[j]
  }

  /** Every gate in the order comes after the gates it refers to. */
  ghost predicate ChildrenFirst(aig: Aig, order: seq<nat>) {
    forall i, w :: 0 <= i < |order| && Edge(aig, order[i], w) && IsAndVar(aig, w) ==> w in order[..i]
  }

  ghost predicate TopologicalOrder(aig: Aig, order: seq<nat>) {
    Distinct(order) && ChildrenFirst(aig, order) && forall v :: IsAndVar(aig, v) ==> v in order
  }

  ghost predicate Acyclic(aig: Aig) {
    exists order :: TopologicalOrder(aig, order)
  }

  // ------------------------------------------------------------------
  // An acyclic graph has exactly one valuation
  // ------------------------------------------------------------------

  ghost function LeafValues(aig: Aig, latches: set<nat>, inputs: set<nat>): Valuation {
    (set i: nat | i < |aig.inputs| && i in inputs :: Lit2Var(aig.inputs[i]))
    + (set i: nat | i < |aig.latches| && i in latches :: Lit2Var(aig.latches[i].lit))
  }

  ghost predicate GateTrue(aig: Aig, val: Valuation, v: nat) {
    exists k :: 0 <= k < |aig.ands| && Lit2Var(aig.ands[k].lhs) == v
                && LitHolds(val, aig.ands[k].rhs0) && LitHolds(val, aig.ands[k].rhs1)
  }

  /** Computes the gates one by one in the given order. */
  ghost function Evaluated(aig: Aig, latches: set<nat>, inputs: set<nat>, order: seq<nat>): Valuation
    decreases |order|
  {
    if order == [] then LeafValues(aig, latches, inputs)
    else
      var (last, before) := (order[|order| - 1], Evaluated(aig, latches, inputs, order[..|order| - 1]));
      if GateTrue(aig, before, last) then before + {last} else before
  }

  ghost predicate LeavesHold(aig: Aig, latches: set<nat>, inputs: set<nat>, val: Valuation) {
    && 0 !in val
    && (forall i :: 0 <= i < |aig.inputs| ==> (Lit2Var(aig.inputs[i]) in val <==> i in inputs))
    && (forall i :: 0 <= i < |aig.latches| ==> (Lit2Var(aig.latches[i].lit) in val <==> i in latches))
  }

  /** The leaves and the gates in the order have their values; no other gate is true. */
  ghost predicate SimulatesOrder(
    aig: Aig, latches: set<nat>, inputs: set<nat>, val: Valuation, order: seq<nat>)
  {
    && LeavesHold(aig, latches, inputs, val)
    && (forall v :: v in val && IsAndVar(aig, v) ==> v in order)
    && (forall k :: 0 <= k < |aig.ands| && Lit2Var(aig.ands[k].lhs) in order ==> GateHolds(aig, val, k))
  }

  /** A variable is a leaf's at most once, and no leaf is the constant or a gate. */
  lemma LeafIsUnique(aig: Aig, v: nat)
    requires WellDefined(aig)
    ensures forall i, j ::
              0 <= i < |aig.inputs| && 0 <= j < |aig.inputs|
              && Lit2Var(aig.inputs[i]) == v && Lit2Var(aig.inputs[j]) == v ==>
                i == j
    ensures forall i, j ::
              0 <= i < |aig.latches| && 0 <= j < |aig.latches|
              && Lit2Var(aig.latches[i].lit) == v && Lit2Var(aig.latches[j].lit) == v ==>
                i == j
    ensures !(IsInputVar(aig, v) && IsLatchVar(aig, v))
    ensures IsInputVar(aig, v) || IsLatchVar(aig, v) ==> v != 0 && !IsAndVar(aig, v)
    ensures IsAndVar(aig, v) ==> v != 0
  {
  }

  lemma LeafValuesHold(aig: Aig, latches: set<nat>, inputs: set<nat>)
    requires WellDefined(aig)
    ensures SimulatesOrder(aig, latches, inputs, LeafValues(aig, latches, inputs), [])
  {
    hide WellDefined, IsAndVar;
    var val := LeafValues(aig, latches, inputs);
    forall i | 0 <= i < |aig.inputs|
      ensures Lit2Var(aig.inputs[i]) in val <==> i in inputs
    {
      LeafIsUnique(aig, Lit2Var(aig.inputs[i]));
    }
    forall i | 0 <= i < |aig.latches|
      ensures Lit2Var(aig.latches[i].lit) in val <==> i in latches
    {
      LeafIsUnique(aig, Lit2Var(aig.latches[i].lit));
    }
    forall v | v in val
      ensures v != 0 && !IsAndVar(aig, v)
    {
      LeafIsUnique(aig, v);
    }
  }

  /** The last gate of an order is not among the inputs of the gates in it, nor a leaf. */
  lemma LastGateIsUnused(aig: Aig, order: seq<nat>, x: nat, k: nat)
    requires WellDefined(aig) && Distinct(order + [x]) && ChildrenFirst(aig, order + [x]) && IsAndVar(aig, x)
    requires k < |aig.ands| && Lit2Var(aig.ands[k].lhs) in order + [x]
    ensures Lit2Var(aig.ands[k].rhs0) != x && Lit2Var(aig.ands[k].rhs1) != x
  {
    var order' := order + [x];
    var y := Lit2Var(aig.ands[k].lhs);
    var i :| 0 <= i < |order'| && order'[i] == y;
    assert Edge(aig, y, Lit2Var(aig.ands[k].rhs0)) && Edge(aig, y, Lit2Var(aig.ands[k].rhs1));
    assert order'[|order|] == x && x !in order'[..i];
  }

  lemma NextGateSimulates(aig: Aig, latches: set<nat>, inputs: set<nat>, before: Valuation, order: seq<nat>, x: nat)
    requires WellDefined(aig) && Distinct(order + [x]) && ChildrenFirst(aig, order + [x])
    requires SimulatesOrder(aig, latches, inputs, before, order)
    ensures SimulatesOrder(
              aig, latches, inputs, if GateTrue(aig, before, x) then before + {x} else before, order + [x])
  {
    hide WellDefined, ChildrenFirst, Edge;
    var order' := order + [x];
    var val := if GateTrue(aig, before, x) then before + {x} else before;
    assert order'[|order|] == x;
    assert forall v :: v in order' <==> v in order || v == x;
    assert x !in order by {
      assert forall i :: 0 <= i < |order| ==> order'[i] == order[i] && order'[i] != order'[|order|];
    }
    if GateTrue(aig, before, x) {
      assert IsAndVar(aig, x);
      forall i | 0 <= i < |aig.inputs|
        ensures Lit2Var(aig.inputs[i]) != x
      {
        LeafIsUnique(aig, Lit2Var(aig.inputs[i]));
      }
      forall i | 0 <= i < |aig.latches|
        ensures Lit2Var(aig.latches[i].lit) != x
      {
        LeafIsUnique(aig, Lit2Var(aig.latches[i].lit));
      }
      LeafIsUnique(aig, x);
    }
    forall k | 0 <= k < |aig.ands| && Lit2Var(aig.ands[k].lhs) in order'
      ensures GateHolds(aig, val, k)
    {
      if IsAndVar(aig, x) {
        LastGateIsUnused(aig, order, x, k);
      }
      if Lit2Var(aig.ands[k].lhs) != x {
        assert GateHolds(aig, before, k);
      } else {
        GateIsTheOnly(aig, before, x, k);
      }
    }
  }

  /** The gate of a variable is true exactly if its inputs are. */
  lemma GateIsTheOnly(aig: Aig, val: Valuation, x: nat, k: nat)
    requires WellDefined(aig) && k < |aig.ands| && Lit2Var(aig.ands[k].lhs) == x
    ensures GateTrue(aig, val, x) <==> LitHolds(val, aig.ands[k].rhs0) && LitHolds(val, aig.ands[k].rhs1)
  {
  }

  lemma {:induction false} EvaluatedSimulates(aig: Aig, latches: set<nat>, inputs: set<nat>, order: seq<nat>)
    requires WellDefined(aig) && Distinct(order) && ChildrenFirst(aig, order)
    ensures SimulatesOrder(aig, latches, inputs, Evaluated(aig, latches, inputs, order), order)
    decreases |order|
  {
    if order == [] {
      LeafValuesHold(aig, latches, inputs);
    } else {
      var before := order[..|order| - 1];
      assert order == before + [order[|order| - 1]];
      assert forall i :: 0 <= i < |before| ==> before[i] == order[i] && before[..i] == order[..i];
      EvaluatedSimulates(aig, latches, inputs, before);
      NextGateSimulates(
        aig, latches, inputs, Evaluated(aig, latches, inputs, before), before, order[|order| - 1]);
    }
  }

  /** Two valuations of the same leaves agree on the gates of the order. */
  lemma {:induction false} SimulationsAgree(
    aig: Aig, latches: set<nat>, inputs: set<nat>, val: Valuation, val': Valuation, order: seq<nat>, n: nat)
    requires WellDefined(aig) && ChildrenFirst(aig, order) && n <= |order|
    requires Simulates(aig, latches, inputs, val) && Simulates(aig, latches, inputs, val')
    ensures forall v :: IsAndVar(aig, v) && v in order[..n] ==> (v in val <==> v in val')
  {
    if n > 0 {
      SimulationsAgree(aig, latches, inputs, val, val', order, n - 1);
      var v := order[n - 1];
      assert order[..n] == order[..n - 1] + [v];
      if IsAndVar(aig, v) {
        var k :| 0 <= k < |aig.ands| && Lit2Var(aig.ands[k].lhs) == v;
        assert GateHolds(aig, val, k) && GateHolds(aig, val', k);
        var w0, w1 := Lit2Var(aig.ands[k].rhs0), Lit2Var(aig.ands[k].rhs1);
        assert Edge(aig, v, w0) && Edge(aig, v, w1);
        assert w0 in val <==> w0 in val';
        assert w1 in val <==> w1 in val';
      }
    }
  }

  /** An acyclic graph has exactly one valuation, up to variables it does not use. */
  lemma SimulationIsUnique(
    aig: Aig, latches: set<nat>, inputs: set<nat>, val: Valuation, val': Valuation, lit: nat)
    requires WellDefined(aig) && Acyclic(aig)
    requires Simulates(aig, latches, inputs, val) && Simulates(aig, latches, inputs, val')
    requires Defined(aig, lit)
    ensures Lit2Var(lit) in val <==> Lit2Var(lit) in val'
    ensures LitHolds(val, lit) <==> LitHolds(val', lit)
  {
    var order :| TopologicalOrder(aig, order);
    SimulationsAgree(aig, latches, inputs, val, val', order, |order|);
    assert order[..|order|] == order;
  }

  /** The one valuation of an acyclic graph. */
  ghost function Values(aig: Aig, latches: set<nat>, inputs: set<nat>): (val: Valuation)
    requires WellDefined(aig) && Acyclic(aig)
    ensures Simulates(aig, latches, inputs, val)
  {
    var order :| TopologicalOrder(aig, order);
    EvaluatedSimulates(aig, latches, inputs, order);
    var val := Evaluated(aig, latches, inputs, order);
    assert forall k :: 0 <= k < |aig.ands| ==> IsAndVar(aig, Lit2Var(aig.ands[k].lhs));
    val
  }

  lemma ValuesDecideSteps(aig: Aig, latches: set<nat>, inputs: set<nat>, latches': set<nat>)
    requires WellDefined(aig) && Acyclic(aig)
    ensures Steps(aig, latches, inputs, latches') <==>
            && ConstraintsHold(aig, Values(aig, latches, inputs))
            && latches' == NextLatches(aig, Values(aig, latches, inputs))
  {
    hide WellDefined, Acyclic, Defined;
    var val := Values(aig, latches, inputs);
    forall w | Simulates(aig, latches, inputs, w)
      ensures NextLatches(aig, w) == NextLatches(aig, val)
      ensures ConstraintsHold(aig, w) <==> ConstraintsHold(aig, val)
    {
      SameRootValues(aig, latches, inputs, w, val);
    }
  }

  lemma ValuesDecideBad(aig: Aig, latches: set<nat>, inputs: set<nat>)
    requires WellDefined(aig) && Acyclic(aig)
    ensures Bad(aig, latches, inputs) <==>
            && ConstraintsHold(aig, Values(aig, latches, inputs))
            && PropertyFails(aig, Values(aig, latches, inputs))
  {
    hide WellDefined, Acyclic, Defined, PropertyFails, ConstraintsHold;
    var val := Values(aig, latches, inputs);
    forall w | Simulates(aig, latches, inputs, w)
      ensures ConstraintsHold(aig, w) <==> ConstraintsHold(aig, val)
      ensures PropertyFails(aig, w) <==> PropertyFails(aig, val)
    {
      SameRootValues(aig, latches, inputs, w, val);
    }
  }

  /** All valuations of the same latches and inputs agree on the roots. */
  lemma SameRootValues(aig: Aig, latches: set<nat>, inputs: set<nat>, val: Valuation, val': Valuation)
    requires WellDefined(aig) && Acyclic(aig)
    requires Simulates(aig, latches, inputs, val) && Simulates(aig, latches, inputs, val')
    ensures NextLatches(aig, val) == NextLatches(aig, val')
    ensures ConstraintsHold(aig, val) <==> ConstraintsHold(aig, val')
    ensures PropertyFails(aig, val) <==> PropertyFails(aig, val')
  {
    forall lit | Defined(aig, lit)
      ensures LitHolds(val, lit) <==> LitHolds(val', lit)
    {
      SimulationIsUnique(aig, latches, inputs, val, val', lit);
    }
    hide WellDefined, Acyclic, Defined, Simulates, LitHolds;
    ListedAreDefined(aig);
  }

  lemma ListedAreDefined(aig: Aig)
    requires WellDefined(aig)
    ensures forall i :: 0 <= i < |aig.latches| ==> Defined(aig, aig.latches[i].next)
    ensures forall lit :: lit in aig.constraints || lit in aig.outputs || lit in aig.bad ==> Defined(aig, lit)
  {
  }

  // ------------------------------------------------------------------
  // Graphs in normal form
  // ------------------------------------------------------------------

  function FirstLatch(aig: Aig): nat {
    |aig.inputs| + 1
  }

  function FirstAnd(aig: Aig): nat {
    |aig.inputs| + |aig.latches| + 1
  }

  function LastVar(aig: Aig): nat {
    |aig.inputs| + |aig.latches| + |aig.ands|
  }

  predicate InRange(aig: Aig, lit: nat) {
    Lit2Var(lit) <= LastVar(aig)
  }

  /**
   * What the library's own test for the normal form decides: inputs, then
   * latches, then gates are numbered consecutively, and the literals of a
   * gate do not grow. It lets a gate refer to itself.
   */
  predicate Numbered(aig: Aig) {
    && (forall i :: 0 <= i < |aig.inputs| ==> aig.inputs[i] == Var2Lit(i + 1))
    && (forall i :: 0 <= i < |aig.latches| ==> aig.latches[i].lit == Var2Lit(FirstLatch(aig) + i))
    && (forall k :: 0 <= k < |aig.ands| ==>
          && aig.ands[k].lhs == Var2Lit(FirstAnd(aig) + k)
          && aig.ands[k].lhs >= aig.ands[k].rhs0 >= aig.ands[k].rhs1)
  }

  /** The normal form: every gate refers to smaller literals only. */
  ghost predicate Ordered(aig: Aig) {
    && Numbered(aig)
    && (forall k :: 0 <= k < |aig.ands| ==> aig.ands[k].lhs > aig.ands[k].rhs0)
    && WellDefined(aig)
  }

  lemma NumberedVars(aig: Aig, v: nat)
    requires Numbered(aig)
    ensures IsInputVar(aig, v) <==> 1 <= v < FirstLatch(aig)
    ensures IsLatchVar(aig, v) <==> FirstLatch(aig) <= v < FirstAnd(aig)
    ensures IsAndVar(aig, v) <==> FirstAnd(aig) <= v <= LastVar(aig)
  {
    if 1 <= v < FirstLatch(aig) {
      assert Lit2Var(aig.inputs[v - 1]) == v;
    }
    if FirstLatch(aig) <= v < FirstAnd(aig) {
      assert Lit2Var(aig.latches[v - FirstLatch(aig)].lit) == v;
    }
    if FirstAnd(aig) <= v <= LastVar(aig) {
      assert Lit2Var(aig.ands[v - FirstAnd(aig)].lhs) == v;
    }
  }

  lemma NumberedDefined(aig: Aig, lit: nat)
    requires Numbered(aig)
    ensures Defined(aig, lit) <==> InRange(aig, lit)
  {
    NumberedVars(aig, Lit2Var(lit));
  }

  ghost function Consecutive(from: nat, n: nat): (r: seq<nat>)
    ensures |r| == n && forall k :: 0 <= k < n ==> r[k] == from + k
  {
    if n == 0 then [] else Consecutive(from, n - 1) + [from + (n - 1)]
  }

  /** The gates of a graph in normal form are a topological order of it. */
  lemma OrderedIsAcyclic(aig: Aig)
    requires Ordered(aig)
    ensures Acyclic(aig)
  {
    var order := Consecutive(FirstAnd(aig), |aig.ands|);
    forall v: nat
      ensures IsAndVar(aig, v) ==> v in order
    {
      NumberedVars(aig, v);
      if IsAndVar(aig, v) {
        assert order[v - FirstAnd(aig)] == v;
      }
    }
    forall i: nat, w: nat | i < |order| && Edge(aig, order[i], w) && IsAndVar(aig, w)
      ensures w in order[..i]
    {
      NumberedVars(aig, w);
      assert w < order[i];
      assert order[..i][w - FirstAnd(aig)] == w;
    }
    assert TopologicalOrder(aig, order);
  }

  /** The library's test decides the normal form exactly if the graph has no cycle. */
  lemma NumberedIsOrdered(aig: Aig)
    requires Numbered(aig) && WellDefined(aig)
    ensures Ordered(aig) <==> Acyclic(aig)
  {
    if Ordered(aig) {
      OrderedIsAcyclic(aig);
    }
    if Acyclic(aig) {
      AcyclicIsOrdered(aig);
    }
  }

  lemma AcyclicIsOrdered(aig: Aig)
    requires Numbered(aig) && WellDefined(aig) && Acyclic(aig)
    ensures Ordered(aig)
  {
    var order :| TopologicalOrder(aig, order);
    forall k | 0 <= k < |aig.ands|
      ensures aig.ands[k].lhs > aig.ands[k].rhs0
    {
      var v := Lit2Var(aig.ands[k].lhs);
      assert IsAndVar(aig, v);
      var i :| 0 <= i < |order| && order[i] == v;
      assert v !in order[..i];
      assert !Edge(aig, v, v);
      assert Lit2Var(aig.ands[k].rhs0) != v;
    }
  }

  /** A gate that refers to itself passes the test. */
  lemma SelfLoopIsNumbered()
    ensures exists aig :: Numbered(aig) && WellDefined(aig) && !Ordered(aig)
  {
    var aig := Aig(1, [], [], [], [], [And(2, 2, 2)], [], [], []);
    assert aig.ands[0].lhs == 2;
    assert IsAndVar(aig, 1);
    assert Numbered(aig) && WellDefined(aig) && !Ordered(aig);
  }
}
