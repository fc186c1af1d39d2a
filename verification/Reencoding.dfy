/**
 * Renumbering of an and-inverter graph into the normal form that the
 * translation depends on (dep/aiger/aiger.c). Inputs come first, then latches,
 * then the gates in the cones of the roots, each after the gates it uses.
 */
module Reencoding {
  import opened Aigs
  import opened DepthFirst
  import opened Numbering

  // ------------------------------------------------------------------
  // The numbering
  // ------------------------------------------------------------------

  ghost function NumLeaves(aig: Aig): nat {
    |aig.inputs| + |aig.latches|
  }

  ghost predicate LeavesFirst(aig: Aig, order: seq<nat>) {
    && NumLeaves(aig) <= |order|
    && (forall i :: 0 <= i < |aig.inputs| ==> order[i] == Lit2Var(aig.inputs[i]))
    && (forall i :: 0 <= i < |aig.latches| ==> order[|aig.inputs| + i] == Lit2Var(aig.latches[i].lit))
    && (forall i :: NumLeaves(aig) <= i < |order| ==> IsAndVar(aig, order[i]))
  }

  /** The variables that have a number, and the constant. */
  ghost function Settled(order: seq<nat>): (r: set<nat>)
    ensures forall v :: v in r <==> v == 0 || v in order
  {
    {0} + set v | v in order
  }

  /** Every input of a gate has its number before the gate gets one. */
  ghost predicate InputsFirst(aig: Aig, order: seq<nat>) {
    forall i, w :: 0 <= i < |order| && Edge(aig, order[i], w) ==> w in Settled(order[..i])
  }

  /** The table of new literals gives the i-th variable of the order the number i + 1, and others none. */
  ghost predicate CodeMatches(aig: Aig, code: seq<nat>, order: seq<nat>) {
    && |code| == 2 * (aig.maxvar + 1) && code[0] == 0 && code[1] == 1
    && (forall i :: 0 <= i < |order| ==>
          && 1 <= order[i] <= aig.maxvar
          && code[2 * order[i]] == 2 * (i + 1) && code[2 * order[i] + 1] == 2 * (i + 1) + 1)
    && (forall v: nat :: 1 <= v <= aig.maxvar && v !in order ==> code[2 * v] == 0 && code[2 * v + 1] == 0)
  }

  ghost predicate OrderOk(aig: Aig, order: seq<nat>) {
    LeavesFirst(aig, order) && InputsFirst(aig, order)
  }

  /** The literal of the numbering for a literal of the graph. */
  ghost predicate Renames(order: seq<nat>, lit: nat, res: nat) {
    if lit < 2 then res == lit
    else exists i :: 0 <= i < |order| && order[i] == Lit2Var(lit) && res == 2 * (i + 1) + lit % 2
  }

  lemma RenamesLater(order: seq<nat>, order': seq<nat>, lit: nat, res: nat)
    requires Renames(order, lit, res) && order <= order'
    ensures Renames(order', lit, res)
  {
    if lit >= 2 {
      var i :| 0 <= i < |order| && order[i] == Lit2Var(lit) && res == 2 * (i + 1) + lit % 2;
      assert order'[i] == Lit2Var(lit);
    }
  }

  /** The table holds the new literal of everything that has a number. */
  lemma CodeRenames(aig: Aig, code: seq<nat>, order: seq<nat>, lit: nat)
    requires CodeMatches(aig, code, order) && lit < |code| && Lit2Var(lit) in Settled(order)
    ensures Renames(order, lit, code[lit])
    ensures code[lit] == 0 <==> lit == 0
  {
    if lit >= 2 {
      var i :| 0 <= i < |order| && order[i] == Lit2Var(lit);
      assert lit == 2 * order[i] || lit == 2 * order[i] + 1;
    }
  }

  lemma OrderIsDistinct(aig: Aig, code: seq<nat>, order: seq<nat>)
    requires CodeMatches(aig, code, order)
    ensures Distinct(order)
  {
    forall i, j | 0 <= i < j < |order|
      ensures order[i] != order[j]
    {
      assert code[2 * order[i]] == 2 * (i + 1) && code[2 * order[j]] == 2 * (j + 1);
    }
  }

  lemma NumberOneMore(aig: Aig, code: seq<nat>, order: seq<nat>, v: nat)
    requires CodeMatches(aig, code, order) && 1 <= v <= aig.maxvar && v !in order
    ensures var n := 2 * (|order| + 1);
            CodeMatches(aig, code[2 * v := n][2 * v + 1 := n + 1], order + [v])
  {
    var order' := order + [v];
    var n := 2 * (|order| + 1);
    var code' := code[2 * v := n][2 * v + 1 := n + 1];
    forall i | 0 <= i < |order'|
      ensures 1 <= order'[i] <= aig.maxvar
      ensures code'[2 * order'[i]] == 2 * (i + 1) && code'[2 * order'[i] + 1] == 2 * (i + 1) + 1
    {
      if i < |order| {
        assert order[i] in order;
      }
    }
    forall w: nat | 1 <= w <= aig.maxvar && w !in order'
      ensures code'[2 * w] == 0 && code'[2 * w + 1] == 0
    {
      assert w != v by {
        assert order'[|order|] == v;
      }
      assert w !in order;
    }
  }

  lemma GateComesNext(aig: Aig, order: seq<nat>, v: nat)
    requires OrderOk(aig, order) && IsAndVar(aig, v)
    requires forall w {:trigger Edge(aig, v, w)} :: Edge(aig, v, w) ==> w in Settled(order)
    ensures OrderOk(aig, order + [v]) && Settled(order + [v]) == Settled(order) + {v}
  {
    var order' := order + [v];
    forall i, w | 0 <= i < |order'| && Edge(aig, order'[i], w)
      ensures w in Settled(order'[..i])
    {
      if i < |order| {
        assert order'[..i] == order[..i];
      } else {
        assert order'[..i] == order;
      }
    }
  }

  // ------------------------------------------------------------------
  // Roots and their cones
  // ------------------------------------------------------------------

  ghost predicate IsRoot(aig: Aig, lit: nat) {
    || (exists i :: 0 <= i < |aig.latches| && (lit == aig.latches[i].next || lit == aig.latches[i].reset))
    || lit in aig.outputs || lit in aig.bad || lit in aig.constraints || lit in aig.fairness
    || (exists i :: 0 <= i < |aig.justice| && lit in aig.justice[i])
  }

  ghost predicate InCone(aig: Aig, v: nat) {
    exists lit :: IsRoot(aig, lit) && Reaches(aig, Lit2Var(lit), v)
  }

  ghost predicate GatesInCone(aig: Aig, order: seq<nat>) {
    forall i :: NumLeaves(aig) <= i < |order| ==> InCone(aig, order[i])
  }

  lemma RootIsDefined(aig: Aig, lit: nat)
    requires WellDefined(aig) && IsRoot(aig, lit)
    ensures Defined(aig, lit)
  {
    if i :| 0 <= i < |aig.latches| && (lit == aig.latches[i].next || lit == aig.latches[i].reset) {
      assert IsLatchVar(aig, Lit2Var(aig.latches[i].lit));
    } else if lit in aig.outputs {
      var i :| 0 <= i < |aig.outputs| && aig.outputs[i] == lit;
    } else if lit in aig.bad {
      var i :| 0 <= i < |aig.bad| && aig.bad[i] == lit;
    } else if lit in aig.constraints {
      var i :| 0 <= i < |aig.constraints| && aig.constraints[i] == lit;
    } else if lit in aig.fairness {
      var i :| 0 <= i < |aig.fairness| && aig.fairness[i] == lit;
    } else {
      var i :| 0 <= i < |aig.justice| && lit in aig.justice[i];
      var j :| 0 <= j < |aig.justice[i]| && aig.justice[i][j] == lit;
      assert AllDefined(aig, aig.justice[i]);
    }
  }

  /** A path from a numbered variable stays among the numbered ones. */
  lemma {:induction false} PathStaysNumbered(aig: Aig, order: seq<nat>, p: seq<nat>, i: nat)
    requires InputsFirst(aig, order) && Path(aig, p) && i < |p| && p[0] in Settled(order) && !IsAndVar(aig, 0)
    ensures p[i] in Settled(order)
  {
    if i > 0 {
      PathStaysNumbered(aig, order, p, i - 1);
      assert Edge(aig, p[i - 1], p[i - 1 + 1]);
      assert IsAndVar(aig, p[i - 1]);
      var j :| 0 <= j < |order| && order[j] == p[i - 1];
      assert Settled(order[..j]) <= Settled(order);
    }
  }

  // ------------------------------------------------------------------
  // The search that hands out numbers
  // ------------------------------------------------------------------

  ghost predicate OnstackIs(aig: Aig, onstack: seq<bool>, open: seq<nat>) {
    |onstack| == aig.maxvar + 1 && forall v: nat :: v <= aig.maxvar ==> (onstack[v] <==> v in open)
  }

  /** Entries are gates in the cone of the search's root. */
  ghost predicate EntriesOk(aig: Aig, root: nat, stack: seq<nat>) {
    forall i :: 0 <= i < |stack| && stack[i] != 0 ==> IsAndVar(aig, stack[i]) && Reaches(aig, root, stack[i])
  }

  ghost function Waiting(aig: Aig, open: seq<nat>, order: seq<nat>): (r: set<nat>)
    ensures forall v: nat :: v in r <==> v <= aig.maxvar && v !in open && v !in order
  {
    set v: nat | v <= aig.maxvar && v !in open && v !in order
  }

  lemma GateBounds(aig: Aig, v: nat)
    requires WellDefined(aig) && IsAndVar(aig, v)
    ensures 1 <= v <= aig.maxvar
  {
    assert IsDefinition(aig, aig.ands[AndOf(aig, v)].lhs);
  }

  /** Inputs of a gate that may still need a number; the larger variable first. */
  function PendingInputs(aig: Aig, onstack: seq<bool>, v: nat): (ws: seq<nat>)
    requires WellDefined(aig) && IsAndVar(aig, v) && |onstack| == aig.maxvar + 1
    ensures forall w: nat :: w in ws <==> Edge(aig, v, w) && IsAndVar(aig, w) && !onstack[w]
    ensures forall w :: w in ws ==> w != 0
    ensures forall i :: 0 <= i < |ws| ==> ws[i] in ws
    ensures var (larger, smaller) := Children(aig, v);
            ws == (if IsAndVar(aig, larger) && !onstack[larger] then [larger] else [])
                  + (if IsAndVar(aig, smaller) && !onstack[smaller] then [smaller] else [])
  {
    var conj := aig.ands[AndOf(aig, v)];
    var (child0, child1) := Children(aig, v);
    assert Defined(aig, conj.rhs0) && Defined(aig, conj.rhs1);
    var ws :=
      (if child0 != 0 && !IsInputVar(aig, child0) && !IsLatchVar(aig, child0) && !onstack[child0] then [child0] else [])
      + (if child1 != 0 && !IsInputVar(aig, child1) && !IsLatchVar(aig, child1) && !onstack[child1] then [child1]
         else []);
    ws
  }

  lemma StartCone(aig: Aig, root: nat, order: seq<nat>)
    requires WellDefined(aig) && IsAndVar(aig, root)
    ensures SearchInvariant(aig, [root], Settled(order)) && EntriesOk(aig, root, [root])
    ensures Opened([root]) == [] && Opened([]) == [] && root != 0
  {
    assert Pop([root]) == [];
    GateBounds(aig, root);
    ReachesSelf(aig, root);
  }

  /** Every input of the entry on top has a number or is among the pending ones. */
  lemma InputsAccounted(aig: Aig, stack: seq<nat>, order: seq<nat>, onstack: seq<bool>)
    requires WellDefined(aig) && !Cyclic(aig) && OrderOk(aig, order)
    requires |stack| > 0 && Top(stack) != 0 && SearchInvariant(aig, stack, Settled(order))
    requires IsAndVar(aig, Top(stack)) && OnstackIs(aig, onstack, Opened(stack) + [Top(stack)])
    ensures forall w: nat {:trigger Edge(aig, Top(stack), w)} :: Edge(aig, Top(stack), w) ==>
              w in Settled(order) || w in PendingInputs(aig, onstack, Top(stack))
  {
    hide SearchInvariant, Cyclic, InputsFirst;
    var v := Top(stack);
    var conj := aig.ands[AndOf(aig, v)];
    assert Defined(aig, conj.rhs0) && Defined(aig, conj.rhs1);
    forall w: nat | Edge(aig, v, w)
      ensures w in Settled(order) || w in PendingInputs(aig, onstack, v)
    {
      if IsAndVar(aig, w) {
        GateBounds(aig, w);
        if w in Opened(stack) + [v] {
          OpenInputIsCycle(aig, stack, Settled(order), w);
        }
      } else {
        LeafHasNumber(aig, order, w);
      }
    }
  }

  /** Opening a gate does not change where the search will end. */
  lemma FinishPending(aig: Aig, stack: seq<nat>, order: seq<nat>, onstack: seq<bool>)
    requires WellDefined(aig) && |stack| > 0 && Top(stack) != 0 && IsAndVar(aig, Top(stack))
    requires Top(stack) !in order && Top(stack) !in Opened(stack)
    requires OnstackIs(aig, onstack, Opened(stack) + [Top(stack)])
    ensures Finish(aig, stack + [0] + PendingInputs(aig, onstack, Top(stack)), order) == Finish(aig, stack, order)
  {
    hide Finish;
    var (larger, smaller) := Children(aig, Top(stack));
    if IsAndVar(aig, larger) {
      GateBounds(aig, larger);
    }
    if IsAndVar(aig, smaller) {
      GateBounds(aig, smaller);
    }
    NoGateIsConstant(aig);
    FinishOpen(aig, stack, order, PendingInputs(aig, onstack, Top(stack)));
  }

  lemma NoGateIsConstant(aig: Aig)
    requires WellDefined(aig)
    ensures !IsAndVar(aig, 0)
  {
    if IsAndVar(aig, 0) {
      GateBounds(aig, 0);
    }
  }

  lemma InputsAreEntries(aig: Aig, root: nat, stack: seq<nat>, onstack: seq<bool>)
    requires WellDefined(aig) && EntriesOk(aig, root, stack) && |stack| > 0 && Top(stack) != 0
    requires |onstack| == aig.maxvar + 1
    ensures EntriesOk(aig, root, stack + [0] + PendingInputs(aig, onstack, Top(stack)))
  {
    hide WellDefined, Reaches;
    var ws := PendingInputs(aig, onstack, Top(stack));
    forall i | 0 <= i < |ws|
      ensures IsAndVar(aig, ws[i]) && Reaches(aig, root, ws[i])
    {
      ReachesMore(aig, root, Top(stack), ws[i]);
    }
  }

  lemma LeafHasNumber(aig: Aig, order: seq<nat>, v: nat)
    requires LeavesFirst(aig, order) && (v == 0 || IsInputVar(aig, v) || IsLatchVar(aig, v))
    ensures v in Settled(order)
  {
    if i :| 0 <= i < |aig.inputs| && Lit2Var(aig.inputs[i]) == v {
      assert order[i] == v;
    } else if i :| 0 <= i < |aig.latches| && Lit2Var(aig.latches[i].lit) == v {
      assert order[|aig.inputs| + i] == v;
    }
  }

  lemma OnstackPush(aig: Aig, onstack: seq<bool>, open: seq<nat>, v: nat)
    requires OnstackIs(aig, onstack, open) && v <= aig.maxvar
    ensures OnstackIs(aig, onstack[v := true], open + [v])
  {
  }

  lemma OnstackPop(aig: Aig, onstack: seq<bool>, open: seq<nat>, v: nat)
    requires OnstackIs(aig, onstack, open + [v]) && v <= aig.maxvar && v !in open
    ensures OnstackIs(aig, onstack[v := false], open)
  {
    assert v in open + [v];
    assert forall w :: w in open + [v] <==> w in open || w == v;
  }

  lemma EntryOk(aig: Aig, root: nat, stack: seq<nat>)
    requires WellDefined(aig) && EntriesOk(aig, root, stack) && |stack| > 0 && Top(stack) != 0
    ensures 1 <= Top(stack) <= aig.maxvar && IsAndVar(aig, Top(stack)) && Reaches(aig, root, Top(stack))
  {
    GateBounds(aig, Top(stack));
  }

  lemma EntriesBelow(aig: Aig, root: nat, stack: seq<nat>)
    requires EntriesOk(aig, root, stack) && |stack| > 0
    ensures EntriesOk(aig, root, Pop(stack))
  {
  }

  lemma CodeTells(aig: Aig, code: seq<nat>, order: seq<nat>, v: nat)
    requires CodeMatches(aig, code, order) && 1 <= v <= aig.maxvar
    ensures |code| == 2 * (aig.maxvar + 1)
    ensures code[Var2Lit(v)] != 0 <==> v in Settled(order)
    ensures v in order <==> v in Settled(order)
  {
  }

  lemma OnstackTells(aig: Aig, onstack: seq<bool>, open: seq<nat>, v: nat)
    requires OnstackIs(aig, onstack, open) && v <= aig.maxvar
    ensures |onstack| == aig.maxvar + 1
    ensures onstack[v] <==> v in open
  {
  }

  lemma ConeGrows(aig: Aig, order: seq<nat>, root: nat, v: nat)
    requires GatesInCone(aig, order) && InCone(aig, root) && Reaches(aig, root, v)
    ensures GatesInCone(aig, order + [v])
  {
    var lit :| IsRoot(aig, lit) && Reaches(aig, Lit2Var(lit), root);
    ReachesTransitive(aig, Lit2Var(lit), root, v);
    assert InCone(aig, v);
  }

  // ------------------------------------------------------------------
  // Rewriting the gates in place
  // ------------------------------------------------------------------

  ghost predicate GatesFit(ands: seq<And>, code: seq<nat>) {
    forall m :: 0 <= m < |ands| ==> ands[m].lhs < |code| && ands[m].rhs0 < |code| && ands[m].rhs1 < |code|
  }

  /** A gate under the new numbering, the larger input first. */
  function RewriteGate(code: seq<nat>, conj: And): And
    requires conj.lhs < |code| && conj.rhs0 < |code| && conj.rhs1 < |code|
  {
    var (rhs0, rhs1) := (code[conj.rhs0], code[conj.rhs1]);
    if rhs0 < rhs1 then And(code[conj.lhs], rhs1, rhs0) else And(code[conj.lhs], rhs0, rhs1)
  }

  /** Drops the gates without a number and rewrites the others. */
  ghost function Rewritten(ands: seq<And>, code: seq<nat>): (r: seq<And>)
    requires GatesFit(ands, code)
    ensures |r| <= |ands|
  {
    if ands == [] then []
    else
      var conj := ands[|ands| - 1];
      Rewritten(ands[..|ands| - 1], code) + if code[conj.lhs] == 0 then [] else [RewriteGate(code, conj)]
  }

  lemma NothingRewritten(code: seq<nat>)
    ensures Rewritten([], code) == []
  {
  }

  lemma OneMoreRewritten(ands: seq<And>, code: seq<nat>, i: nat)
    requires GatesFit(ands, code) && i < |ands|
    ensures Rewritten(ands[..i + 1], code) ==
            Rewritten(ands[..i], code) + if code[ands[i].lhs] == 0 then [] else [RewriteGate(code, ands[i])]
  {
    assert ands[..i + 1][..i] == ands[..i];
  }

  lemma {:induction false} RewrittenMembers(ands: seq<And>, code: seq<nat>)
    requires GatesFit(ands, code)
    ensures forall a :: a in Rewritten(ands, code) <==>
                        exists m :: 0 <= m < |ands| && code[ands[m].lhs] != 0 && a == RewriteGate(code, ands[m])
  {
    if ands != [] {
      var init := ands[..|ands| - 1];
      RewrittenMembers(init, code);
      forall a: And
        ensures a in Rewritten(ands, code) <==>
                exists m :: 0 <= m < |ands| && code[ands[m].lhs] != 0 && a == RewriteGate(code, ands[m])
      {
        if m :| 0 <= m < |ands| && code[ands[m].lhs] != 0 && a == RewriteGate(code, ands[m]) {
          if m < |init| {
            assert init[m] == ands[m];
            assert a in Rewritten(init, code);
          }
        }
        if a in Rewritten(init, code) {
          var m :| 0 <= m < |init| && code[init[m].lhs] != 0 && a == RewriteGate(code, init[m]);
          assert ands[m] == init[m];
        }
      }
    }
  }

  ghost predicate DistinctLhs(ands: seq<And>) {
    forall j, k :: 0 <= j < k < |ands| ==> ands[j].lhs != ands[k].lhs
  }

  /** The table gives different gates different numbers, so the rewritten ones stay apart. */
  lemma {:induction false} RewrittenDistinct(ands: seq<And>, code: seq<nat>)
    requires GatesFit(ands, code)
    requires forall j, k :: 0 <= j < k < |ands| ==>
               code[ands[j].lhs] != code[ands[k].lhs] || code[ands[k].lhs] == 0
    ensures DistinctLhs(Rewritten(ands, code))
  {
    if ands != [] {
      var init, conj := ands[..|ands| - 1], ands[|ands| - 1];
      RewrittenDistinct(init, code);
      RewrittenMembers(init, code);
      var r := Rewritten(init, code);
      forall j | 0 <= j < |r| && code[conj.lhs] != 0
        ensures r[j].lhs != code[conj.lhs]
      {
        assert r[j] in r;
        var m :| 0 <= m < |init| && code[init[m].lhs] != 0 && r[j] == RewriteGate(code, init[m]);
        assert init[m] == ands[m];
      }
    }
  }

  ghost predicate Ascending(ands: seq<And>) {
    forall j, k :: 0 <= j < k < |ands| ==> ands[j].lhs < ands[k].lhs
  }

  function InsertByLhs(a: And, ands: seq<And>): (r: seq<And>)
    requires Ascending(ands) && forall k :: 0 <= k < |ands| ==> ands[k].lhs != a.lhs
    ensures Ascending(r) && |r| == |ands| + 1
    ensures forall x :: x in r <==> x in ands || x == a
  {
    if ands == [] || a.lhs < ands[0].lhs then
      [a] + ands
    else
      var t := InsertByLhs(a, ands[1..]);
      var r := [ands[0]] + t;
      assert forall x :: x in ands <==> x == ands[0] || x in ands[1..];
      assert forall k :: 0 <= k < |t| ==> t[k] in t;
      r
  }

  /** The gates sorted by their left-hand sides. */
  function SortByLhs(ands: seq<And>): (r: seq<And>)
    requires DistinctLhs(ands)
    ensures Ascending(r) && |r| == |ands|
    ensures forall x :: x in r <==> x in ands
  {
    if ands == [] then []
    else
      var t := SortByLhs(ands[1..]);
      assert forall k :: 0 <= k < |t| ==> t[k] in t;
      assert forall x :: x in ands <==> x == ands[0] || x in ands[1..];
      InsertByLhs(ands[0], t)
  }

  ghost predicate HasLhs(ands: seq<And>, v: nat) {
    exists j :: 0 <= j < |ands| && ands[j].lhs == Var2Lit(v)
  }

  /** Ascending left-hand sides that are exactly the literals of the variables first + 1 to last. */
  ghost predicate LhsAreBetween(ands: seq<And>, first: nat, last: nat) {
    && Ascending(ands)
    && (forall j :: 0 <= j < |ands| ==> ands[j].lhs % 2 == 0 && first < Lit2Var(ands[j].lhs) <= last)
    && (forall v: nat :: first < v <= last ==> HasLhs(ands, v))
  }

  lemma {:induction false} NoGaps(ands: seq<And>, first: nat, last: nat, k: nat)
    requires LhsAreBetween(ands, first, last) && k < |ands|
    ensures ands[k].lhs == Var2Lit(first + 1 + k)
  {
    if k > 0 {
      NoGaps(ands, first, last, k - 1);
    }
    assert first + 1 + k <= Lit2Var(ands[k].lhs);
    assert HasLhs(ands, first + 1 + k);
    var j :| 0 <= j < |ands| && ands[j].lhs == Var2Lit(first + 1 + k);
    if j < k {
      NoGaps(ands, first, last, j);
    }
  }

  lemma NoneMissing(ands: seq<And>, first: nat, last: nat)
    requires LhsAreBetween(ands, first, last) && first <= last
    ensures |ands| == last - first
  {
    if first < last {
      assert HasLhs(ands, last);
      var j :| 0 <= j < |ands| && ands[j].lhs == Var2Lit(last);
      NoGaps(ands, first, last, j);
    }
    if |ands| > 0 {
      NoGaps(ands, first, last, |ands| - 1);
    }
  }

  lemma ConstantRenames(order: seq<nat>, lit: nat)
    requires lit < 2
    ensures Renames(order, lit, lit)
  {
  }

  /** An entry of the table is the new literal, or 0 for a variable without a number. */
  lemma ZeroCode(aig: Aig, code: seq<nat>, order: seq<nat>, lit: nat)
    requires CodeMatches(aig, code, order) && 2 <= lit < 2 * (aig.maxvar + 1)
    ensures |code| == 2 * (aig.maxvar + 1)
    ensures code[lit] == 0 <==> Lit2Var(lit) !in order
    ensures code[lit] != 0 ==> Renames(order, lit, code[lit])
  {
    var v := Lit2Var(lit);
    if v in order {
      CodeRenames(aig, code, order, lit);
    } else {
      assert lit == 2 * v || lit == 2 * v + 1;
    }
  }

  lemma RootIsInCone(aig: Aig, lit: nat)
    requires IsRoot(aig, lit)
    ensures InCone(aig, Lit2Var(lit))
  {
    ReachesSelf(aig, Lit2Var(lit));
  }

  lemma LeafIsNumbered(aig: Aig, order: seq<nat>, lit: nat)
    requires OrderOk(aig, order) && lit >= 2 && Aigs.Defined(aig, lit) && !IsAndVar(aig, Lit2Var(lit))
    ensures Lit2Var(lit) in order
  {
    LeafHasNumber(aig, order, Lit2Var(lit));
  }

  class Renumbering {
    const aig: Aig
    const code: array<nat>
    const onstack: array<bool>
    var next: nat
    ghost var order: seq<nat>

    ghost predicate Valid()
      reads this, code, onstack
    {
      && WellDefined(aig) && !Cyclic(aig)
      && CodeMatches(aig, code[..], order)
      && OrderOk(aig, order) && GatesInCone(aig, order)
      && next == 2 * (|order| + 1)
      && OnstackIs(aig, onstack[..], [])
    }

    /** Gives the next number to a variable. */
    method NewCode(v: nat)
      requires CodeMatches(aig, code[..], order) && next == 2 * (|order| + 1)
      requires 1 <= v <= aig.maxvar && v !in order
      modifies code, this`next, this`order
      ensures CodeMatches(aig, code[..], order)
      ensures order == old(order) + [v] && next == old(next) + 2
    {
      NumberOneMore(aig, code[..], order, v);
      code[Var2Lit(v)] := next;
      code[Var2Lit(v) + 1] := next + 1;
      next := next + 2;
      order := order + [v];
    }

    /** Gives numbers to the gates below a root. */
    method NumberCone(root: nat)
      requires Valid() && IsAndVar(aig, root)
      requires InCone(aig, root)
      modifies this`next, this`order, code, onstack
      ensures Valid() && old(order) <= order && root in order
      ensures order == PostOrder(aig, root, {}, old(order))
    {
      hide SearchInvariant, WellDefined, OrderOk, CodeMatches, OnstackIs, EntriesOk, Cyclic, GatesInCone, InCone,
        Opened, Finish, PostOrder, PendingInputs, Children, Settled, Waiting, AndOf, Edge, LeavesFirst, InputsFirst;
      var stack := [root];
      StartCone(aig, root, order);
      FinishRoot(aig, root, order);
      while |stack| > 0
        invariant WellDefined(aig) && !Cyclic(aig) && InCone(aig, root)
        invariant CodeMatches(aig, code[..], order) && OrderOk(aig, order) && GatesInCone(aig, order)
        invariant next == 2 * (|order| + 1)
        invariant SearchInvariant(aig, stack, Settled(order))
        invariant OnstackIs(aig, onstack[..], Opened(stack)) && EntriesOk(aig, root, stack)
        invariant old(order) <= order
        invariant root in order || (|stack| > 0 && stack[0] == root)
        invariant Finish(aig, stack, order) == PostOrder(aig, root, {}, old(order))
        decreases Waiting(aig, Opened(stack), order), |stack|
      {
        var v := Top(stack);
        if v != 0 {
          EntryIsNoMark(stack);
          EntryOk(aig, root, stack);
          CodeTells(aig, code[..], order, v);
          if code[Var2Lit(v)] != 0 {
            SkipKeepsInvariant(aig, stack, Settled(order));
            FinishSkip(aig, stack, order);
            EntriesBelow(aig, root, stack);
            stack := Pop(stack);
            continue;
          }
          OnstackTells(aig, onstack[..], Opened(stack), v);
          if onstack[v] {
            // an open gate never comes up as an entry, as there is no cycle
            ReopenedIsCycle(aig, stack, Settled(order));
            assert false;
          }
          OnstackPush(aig, onstack[..], Opened(stack), v);
          onstack[v] := true;
          var children := PendingInputs(aig, onstack[..], v);
          InputsAccounted(aig, stack, order, onstack[..]);
          InputsAreEntries(aig, root, stack, onstack[..]);
          OpenKeepsInvariant(aig, stack, Settled(order), children);
          FinishPending(aig, stack, order, onstack[..]);
          stack := stack + [0] + children;
        } else {
          CloseKeepsInvariant(aig, stack, Settled(order));
          EntriesBelow(aig, root, stack);
          EntriesBelow(aig, root, Pop(stack));
          v := Top(Pop(stack));
          EntryOk(aig, root, Pop(stack));
          CodeTells(aig, code[..], order, v);
          OnstackTells(aig, onstack[..], Opened(stack), v);
          OnstackPop(aig, onstack[..], Opened(Pop(Pop(stack))), v);
          onstack[v] := false;
          GateComesNext(aig, order, v);
          ConeGrows(aig, order, root, v);
          FinishClose(aig, stack, order);
          NewCode(v);
          stack := Pop(Pop(stack));
        }
      }
      FinishDone(aig, order);
    }

    constructor (aig: Aig)
      requires WellDefined(aig) && !Cyclic(aig)
      ensures this.aig == aig && order == [] && next == 2
      ensures CodeMatches(aig, code[..], []) && OnstackIs(aig, onstack[..], [])
      ensures fresh(code) && fresh(onstack)
    {
      this.aig := aig;
      code := new nat[2 * (aig.maxvar + 1)](i => if i == 1 then 1 else 0);
      onstack := new bool[aig.maxvar + 1](_ => false);
      next := 2;
      order := [];
    }

    /** Inputs, then latches, get the first numbers. */
    method NumberLeaves()
      requires WellDefined(aig) && !Cyclic(aig) && order == [] && next == 2
      requires CodeMatches(aig, code[..], []) && OnstackIs(aig, onstack[..], [])
      modifies code, this`next, this`order
      ensures Valid() && order == Leaves(aig)
    {
      hide CodeMatches, OnstackIs, WellDefined, Cyclic;
      for i := 0 to |aig.inputs|
        invariant CodeMatches(aig, code[..], order) && next == 2 * (|order| + 1)
        invariant LeavesNumbered(aig, order, i, 0) && OnstackIs(aig, onstack[..], [])
      {
        FreshInput(aig, order, i);
        NewCode(Lit2Var(aig.inputs[i]));
      }
      for i := 0 to |aig.latches|
        invariant CodeMatches(aig, code[..], order) && next == 2 * (|order| + 1)
        invariant LeavesNumbered(aig, order, |aig.inputs|, i) && OnstackIs(aig, onstack[..], [])
      {
        FreshLatch(aig, order, i);
        NewCode(Lit2Var(aig.latches[i].lit));
      }
      LeavesHaveNoInputs(aig, order);
      LeavesAreAll(aig, order);
    }

    method ReencodeLit(lit: nat) returns (res: nat)
      requires Valid() && IsRoot(aig, lit)
      modifies this`next, this`order, code, onstack
      ensures Valid() && old(order) <= order
      ensures Renames(order, lit, res)
      ensures order == PostOrder(aig, Lit2Var(lit), {}, old(order))
    {
      hide WellDefined, Cyclic, OrderOk, GatesInCone, Renames, CodeMatches, OnstackIs, Aigs.Defined, PostOrder;
      NothingToNumber(aig, Lit2Var(lit), order);
      RootIsDefined(aig, lit);
      DefinedFits(aig, lit);
      if lit < 2 {
        ConstantRenames(order, lit);
        return lit;
      }
      ZeroCode(aig, code[..], order, lit);
      res := code[lit];
      if res != 0 {
        return;
      }
      if IsAndVar(aig, Lit2Var(lit)) {
        RootIsInCone(aig, lit);
        NumberCone(Lit2Var(lit));
      } else {
        // inputs and latches have numbers from the start
        LeafIsNumbered(aig, order, lit);
        assert false;
      }
      ZeroCode(aig, code[..], order, lit);
      res := code[lit];
    }

    method ReencodeLits(lits: seq<nat>) returns (res: seq<nat>)
      requires Valid() && forall lit :: lit in lits ==> IsRoot(aig, lit)
      modifies this`next, this`order, code, onstack
      ensures Valid() && old(order) <= order
      ensures RenamesAll(order, lits, res) && order == PostOrders(aig, lits, old(order))
    {
      hide WellDefined, Cyclic, CodeMatches, OrderOk, GatesInCone, OnstackIs, Renames, PostOrder;
      res := [];
      for i := 0 to |lits|
        invariant Valid() && old(order) <= order
        invariant RenamesAll(order, lits[..i], res) && order == PostOrders(aig, lits[..i], old(order))
      {
        ghost var before := order;
        var r := ReencodeLit(lits[i]);
        RenamesAllLater(before, order, lits[..i], res);
        PostOrdersOneMore(aig, lits[..i], lits[i], old(order));
        assert lits[..i + 1] == lits[..i] + [lits[i]];
        res := res + [r];
      }
      assert lits[..|lits|] == lits;
    }

    method ReencodeLatch(i: nat) returns (next: nat, reset: nat)
      requires Valid() && i < |aig.latches|
      modifies this`next, this`order, code, onstack
      ensures Valid() && old(order) <= order
      ensures Renames(order, aig.latches[i].next, next) && Renames(order, aig.latches[i].reset, reset)
      ensures order == PostOrders(aig, [aig.latches[i].next, aig.latches[i].reset], old(order))
    {
      hide WellDefined, Cyclic, CodeMatches, OrderOk, GatesInCone, OnstackIs, Renames, PostOrder, PostOrders;
      assert IsRoot(aig, aig.latches[i].next) && IsRoot(aig, aig.latches[i].reset);
      next := ReencodeLit(aig.latches[i].next);
      ghost var between := order;
      reset := ReencodeLit(aig.latches[i].reset);
      RenamesLater(between, order, aig.latches[i].next, next);
      PostOrdersOfTwo(aig, aig.latches[i].next, aig.latches[i].reset, old(order));
    }

    method ReencodeLatches() returns (nexts: seq<nat>, resets: seq<nat>)
      requires Valid()
      modifies this`next, this`order, code, onstack
      ensures Valid() && old(order) <= order
      ensures LatchesRenamed(order, aig.latches, nexts, resets)
      ensures order == PostOrders(aig, LatchRoots(aig.latches), old(order))
    {
      hide WellDefined, Cyclic, CodeMatches, OrderOk, GatesInCone, OnstackIs, Renames, PostOrders;
      nexts, resets := [], [];
      NoRoots(aig, order);
      for i := 0 to |aig.latches|
        invariant Valid() && old(order) <= order
        invariant LatchesRenamed(order, aig.latches[..i], nexts, resets)
        invariant order == PostOrders(aig, LatchRoots(aig.latches[..i]), old(order))
      {
        ghost var before := order;
        var next, reset := ReencodeLatch(i);
        LatchesRenamedLater(before, order, aig.latches[..i], nexts, resets);
        assert aig.latches[..i + 1] == aig.latches[..i] + [aig.latches[i]];
        PostOrdersTwice(
          aig, LatchRoots(aig.latches[..i]), [aig.latches[i].next, aig.latches[i].reset], old(order));
        assert aig.latches[..i + 1][..i] == aig.latches[..i];
        nexts := nexts + [next];
        resets := resets + [reset];
      }
      assert aig.latches[..|aig.latches|] == aig.latches;
    }

    method ReencodeJustice() returns (res: seq<seq<nat>>)
      requires Valid()
      modifies this`next, this`order, code, onstack
      ensures Valid() && old(order) <= order
      ensures |res| == |aig.justice|
      ensures forall i :: 0 <= i < |res| ==> RenamesAll(order, aig.justice[i], res[i])
      ensures order == PostOrders(aig, Flattened(aig.justice), old(order))
    {
      hide PostOrders;
      res := [];
      NoRoots(aig, order);
      for i := 0 to |aig.justice|
        invariant Valid() && old(order) <= order && |res| == i
        invariant forall j :: 0 <= j < i ==> RenamesAll(order, aig.justice[j], res[j])
        invariant order == PostOrders(aig, Flattened(aig.justice[..i]), old(order))
      {
        ghost var before := order;
        var r := ReencodeLits(aig.justice[i]);
        forall j | 0 <= j < i
          ensures RenamesAll(order, aig.justice[j], res[j])
        {
          RenamesAllLater(before, order, aig.justice[j], res[j]);
        }
        PostOrdersTwice(aig, Flattened(aig.justice[..i]), aig.justice[i], old(order));
        assert aig.justice[..i + 1][..i] == aig.justice[..i];
        res := res + [r];
      }
      assert aig.justice[..|aig.justice|] == aig.justice;
    }

    method ReencodeRoots() returns (roots: Roots)
      requires Valid()
      modifies this`next, this`order, code, onstack
      ensures Valid() && RootsRenamed(aig, order, roots)
      ensures order == PostOrders(aig, RootList(aig), old(order))
    {
      hide WellDefined, Cyclic, CodeMatches, OrderOk, GatesInCone, OnstackIs, RenamesAll, LatchesRenamed, PostOrders,
        LatchRoots, Flattened, RootList;
      var nexts, resets := ReencodeLatches();
      ghost var order1 := order;
      var outputs := ReencodeLits(aig.outputs);
      ghost var order2 := order;
      var bad := ReencodeLits(aig.bad);
      ghost var order3 := order;
      var constraints := ReencodeLits(aig.constraints);
      ghost var order4 := order;
      var justice := ReencodeJustice();
      ghost var order5 := order;
      var fairness := ReencodeLits(aig.fairness);
      LatchesRenamedLater(order1, order, aig.latches, nexts, resets);
      RenamesAllLater(order2, order, aig.outputs, outputs);
      RenamesAllLater(order3, order, aig.bad, bad);
      RenamesAllLater(order4, order, aig.constraints, constraints);
      forall i | 0 <= i < |justice|
        ensures RenamesAll(order, aig.justice[i], justice[i])
      {
        RenamesAllLater(order5, order, aig.justice[i], justice[i]);
      }
      RootsInOrder(aig, old(order));
      roots := Roots(nexts, resets, outputs, bad, constraints, justice, fairness);
    }

    /** The gates with a number, rewritten and sorted. */
    method KeptGates() returns (ands: seq<And>)
      requires Valid()
      ensures GatesKept(aig, order, ands)
    {
      GatesFitTheTable(aig, code[..]);
      var gates := new And[|aig.ands|](i requires 0 <= i < |aig.ands| => aig.ands[i]);
      assert gates[..] == aig.ands;
      var kept := RewriteGates(gates);
      RewrittenStayApart(aig, code[..], order);
      ands := SortByLhs(gates[..kept]);
      SortedAreKept(aig, code[..], order, ands);
    }

    /** Overwrites the gates in place: those with a number move to the front. */
    method RewriteGates(ands: array<And>) returns (kept: nat)
      requires GatesFit(ands[..], code[..])
      modifies ands
      ensures kept <= ands.Length && ands[..kept] == Rewritten(old(ands[..]), old(code[..]))
      ensures code[..] == old(code[..])
    {
      hide Rewritten;
      ghost var were, codes := ands[..], code[..];
      NothingRewritten(codes);
      kept := 0;
      for i := 0 to ands.Length
        invariant kept <= i && code[..] == codes
        invariant forall k :: i <= k < ands.Length ==> ands[k] == were[k]
        invariant GatesFit(were, codes)
        invariant ands[..kept] == Rewritten(were[..i], codes)
      {
        OneMoreRewritten(were, codes, i);
        var conj := ands[i];
        var lhs := code[conj.lhs];
        if lhs != 0 {
          var (rhs0, rhs1) := (code[conj.rhs0], code[conj.rhs1]);
          if rhs0 < rhs1 {
            rhs0, rhs1 := rhs1, rhs0;
          }
          ghost var front := ands[..kept];
          ands[kept] := And(lhs, rhs0, rhs1);
          assert ands[..kept] == front;
          kept := kept + 1;
          assert ands[..kept] == front + [And(lhs, rhs0, rhs1)];
        } else {
          assert ands[..kept] + [] == ands[..kept];
        }
      }
      assert were[..ands.Length] == were;
    }
  }

  // ------------------------------------------------------------------
  // Small facts
  // ------------------------------------------------------------------

  ghost predicate LatchesRenamed(order: seq<nat>, latches: seq<Latch>, nexts: seq<nat>, resets: seq<nat>) {
    && |latches| == |nexts| == |resets|
    && forall i :: 0 <= i < |latches| ==>
         Renames(order, latches[i].next, nexts[i]) && Renames(order, latches[i].reset, resets[i])
  }

  lemma LatchesRenamedLater(
    order: seq<nat>, order': seq<nat>, latches: seq<Latch>, nexts: seq<nat>, resets: seq<nat>)
    requires LatchesRenamed(order, latches, nexts, resets) && order <= order'
    ensures LatchesRenamed(order', latches, nexts, resets)
  {
    forall i | 0 <= i < |latches|
      ensures Renames(order', latches[i].next, nexts[i]) && Renames(order', latches[i].reset, resets[i])
    {
      RenamesLater(order, order', latches[i].next, nexts[i]);
      RenamesLater(order, order', latches[i].reset, resets[i]);
    }
  }

  ghost predicate RenamesAll(order: seq<nat>, lits: seq<nat>, res: seq<nat>) {
    |lits| == |res| && forall i :: 0 <= i < |lits| ==> Renames(order, lits[i], res[i])
  }

  lemma RenamesAllLater(order: seq<nat>, order': seq<nat>, lits: seq<nat>, res: seq<nat>)
    requires RenamesAll(order, lits, res) && order <= order'
    ensures RenamesAll(order', lits, res)
  {
    forall i | 0 <= i < |lits|
      ensures Renames(order', lits[i], res[i])
    {
      RenamesLater(order, order', lits[i], res[i]);
    }
  }

  lemma DefinedFits(aig: Aig, lit: nat)
    requires WellDefined(aig) && Defined(aig, lit)
    ensures lit < 2 * (aig.maxvar + 1)
  {
  }

  /** The order lists the first inputs and the first latches. */
  ghost predicate LeavesNumbered(aig: Aig, order: seq<nat>, inputs: nat, latches: nat)
    requires inputs <= |aig.inputs| && latches <= |aig.latches|
  {
    && |order| == inputs + latches
    && (forall j :: 0 <= j < inputs ==> order[j] == Lit2Var(aig.inputs[j]))
    && (forall j :: 0 <= j < latches ==> order[inputs + j] == Lit2Var(aig.latches[j].lit))
  }

  lemma FreshInput(aig: Aig, order: seq<nat>, i: nat)
    requires WellDefined(aig) && i < |aig.inputs| && LeavesNumbered(aig, order, i, 0)
    ensures 1 <= Lit2Var(aig.inputs[i]) <= aig.maxvar && Lit2Var(aig.inputs[i]) !in order
    ensures LeavesNumbered(aig, order + [Lit2Var(aig.inputs[i])], i + 1, 0)
  {
    assert IsDefinition(aig, aig.inputs[i]);
  }

  lemma FreshLatch(aig: Aig, order: seq<nat>, i: nat)
    requires WellDefined(aig) && i < |aig.latches| && LeavesNumbered(aig, order, |aig.inputs|, i)
    ensures 1 <= Lit2Var(aig.latches[i].lit) <= aig.maxvar && Lit2Var(aig.latches[i].lit) !in order
    ensures LeavesNumbered(aig, order + [Lit2Var(aig.latches[i].lit)], |aig.inputs|, i + 1)
  {
    var v := Lit2Var(aig.latches[i].lit);
    assert IsDefinition(aig, aig.latches[i].lit);
    assert IsLatchVar(aig, v) && !IsInputVar(aig, v);
    forall k | 0 <= k < |order|
      ensures order[k] != v
    {
      if k >= |aig.inputs| {
        assert order[|aig.inputs| + (k - |aig.inputs|)] == Lit2Var(aig.latches[k - |aig.inputs|].lit);
      }
    }
  }

  lemma LeavesHaveNoInputs(aig: Aig, order: seq<nat>)
    requires WellDefined(aig) && LeavesNumbered(aig, order, |aig.inputs|, |aig.latches|)
    ensures OrderOk(aig, order) && GatesInCone(aig, order)
  {
    forall i, w | 0 <= i < |order|
      ensures !Edge(aig, order[i], w)
    {
      if i < |aig.inputs| {
        assert IsInputVar(aig, order[i]);
      } else {
        assert order[|aig.inputs| + (i - |aig.inputs|)] == Lit2Var(aig.latches[i - |aig.inputs|].lit);
        assert IsLatchVar(aig, order[i]);
      }
      assert !IsAndVar(aig, order[i]);
    }
  }

  lemma LeavesAreAll(aig: Aig, order: seq<nat>)
    requires LeavesNumbered(aig, order, |aig.inputs|, |aig.latches|)
    ensures order == Leaves(aig)
  {
    forall i | 0 <= i < |order|
      ensures order[i] == Leaves(aig)[i]
    {
      assert i >= |aig.inputs| ==> order[|aig.inputs| + (i - |aig.inputs|)] == order[i];
    }
  }

  /** Variables with a number, and those of no gate, need no search. */
  lemma NothingToNumber(aig: Aig, v: nat, order: seq<nat>)
    requires WellDefined(aig)
    ensures v == 0 || v in order ==> PostOrder(aig, v, {}, order) == order
  {
    NoGateIsConstant(aig);
  }

  // ------------------------------------------------------------------
  // The renumbered graph
  // ------------------------------------------------------------------

  /** The gate is the image of the gate that defines variable v. */
  ghost predicate GateKept(aig: Aig, order: seq<nat>, v: nat, a: And) {
    exists m :: 0 <= m < |aig.ands| && Lit2Var(aig.ands[m].lhs) == v && ImageOf(order, aig.ands[m], a)
  }

  ghost predicate ImageOf(order: seq<nat>, conj: And, a: And) {
    || (Renames(order, conj.rhs0, a.rhs0) && Renames(order, conj.rhs1, a.rhs1))
    || (Renames(order, conj.rhs0, a.rhs1) && Renames(order, conj.rhs1, a.rhs0))
  }

  ghost predicate GatesKept(aig: Aig, order: seq<nat>, ands: seq<And>) {
    && NumLeaves(aig) <= |order| && |ands| == |order| - NumLeaves(aig)
    && forall k :: 0 <= k < |ands| ==>
         && ands[k].lhs == Var2Lit(FirstAnd(aig) + k)
         && ands[k].rhs0 >= ands[k].rhs1
         && GateKept(aig, order, order[NumLeaves(aig) + k], ands[k])
  }

  ghost predicate IsReencoding(aig: Aig, res: Aig, order: seq<nat>) {
    && OrderOk(aig, order) && Distinct(order) && GatesInCone(aig, order)
    && res.maxvar == |order|
    && |res.inputs| == |aig.inputs| && |res.latches| == |aig.latches|
    && (forall i :: 0 <= i < |res.inputs| ==> res.inputs[i] == Var2Lit(i + 1))
    && (forall i :: 0 <= i < |res.latches| ==>
          && res.latches[i].lit == Var2Lit(FirstLatch(aig) + i)
          && Renames(order, aig.latches[i].next, res.latches[i].next)
          && Renames(order, aig.latches[i].reset, res.latches[i].reset))
    && RenamesAll(order, aig.outputs, res.outputs) && RenamesAll(order, aig.bad, res.bad)
    && RenamesAll(order, aig.constraints, res.constraints) && RenamesAll(order, aig.fairness, res.fairness)
    && |res.justice| == |aig.justice|
    && (forall i :: 0 <= i < |res.justice| ==> RenamesAll(order, aig.justice[i], res.justice[i]))
    && GatesKept(aig, order, res.ands)
  }

  lemma RenamesOnce(order: seq<nat>, lit: nat, r: nat, s: nat)
    requires Distinct(order) && Renames(order, lit, r) && Renames(order, lit, s)
    ensures r == s
  {
    if lit >= 2 {
      var i :| 0 <= i < |order| && order[i] == Lit2Var(lit) && r == 2 * (i + 1) + lit % 2;
      var j :| 0 <= j < |order| && order[j] == Lit2Var(lit) && s == 2 * (j + 1) + lit % 2;
      assert i == j;
    }
  }

  lemma RenamesAllOnce(order: seq<nat>, lits: seq<nat>, rs: seq<nat>, ss: seq<nat>)
    requires Distinct(order) && RenamesAll(order, lits, rs) && RenamesAll(order, lits, ss)
    ensures rs == ss
  {
    forall i | 0 <= i < |lits|
      ensures rs[i] == ss[i]
    {
      RenamesOnce(order, lits[i], rs[i], ss[i]);
    }
  }

  lemma GateKeptOnce(aig: Aig, order: seq<nat>, v: nat, a: And, b: And)
    requires WellDefined(aig) && Distinct(order) && GateKept(aig, order, v, a) && GateKept(aig, order, v, b)
    requires a.lhs == b.lhs && a.rhs0 >= a.rhs1 && b.rhs0 >= b.rhs1
    ensures a == b
  {
    hide Renames;
    var m :| 0 <= m < |aig.ands| && Lit2Var(aig.ands[m].lhs) == v && ImageOf(order, aig.ands[m], a);
    var n :| 0 <= n < |aig.ands| && Lit2Var(aig.ands[n].lhs) == v && ImageOf(order, aig.ands[n], b);
    assert m == n;
    var conj := aig.ands[m];
    forall r, s | r in {a.rhs0, a.rhs1} && s in {b.rhs0, b.rhs1}
      ensures Renames(order, conj.rhs0, r) && Renames(order, conj.rhs0, s) ==> r == s
      ensures Renames(order, conj.rhs1, r) && Renames(order, conj.rhs1, s) ==> r == s
    {
      if Renames(order, conj.rhs0, r) && Renames(order, conj.rhs0, s) {
        RenamesOnce(order, conj.rhs0, r, s);
      }
      if Renames(order, conj.rhs1, r) && Renames(order, conj.rhs1, s) {
        RenamesOnce(order, conj.rhs1, r, s);
      }
    }
  }

  /** The order of the new numbers leaves no choice: the renumbered graph is determined. */
  lemma ReencodingIsUnique(aig: Aig, res: Aig, other: Aig, order: seq<nat>)
    requires WellDefined(aig) && IsReencoding(aig, res, order) && IsReencoding(aig, other, order)
    ensures res == other
  {
    hide WellDefined, OrderOk, Renames, GateKept, GatesInCone, Distinct, RenamesAll;
    RenamesAllOnce(order, aig.outputs, res.outputs, other.outputs);
    RenamesAllOnce(order, aig.bad, res.bad, other.bad);
    RenamesAllOnce(order, aig.constraints, res.constraints, other.constraints);
    RenamesAllOnce(order, aig.fairness, res.fairness, other.fairness);
    forall i | 0 <= i < |aig.justice|
      ensures res.justice[i] == other.justice[i]
    {
      RenamesAllOnce(order, aig.justice[i], res.justice[i], other.justice[i]);
    }
    forall i | 0 <= i < |aig.latches|
      ensures res.latches[i] == other.latches[i]
    {
      RenamesOnce(order, aig.latches[i].next, res.latches[i].next, other.latches[i].next);
      RenamesOnce(order, aig.latches[i].reset, res.latches[i].reset, other.latches[i].reset);
    }
    forall k | 0 <= k < |res.ands|
      ensures res.ands[k] == other.ands[k]
    {
      GateKeptOnce(aig, order, order[NumLeaves(aig) + k], res.ands[k], other.ands[k]);
    }
  }

  /** Exactly the gates in the cones of the roots have numbers. */
  lemma ConeIsKept(aig: Aig, res: Aig, order: seq<nat>, v: nat)
    requires WellDefined(aig) && IsReencoding(aig, res, order) && IsAndVar(aig, v)
    ensures v in order <==> InCone(aig, v)
  {
    if v in order {
      var i :| 0 <= i < |order| && order[i] == v;
      if i < NumLeaves(aig) {
        LeafIsNoGate(aig, order, i);
      }
    }
    if InCone(aig, v) {
      var lit :| IsRoot(aig, lit) && Reaches(aig, Lit2Var(lit), v);
      var p :| |p| > 0 && Path(aig, p) && p[0] == Lit2Var(lit) && p[|p| - 1] == v;
      RootHasNumber(aig, res, order, lit);
      if IsAndVar(aig, 0) {
        GateBounds(aig, 0);
      }
      PathStaysNumbered(aig, order, p, |p| - 1);
      GateBounds(aig, v);
    }
  }

  lemma LeafIsNoGate(aig: Aig, order: seq<nat>, i: nat)
    requires WellDefined(aig) && LeavesFirst(aig, order) && i < NumLeaves(aig)
    ensures !IsAndVar(aig, order[i])
  {
    if i < |aig.inputs| {
      assert IsInputVar(aig, order[i]);
    } else {
      assert order[|aig.inputs| + (i - |aig.inputs|)] == Lit2Var(aig.latches[i - |aig.inputs|].lit);
      assert IsLatchVar(aig, order[i]);
    }
  }

  lemma RenamedHasNumber(order: seq<nat>, lit: nat, res: nat)
    requires Renames(order, lit, res)
    ensures Lit2Var(lit) in Settled(order)
    ensures Lit2Var(res) <= |order|
  {
  }

  lemma ListedHasNumber(order: seq<nat>, lits: seq<nat>, res: seq<nat>, lit: nat)
    requires RenamesAll(order, lits, res) && lit in lits
    ensures Lit2Var(lit) in Settled(order)
  {
    var i :| 0 <= i < |lits| && lits[i] == lit;
    RenamedHasNumber(order, lit, res[i]);
  }

  lemma RootHasNumber(aig: Aig, res: Aig, order: seq<nat>, lit: nat)
    requires IsReencoding(aig, res, order) && IsRoot(aig, lit)
    ensures Lit2Var(lit) in Settled(order)
  {
    hide Renames, OrderOk, GatesInCone, GatesKept;
    if i :| 0 <= i < |aig.latches| && (lit == aig.latches[i].next || lit == aig.latches[i].reset) {
      RenamedHasNumber(order, aig.latches[i].next, res.latches[i].next);
      RenamedHasNumber(order, aig.latches[i].reset, res.latches[i].reset);
    } else if lit in aig.outputs {
      ListedHasNumber(order, aig.outputs, res.outputs, lit);
    } else if lit in aig.bad {
      ListedHasNumber(order, aig.bad, res.bad, lit);
    } else if lit in aig.constraints {
      ListedHasNumber(order, aig.constraints, res.constraints, lit);
    } else if lit in aig.fairness {
      ListedHasNumber(order, aig.fairness, res.fairness, lit);
    } else {
      var i :| 0 <= i < |aig.justice| && lit in aig.justice[i];
      ListedHasNumber(order, aig.justice[i], res.justice[i], lit);
    }
  }

  lemma OriginalGate(aig: Aig, order: seq<nat>, v: nat, a: And) returns (m: nat)
    requires GateKept(aig, order, v, a)
    ensures m < |aig.ands| && Lit2Var(aig.ands[m].lhs) == v && ImageOf(order, aig.ands[m], a)
  {
    m :| 0 <= m < |aig.ands| && Lit2Var(aig.ands[m].lhs) == v && ImageOf(order, aig.ands[m], a);
  }

  /** A literal of a gate has a smaller number than the gate. */
  lemma InputIsSmaller(aig: Aig, order: seq<nat>, k: nat, lit: nat, r: nat)
    requires OrderOk(aig, order) && Distinct(order) && k < |order|
    requires Edge(aig, order[k], Lit2Var(lit)) && Renames(order, lit, r)
    ensures Lit2Var(r) < k + 1
  {
    if lit >= 2 {
      assert Lit2Var(lit) in Settled(order[..k]);
      var j :| 0 <= j < k && order[j] == Lit2Var(lit);
      var i :| 0 <= i < |order| && order[i] == Lit2Var(lit) && r == 2 * (i + 1) + lit % 2;
      assert i == j;
    }
  }

  lemma KeptGateDescends(aig: Aig, ands: seq<And>, order: seq<nat>, k: nat)
    requires OrderOk(aig, order) && Distinct(order) && GatesKept(aig, order, ands) && k < |ands|
    ensures ands[k].lhs > ands[k].rhs0
  {
    hide OrderOk, Distinct, Renames;
    var n := NumLeaves(aig) + k;
    var m := OriginalGate(aig, order, order[n], ands[k]);
    assert Edge(aig, order[n], Lit2Var(aig.ands[m].rhs0)) && Edge(aig, order[n], Lit2Var(aig.ands[m].rhs1));
    if Renames(order, aig.ands[m].rhs0, ands[k].rhs0) {
      InputIsSmaller(aig, order, n, aig.ands[m].rhs0, ands[k].rhs0);
    } else {
      InputIsSmaller(aig, order, n, aig.ands[m].rhs1, ands[k].rhs0);
    }
  }

  lemma RenamedIsDefined(res: Aig, order: seq<nat>, lit: nat, r: nat)
    requires Aigs.Numbered(res) && LastVar(res) == |order| && Renames(order, lit, r)
    ensures Defined(res, r)
  {
    RenamedHasNumber(order, lit, r);
    NumberedDefined(res, r);
  }

  lemma RenamedAreDefined(res: Aig, order: seq<nat>, lits: seq<nat>, rs: seq<nat>)
    requires Aigs.Numbered(res) && LastVar(res) == |order| && RenamesAll(order, lits, rs)
    ensures AllDefined(res, rs)
  {
    forall i | 0 <= i < |rs|
      ensures Defined(res, rs[i])
    {
      RenamedIsDefined(res, order, lits[i], rs[i]);
    }
  }

  /** A reset value stays a constant or the latch itself. */
  lemma ResetStays(aig: Aig, res: Aig, order: seq<nat>, i: nat)
    requires WellDefined(aig) && IsReencoding(aig, res, order) && i < |res.latches|
    ensures res.latches[i].reset in {0, 1, res.latches[i].lit}
  {
    hide Aigs.Defined, DistinctDefinitions, GatesKept, RenamesAll, GatesInCone, InputsFirst;
    var (was, now) := (aig.latches[i], res.latches[i]);
    assert order[|aig.inputs| + i] == Lit2Var(was.lit);
    assert IsDefinition(aig, was.lit);
    assert Renames(order, was.reset, now.reset);
    if was.reset >= 2 {
      var j :| 0 <= j < |order| && order[j] == Lit2Var(was.reset) && now.reset == 2 * (j + 1) + was.reset % 2;
      assert j == |aig.inputs| + i;
    }
  }

  lemma RootsStayDefined(aig: Aig, res: Aig, order: seq<nat>)
    requires WellDefined(aig) && IsReencoding(aig, res, order) && Aigs.Numbered(res)
    ensures RootsDefined(res)
  {
    hide WellDefined, Aigs.Defined, Renames, RenamesAll, Aigs.Numbered, OrderOk, Distinct, AllDefined;
    assert LastVar(res) == |order|;
    forall i | 0 <= i < |res.latches|
      ensures Aigs.Defined(res, res.latches[i].next)
      ensures res.latches[i].reset in {0, 1, res.latches[i].lit}
    {
      RenamedIsDefined(res, order, aig.latches[i].next, res.latches[i].next);
      ResetStays(aig, res, order, i);
    }
    RenamedAreDefined(res, order, aig.outputs, res.outputs);
    RenamedAreDefined(res, order, aig.bad, res.bad);
    RenamedAreDefined(res, order, aig.constraints, res.constraints);
    RenamedAreDefined(res, order, aig.fairness, res.fairness);
    forall i | 0 <= i < |res.justice|
      ensures AllDefined(res, res.justice[i])
    {
      RenamedAreDefined(res, order, aig.justice[i], res.justice[i]);
    }
  }

  /** The renumbered graph is in normal form. */
  lemma ReencodingIsOrdered(aig: Aig, res: Aig, order: seq<nat>)
    requires WellDefined(aig) && IsReencoding(aig, res, order)
    ensures Ordered(res)
  {
    hide WellDefined, RootsDefined, OrderOk, Distinct, RenamesAll, Renames, GateKept;
    forall k | 0 <= k < |res.ands|
      ensures res.ands[k].lhs > res.ands[k].rhs0
    {
      KeptGateDescends(aig, res.ands, order, k);
    }
    assert Aigs.Numbered(res);
    RootsStayDefined(aig, res, order);
    NumberedIsWellDefined(res);
  }

  /** A numbered graph defines every variable once. */
  lemma NumberedIsWellDefined(aig: Aig)
    requires Aigs.Numbered(aig) && aig.maxvar >= LastVar(aig) && RootsDefined(aig)
    ensures WellDefined(aig)
  {
    hide RootsDefined;
    forall k | 0 <= k < |aig.ands|
      ensures Aigs.Defined(aig, aig.ands[k].rhs0) && Aigs.Defined(aig, aig.ands[k].rhs1)
    {
      NumberedDefined(aig, aig.ands[k].rhs0);
      NumberedDefined(aig, aig.ands[k].rhs1);
    }
    NumberedDefinesOnce(aig);
  }

  lemma NumberedDefinesOnce(aig: Aig)
    requires Aigs.Numbered(aig)
    ensures DistinctDefinitions(aig)
  {
    forall v: nat
      ensures !(IsInputVar(aig, v) && IsLatchVar(aig, v))
      ensures !(IsInputVar(aig, v) && IsAndVar(aig, v))
      ensures !(IsLatchVar(aig, v) && IsAndVar(aig, v))
    {
      NumberedVars(aig, v);
    }
  }

  // ------------------------------------------------------------------
  // The renumbered graph computes the same
  // ------------------------------------------------------------------

  ghost function RenamedValuation(order: seq<nat>, val: Valuation): (r: Valuation)
    ensures forall i :: 0 <= i < |order| ==> (i + 1 in r <==> order[i] in val)
    ensures 0 !in r
  {
    set i: nat | i < |order| && order[i] in val :: i + 1
  }

  lemma LiteralKept(order: seq<nat>, val: Valuation, lit: nat, r: nat)
    requires Renames(order, lit, r) && 0 !in val
    ensures LitHolds(RenamedValuation(order, val), r) <==> LitHolds(val, lit)
  {
    if lit >= 2 {
      var i :| 0 <= i < |order| && order[i] == Lit2Var(lit) && r == 2 * (i + 1) + lit % 2;
      assert Lit2Var(r) == i + 1;
    }
  }

  lemma ImageHolds(order: seq<nat>, val: Valuation, a: And, b: And)
    requires ImageOf(order, a, b) && 0 !in val
    ensures LitHolds(RenamedValuation(order, val), b.rhs0) && LitHolds(RenamedValuation(order, val), b.rhs1) <==>
            LitHolds(val, a.rhs0) && LitHolds(val, a.rhs1)
  {
    hide Renames, LitHolds;
    if Renames(order, a.rhs0, b.rhs0) && Renames(order, a.rhs1, b.rhs1) {
      LiteralKept(order, val, a.rhs0, b.rhs0);
      LiteralKept(order, val, a.rhs1, b.rhs1);
    } else {
      LiteralKept(order, val, a.rhs0, b.rhs1);
      LiteralKept(order, val, a.rhs1, b.rhs0);
    }
  }

  lemma KeptGateHolds(aig: Aig, ands: seq<And>, order: seq<nat>, val: Valuation, k: nat)
    requires GatesKept(aig, order, ands) && k < |ands| && 0 !in val
    requires forall m :: 0 <= m < |aig.ands| ==> GateHolds(aig, val, m)
    ensures AndHolds(RenamedValuation(order, val), ands[k])
  {
    hide Renames, ImageOf;
    var n := NumLeaves(aig) + k;
    var m := OriginalGate(aig, order, order[n], ands[k]);
    assert GateHolds(aig, val, m);
    ImageHolds(order, val, aig.ands[m], ands[k]);
    assert Lit2Var(ands[k].lhs) == n + 1;
  }

  lemma ReencodingSimulates(aig: Aig, res: Aig, order: seq<nat>, latches: set<nat>, inputs: set<nat>, val: Valuation)
    requires WellDefined(aig) && IsReencoding(aig, res, order) && Simulates(aig, latches, inputs, val)
    ensures Simulates(res, latches, inputs, RenamedValuation(order, val))
  {
    hide WellDefined, InputsFirst, RenamesAll, Renames, GatesInCone;
    var val' := RenamedValuation(order, val);
    forall i | 0 <= i < |res.latches|
      ensures Lit2Var(res.latches[i].lit) in val' <==> i in latches
    {
      assert order[|aig.inputs| + i] == Lit2Var(aig.latches[i].lit);
      assert (|aig.inputs| + i) + 1 in val' <==> order[|aig.inputs| + i] in val;
    }
    forall k | 0 <= k < |res.ands|
      ensures GateHolds(res, val', k)
    {
      KeptGateHolds(aig, res.ands, order, val, k);
    }
  }

  /** The same steps and the same bad states. */
  lemma ReencodingKeepsSteps(aig: Aig, res: Aig, order: seq<nat>, latches: set<nat>, inputs: set<nat>)
    requires WellDefined(aig) && Acyclic(aig) && IsReencoding(aig, res, order)
    ensures forall l :: Steps(res, latches, inputs, l) <==> Steps(aig, latches, inputs, l)
    ensures Bad(res, latches, inputs) <==> Bad(aig, latches, inputs)
  {
    hide IsReencoding, WellDefined, SameValues, ConstraintsHold, PropertyFails;
    ReencodingIsOrdered(aig, res, order);
    OrderedIsWellDefined(res);
    OrderedIsAcyclic(res);
    var val := Values(aig, latches, inputs);
    var val' := RenamedValuation(order, val);
    ReencodingSimulates(aig, res, order, latches, inputs, val);
    RootsAgree(aig, res, order, latches, inputs);
    SameLists(aig, res, Values(aig, latches, inputs), Values(res, latches, inputs));
    forall l
      ensures Steps(res, latches, inputs, l) <==> Steps(aig, latches, inputs, l)
    {
      ValuesDecideSteps(res, latches, inputs, l);
      ValuesDecideSteps(aig, latches, inputs, l);
    }
    ValuesDecideBad(res, latches, inputs);
    ValuesDecideBad(aig, latches, inputs);
  }

  lemma OrderedIsWellDefined(aig: Aig)
    requires Ordered(aig)
    ensures WellDefined(aig)
  {
  }

  /** The literals of two lists have the same values, one by one. */
  ghost predicate SameValues(val: Valuation, lits: seq<nat>, val': Valuation, lits': seq<nat>) {
    |lits'| == |lits| && forall i :: 0 <= i < |lits| ==> (LitHolds(val', lits'[i]) <==> LitHolds(val, lits[i]))
  }

  /** Constraints and properties that agree one by one agree as a whole. */
  lemma SameLists(aig: Aig, res: Aig, val: Valuation, val': Valuation)
    requires SameValues(val, aig.constraints, val', res.constraints)
    requires SameValues(val, aig.outputs, val', res.outputs) && SameValues(val, aig.bad, val', res.bad)
    ensures ConstraintsHold(res, val') <==> ConstraintsHold(aig, val)
    ensures PropertyFails(res, val') <==> PropertyFails(aig, val)
  {
    hide LitHolds;
    SomeHolds(val, aig.outputs, val', res.outputs);
    SomeHolds(val, aig.bad, val', res.bad);
    if ConstraintsHold(aig, val) {
      forall lit | lit in res.constraints
        ensures LitHolds(val', lit)
      {
        var i :| 0 <= i < |res.constraints| && res.constraints[i] == lit;
        assert aig.constraints[i] in aig.constraints;
      }
    }
    if ConstraintsHold(res, val') {
      forall lit | lit in aig.constraints
        ensures LitHolds(val, lit)
      {
        var i :| 0 <= i < |aig.constraints| && aig.constraints[i] == lit;
        assert res.constraints[i] in res.constraints;
      }
    }
  }

  lemma SomeHolds(val: Valuation, lits: seq<nat>, val': Valuation, lits': seq<nat>)
    requires SameValues(val, lits, val', lits')
    ensures (exists lit :: lit in lits && LitHolds(val, lit)) <==> (exists lit :: lit in lits' && LitHolds(val', lit))
  {
    hide LitHolds;
    if lit :| lit in lits && LitHolds(val, lit) {
      var i :| 0 <= i < |lits| && lits[i] == lit;
      assert lits'[i] in lits' && LitHolds(val', lits'[i]);
    }
    if lit :| lit in lits' && LitHolds(val', lit) {
      var i :| 0 <= i < |lits'| && lits'[i] == lit;
      assert lits[i] in lits && LitHolds(val, lits[i]);
    }
  }

  /** A literal and the one it is renamed to have the same value. */
  lemma RenamedAgrees(
    aig: Aig, res: Aig, order: seq<nat>, latches: set<nat>, inputs: set<nat>, lit: nat, r: nat)
    requires WellDefined(aig) && Acyclic(aig) && IsReencoding(aig, res, order)
    requires WellDefined(res) && Acyclic(res) && Aigs.Numbered(res) && Renames(order, lit, r)
    ensures LitHolds(Values(res, latches, inputs), r) <==> LitHolds(Values(aig, latches, inputs), lit)
  {
    hide OrderOk, Distinct, GatesInCone, RenamesAll, Renames, Acyclic, WellDefined;
    var val := Values(aig, latches, inputs);
    ReencodingSimulates(aig, res, order, latches, inputs, val);
    RenamedIsDefined(res, order, lit, r);
    LiteralKept(order, val, lit, r);
    SimulationIsUnique(res, latches, inputs, Values(res, latches, inputs), RenamedValuation(order, val), r);
  }

  lemma ListsAgree(
    aig: Aig, res: Aig, order: seq<nat>, latches: set<nat>, inputs: set<nat>, lits: seq<nat>, rs: seq<nat>)
    requires WellDefined(aig) && Acyclic(aig) && IsReencoding(aig, res, order)
    requires WellDefined(res) && Acyclic(res) && Aigs.Numbered(res) && RenamesAll(order, lits, rs)
    ensures SameValues(Values(aig, latches, inputs), lits, Values(res, latches, inputs), rs)
  {
    hide IsReencoding, WellDefined, Acyclic, Renames, Aigs.Numbered;
    forall i | 0 <= i < |lits|
      ensures LitHolds(Values(res, latches, inputs), rs[i]) <==> LitHolds(Values(aig, latches, inputs), lits[i])
    {
      RenamedAgrees(aig, res, order, latches, inputs, lits[i], rs[i]);
    }
  }

  /** Every root has the same value in both graphs. */
  lemma RootsAgree(aig: Aig, res: Aig, order: seq<nat>, latches: set<nat>, inputs: set<nat>)
    requires WellDefined(aig) && Acyclic(aig) && IsReencoding(aig, res, order)
    requires WellDefined(res) && Acyclic(res) && Aigs.Numbered(res)
    ensures var (val, val') := (Values(aig, latches, inputs), Values(res, latches, inputs));
            && NextLatches(res, val') == NextLatches(aig, val)
            && SameValues(val, aig.outputs, val', res.outputs) && SameValues(val, aig.bad, val', res.bad)
            && SameValues(val, aig.constraints, val', res.constraints)
            && SameValues(val, aig.fairness, val', res.fairness)
            && |res.justice| == |aig.justice|
            && forall i :: 0 <= i < |aig.justice| ==> SameValues(val, aig.justice[i], val', res.justice[i])
  {
    hide WellDefined, Acyclic, Renames, RenamesAll, OrderOk, Distinct, GatesInCone, GatesKept, SameValues,
      Aigs.Numbered;
    forall i | 0 <= i < |aig.latches|
      ensures LitHolds(Values(res, latches, inputs), res.latches[i].next) <==>
              LitHolds(Values(aig, latches, inputs), aig.latches[i].next)
    {
      RenamedAgrees(aig, res, order, latches, inputs, aig.latches[i].next, res.latches[i].next);
    }
    ListsAgree(aig, res, order, latches, inputs, aig.outputs, res.outputs);
    ListsAgree(aig, res, order, latches, inputs, aig.bad, res.bad);
    ListsAgree(aig, res, order, latches, inputs, aig.constraints, res.constraints);
    ListsAgree(aig, res, order, latches, inputs, aig.fairness, res.fairness);
    forall i | 0 <= i < |aig.justice|
      ensures SameValues(Values(aig, latches, inputs), aig.justice[i],
                         Values(res, latches, inputs), res.justice[i])
    {
      ListsAgree(aig, res, order, latches, inputs, aig.justice[i], res.justice[i]);
    }
  }

  lemma ReencodingKeepsInit(aig: Aig, res: Aig, order: seq<nat>, latches: set<nat>)
    requires WellDefined(aig) && IsReencoding(aig, res, order)
    ensures InitialLatches(res, latches) <==> InitialLatches(aig, latches)
  {
    forall i | 0 <= i < |aig.latches|
      ensures res.latches[i].reset == 0 <==> aig.latches[i].reset == 0
      ensures res.latches[i].reset == 1 <==> aig.latches[i].reset == 1
    {
      assert Renames(order, aig.latches[i].reset, res.latches[i].reset);
    }
  }

  /** The renumbered graph starts, steps and fails like the graph. */
  lemma ReencodingIsAlike(aig: Aig, res: Aig, order: seq<nat>)
    requires WellDefined(aig) && Acyclic(aig) && IsReencoding(aig, res, order)
    ensures Alike(aig, res)
  {
    hide WellDefined, Acyclic, Renames, RenamesAll, OrderOk, Distinct, GatesInCone, GatesKept,
      InitialLatches, Steps, Bad;
    forall latches
      ensures InitialLatches(res, latches) <==> InitialLatches(aig, latches)
    {
      ReencodingKeepsInit(aig, res, order, latches);
    }
    SameNumberOfProperties(aig, res, order);
    forall latches, inputs, l
      ensures Steps(res, latches, inputs, l) <==> Steps(aig, latches, inputs, l)
    {
      ReencodingKeepsSteps(aig, res, order, latches, inputs);
    }
    forall latches, inputs
      ensures Bad(res, latches, inputs) <==> Bad(aig, latches, inputs)
    {
      ReencodingKeepsSteps(aig, res, order, latches, inputs);
    }
  }

  lemma SameNumberOfProperties(aig: Aig, res: Aig, order: seq<nat>)
    requires IsReencoding(aig, res, order)
    ensures |res.outputs| == |aig.outputs| && |res.bad| == |aig.bad|
    ensures |res.constraints| == |aig.constraints|
    ensures |res.justice| == |aig.justice| && |res.fairness| == |aig.fairness|
  {
  }

  /** Renumbering keeps safety. */
  lemma ReencodingKeepsSafety(aig: Aig, res: Aig, order: seq<nat>)
    requires WellDefined(aig) && Acyclic(aig) && IsReencoding(aig, res, order)
    ensures Unsafe(res) <==> Unsafe(aig)
    ensures forall n :: UnsafeIn(res, n) <==> UnsafeIn(aig, n)
    ensures forall latches, ys :: Violates(res, latches, ys) <==> Violates(aig, latches, ys)
  {
    hide IsReencoding, Alike, WellDefined, Acyclic, Violates, Unsafe, UnsafeIn;
    ReencodingIsAlike(aig, res, order);
    AlikeSafety(aig, res);
    forall latches, ys
      ensures Violates(res, latches, ys) <==> Violates(aig, latches, ys)
    {
      AlikeViolates(aig, res, latches, ys);
    }
  }

  // ------------------------------------------------------------------
  // The whole renumbering
  // ------------------------------------------------------------------

  lemma GatesFitTheTable(aig: Aig, code: seq<nat>)
    requires WellDefined(aig) && |code| == 2 * (aig.maxvar + 1)
    ensures GatesFit(aig.ands, code)
  {
    forall m | 0 <= m < |aig.ands|
      ensures aig.ands[m].lhs < |code| && aig.ands[m].rhs0 < |code| && aig.ands[m].rhs1 < |code|
    {
      assert IsDefinition(aig, aig.ands[m].lhs);
      DefinedFits(aig, aig.ands[m].rhs0);
      DefinedFits(aig, aig.ands[m].rhs1);
    }
  }

  /** The number of a gate, if it has one. */
  lemma GateNumber(aig: Aig, code: seq<nat>, order: seq<nat>, m: nat)
    requires WellDefined(aig) && CodeMatches(aig, code, order) && m < |aig.ands|
    ensures aig.ands[m].lhs < |code|
    ensures code[aig.ands[m].lhs] != 0 <==> Lit2Var(aig.ands[m].lhs) in order
    ensures forall i :: 0 <= i < |order| && order[i] == Lit2Var(aig.ands[m].lhs) ==>
              code[aig.ands[m].lhs] == Var2Lit(i + 1)
  {
    assert IsDefinition(aig, aig.ands[m].lhs);
    assert aig.ands[m].lhs == 2 * Lit2Var(aig.ands[m].lhs);
  }

  lemma RewrittenStayApart(aig: Aig, code: seq<nat>, order: seq<nat>)
    requires WellDefined(aig) && CodeMatches(aig, code, order) && GatesFit(aig.ands, code)
    ensures DistinctLhs(Rewritten(aig.ands, code))
  {
    forall j, k | 0 <= j < k < |aig.ands| && code[aig.ands[k].lhs] != 0
      ensures code[aig.ands[j].lhs] != code[aig.ands[k].lhs]
    {
      GateNumber(aig, code, order, j);
      GateNumber(aig, code, order, k);
      var q :| 0 <= q < |order| && order[q] == Lit2Var(aig.ands[k].lhs);
      if Lit2Var(aig.ands[j].lhs) in order {
        var p :| 0 <= p < |order| && order[p] == Lit2Var(aig.ands[j].lhs);
      }
    }
    RewrittenDistinct(aig.ands, code);
  }

  /** The rewritten form of a numbered gate is its image. */
  lemma RewriteIsImage(aig: Aig, code: seq<nat>, order: seq<nat>, m: nat)
    requires WellDefined(aig) && CodeMatches(aig, code, order) && InputsFirst(aig, order)
    requires m < |aig.ands| && GatesFit(aig.ands, code) && Lit2Var(aig.ands[m].lhs) in order
    ensures ImageOf(order, aig.ands[m], RewriteGate(code, aig.ands[m]))
  {
    var v := Lit2Var(aig.ands[m].lhs);
    var i :| 0 <= i < |order| && order[i] == v;
    assert Edge(aig, v, Lit2Var(aig.ands[m].rhs0)) && Edge(aig, v, Lit2Var(aig.ands[m].rhs1));
    assert Settled(order[..i]) <= Settled(order);
    CodeRenames(aig, code, order, aig.ands[m].rhs0);
    CodeRenames(aig, code, order, aig.ands[m].rhs1);
  }

  /** A rewritten gate is the image of the gate it has the number of. */
  lemma RewrittenGate(aig: Aig, code: seq<nat>, order: seq<nat>, a: And) returns (i: nat)
    requires WellDefined(aig) && CodeMatches(aig, code, order) && OrderOk(aig, order) && GatesFit(aig.ands, code)
    requires a in Rewritten(aig.ands, code)
    ensures NumLeaves(aig) <= i < |order| && a.lhs == Var2Lit(i + 1) && a.rhs0 >= a.rhs1
    ensures GateKept(aig, order, order[i], a)
  {
    hide WellDefined, CodeMatches, InputsFirst, Rewritten, ImageOf;
    RewrittenMembers(aig.ands, code);
    var m :| 0 <= m < |aig.ands| && code[aig.ands[m].lhs] != 0 && a == RewriteGate(code, aig.ands[m]);
    GateNumber(aig, code, order, m);
    i :| 0 <= i < |order| && order[i] == Lit2Var(aig.ands[m].lhs);
    if i < NumLeaves(aig) {
      LeafIsNoGate(aig, order, i);
    }
    RewriteIsImage(aig, code, order, m);
  }

  lemma NumberIsKept(aig: Aig, code: seq<nat>, order: seq<nat>, i: nat) returns (a: And)
    requires WellDefined(aig) && CodeMatches(aig, code, order) && OrderOk(aig, order) && GatesFit(aig.ands, code)
    requires NumLeaves(aig) <= i < |order|
    ensures a in Rewritten(aig.ands, code) && a.lhs == Var2Lit(i + 1)
  {
    RewrittenMembers(aig.ands, code);
    assert IsAndVar(aig, order[i]);
    var m := AndOf(aig, order[i]);
    GateNumber(aig, code, order, m);
    a := RewriteGate(code, aig.ands[m]);
  }

  /** Sorted, the rewritten gates are numbered without gaps. */
  lemma SortedAreKept(aig: Aig, code: seq<nat>, order: seq<nat>, ands: seq<And>)
    requires WellDefined(aig) && CodeMatches(aig, code, order) && OrderOk(aig, order) && GatesFit(aig.ands, code)
    requires Ascending(ands) && forall a :: a in ands <==> a in Rewritten(aig.ands, code)
    ensures GatesKept(aig, order, ands)
  {
    hide WellDefined, CodeMatches, InputsFirst, Rewritten, GateKept;
    forall j | 0 <= j < |ands|
      ensures ands[j].lhs % 2 == 0 && NumLeaves(aig) < Lit2Var(ands[j].lhs) <= |order|
    {
      var i := RewrittenGate(aig, code, order, ands[j]);
    }
    forall v: nat | NumLeaves(aig) < v <= |order|
      ensures HasLhs(ands, v)
    {
      var a := NumberIsKept(aig, code, order, v - 1);
      assert a in ands;
    }
    NoneMissing(ands, NumLeaves(aig), |order|);
    forall k | 0 <= k < |ands|
      ensures ands[k].lhs == Var2Lit(FirstAnd(aig) + k) && ands[k].rhs0 >= ands[k].rhs1
      ensures GateKept(aig, order, order[NumLeaves(aig) + k], ands[k])
    {
      NoGaps(ands, NumLeaves(aig), |order|, k);
      var i := RewrittenGate(aig, code, order, ands[k]);
    }
  }

  /** Decides whether the graph has the numbering of the normal form and no literals that grow within a gate. */
  method IsReencoded(aig: Aig) returns (yes: bool)
    ensures yes <==> Aigs.Numbered(aig)
  {
    var max := 0;
    for i := 0 to |aig.inputs|
      invariant max == Var2Lit(i)
      invariant forall j :: 0 <= j < i ==> aig.inputs[j] == Var2Lit(j + 1)
    {
      max := max + 2;
      if max != aig.inputs[i] {
        return false;
      }
    }
    for i := 0 to |aig.latches|
      invariant max == Var2Lit(|aig.inputs| + i)
      invariant forall j :: 0 <= j < i ==> aig.latches[j].lit == Var2Lit(FirstLatch(aig) + j)
    {
      max := max + 2;
      if max != aig.latches[i].lit {
        return false;
      }
    }
    var lhs := max + 2;
    for i := 0 to |aig.ands|
      invariant lhs == Var2Lit(FirstAnd(aig) + i)
      invariant forall k :: 0 <= k < i ==>
                  && aig.ands[k].lhs == Var2Lit(FirstAnd(aig) + k)
                  && aig.ands[k].lhs >= aig.ands[k].rhs0 >= aig.ands[k].rhs1
    {
      var conj := aig.ands[i];
      if conj.lhs <= max || conj.lhs != lhs || conj.lhs < conj.rhs0 || conj.rhs0 < conj.rhs1 {
        return false;
      }
      lhs := lhs + 2;
    }
    return true;
  }

  /** The roots under the new numbering. */
  datatype Roots = Roots(
    nexts: seq<nat>, resets: seq<nat>, outputs: seq<nat>, bad: seq<nat>,
    constraints: seq<nat>, justice: seq<seq<nat>>, fairness: seq<nat>)

  ghost predicate RootsRenamed(aig: Aig, order: seq<nat>, roots: Roots) {
    && LatchesRenamed(order, aig.latches, roots.nexts, roots.resets)
    && RenamesAll(order, aig.outputs, roots.outputs) && RenamesAll(order, aig.bad, roots.bad)
    && RenamesAll(order, aig.constraints, roots.constraints) && RenamesAll(order, aig.fairness, roots.fairness)
    && |roots.justice| == |aig.justice|
    && (forall i :: 0 <= i < |roots.justice| ==> RenamesAll(order, aig.justice[i], roots.justice[i]))
  }

  /** Renumbers all roots with their cones. */
  method Renumber(aig: Aig) returns (res: Aig)
    requires WellDefined(aig) && !Cyclic(aig)
    ensures IsReencoding(aig, res, NumberingOf(aig))
  {
    hide WellDefined, Cyclic, OrderOk, GatesInCone, RenamesAll, GatesKept, Distinct, PostOrders, RootList, Leaves;
    var r := new Renumbering(aig);
    r.NumberLeaves();
    var roots := r.ReencodeRoots();
    ghost var order := r.order;
    OrderIsDistinct(aig, r.code[..], order);
    var ands := r.KeptGates();
    var inputs := seq(|aig.inputs|, i requires 0 <= i < |aig.inputs| => Var2Lit(i + 1));
    var latches := seq(|aig.latches|, i requires 0 <= i < |aig.latches| =>
      Latch(Var2Lit(FirstLatch(aig) + i), roots.nexts[i], roots.resets[i]));
    res := Aig((r.next - 1) / 2, inputs, latches, roots.outputs, roots.bad, ands,
               roots.constraints, roots.justice, roots.fairness);
    assert IsReencoding(aig, res, order);
  }

  /** Brings the graph into normal form; whether it is safe does not change. */
  method Reencode(aig: Aig) returns (res: Aig)
    requires WellDefined(aig) && Acyclic(aig)
    ensures Ordered(res) && Acyclic(res)
    ensures Aigs.Numbered(aig) ==> res == aig
    ensures !Aigs.Numbered(aig) ==> IsReencoding(aig, res, NumberingOf(aig))
    ensures Alike(aig, res)
    ensures |res.outputs| == |aig.outputs| && |res.bad| == |aig.bad|
    ensures |res.constraints| == |aig.constraints|
    ensures |res.justice| == |aig.justice| && |res.fairness| == |aig.fairness|
    ensures Unsafe(res) <==> Unsafe(aig)
    ensures forall n :: UnsafeIn(res, n) <==> UnsafeIn(aig, n)
  {
    hide Alike;
    var done := IsReencoded(aig);
    AlikeToItself(aig);
    if done {
      NumberedIsOrdered(aig);
      return aig;
    }
    AcyclicHasNoCycle(aig);
    res := Renumber(aig);
    ghost var order := NumberingOf(aig);
    ReencodingIsOrdered(aig, res, order);
    OrderedIsAcyclic(res);
    ReencodingIsAlike(aig, res, order);
    SameNumberOfProperties(aig, res, order);
    AlikeSafety(aig, res);
  }
}
