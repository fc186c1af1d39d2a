/**
 * The order in which the renumbering of a graph hands out its numbers
 * (dep/aiger/aiger.c, aiger_reencode_lit and aiger_reencode), as a recursive
 * function: below a gate the smaller input variable comes first, and the cones
 * of the roots follow each other as the roots are listed.
 */
module Numbering {
  import opened Aigs
  import opened DepthFirst

  /** The input variables of a gate, the larger one first. */
  function Children(aig: Aig, v: nat): (nat, nat)
    requires WellDefined(aig) && IsAndVar(aig, v)
  {
    var conj := aig.ands[AndOf(aig, v)];
    var (w0, w1) := (Lit2Var(conj.rhs0), Lit2Var(conj.rhs1));
    if w0 < w1 then (w1, w0) else (w0, w1)
  }

  ghost function GateVars(aig: Aig): (r: set<nat>)
    ensures forall v: nat :: v in r <==> IsAndVar(aig, v)
  {
    set k | 0 <= k < |aig.ands| :: Lit2Var(aig.ands[k].lhs)
  }

  /** The order after the gates at and below v that have no number yet; gates that are open are left alone. */
  ghost function PostOrder(aig: Aig, v: nat, open: set<nat>, order: seq<nat>): (r: seq<nat>)
    requires WellDefined(aig)
    ensures order <= r
    decreases GateVars(aig) - open
  {
    if v in order || v in open || !IsAndVar(aig, v) then order
    else
      assert v in GateVars(aig) - open;
      var (larger, smaller) := Children(aig, v);
      PostOrder(aig, larger, open + {v}, PostOrder(aig, smaller, open + {v}, order)) + [v]
  }

  /** The cones of several literals one after the other. */
  ghost function PostOrders(aig: Aig, lits: seq<nat>, order: seq<nat>): (r: seq<nat>)
    requires WellDefined(aig)
    ensures order <= r
  {
    if lits == [] then order
    else
      var before := PostOrders(aig, lits[..|lits| - 1], order);
      PostOrder(aig, Lit2Var(lits[|lits| - 1]), {}, before)
  }

  lemma {:induction false} PostOrdersTwice(aig: Aig, lits: seq<nat>, more: seq<nat>, order: seq<nat>)
    requires WellDefined(aig)
    ensures PostOrders(aig, lits + more, order) == PostOrders(aig, more, PostOrders(aig, lits, order))
  {
    if more == [] {
      assert lits + more == lits;
    } else {
      var init := more[..|more| - 1];
      assert (lits + more)[..|lits + more| - 1] == lits + init;
      PostOrdersTwice(aig, lits, init, order);
    }
  }

  lemma PostOrdersOneMore(aig: Aig, lits: seq<nat>, lit: nat, order: seq<nat>)
    requires WellDefined(aig)
    ensures PostOrders(aig, lits + [lit], order) == PostOrder(aig, Lit2Var(lit), {}, PostOrders(aig, lits, order))
  {
    assert (lits + [lit])[..|lits|] == lits;
  }

  ghost function LatchRoots(latches: seq<Latch>): seq<nat> {
    if latches == [] then []
    else
      var last := latches[|latches| - 1];
      LatchRoots(latches[..|latches| - 1]) + [last.next, last.reset]
  }

  ghost function Flattened(lists: seq<seq<nat>>): seq<nat> {
    if lists == [] then [] else Flattened(lists[..|lists| - 1]) + lists[|lists| - 1]
  }

  /** All roots in the order in which they are renumbered. */
  ghost function RootList(aig: Aig): seq<nat> {
    LatchRoots(aig.latches) + aig.outputs + aig.bad + aig.constraints + Flattened(aig.justice) + aig.fairness
  }

  /** Inputs come first, then latches. */
  ghost function Leaves(aig: Aig): seq<nat> {
    seq(|aig.inputs|, i requires 0 <= i < |aig.inputs| => Lit2Var(aig.inputs[i]))
    + seq(|aig.latches|, i requires 0 <= i < |aig.latches| => Lit2Var(aig.latches[i].lit))
  }

  /** The old variables in the order of their new numbers. */
  ghost function NumberingOf(aig: Aig): seq<nat>
    requires WellDefined(aig)
  {
    PostOrders(aig, RootList(aig), Leaves(aig))
  }

  lemma NoRoots(aig: Aig, order: seq<nat>)
    requires WellDefined(aig)
    ensures PostOrders(aig, LatchRoots([]), order) == order && PostOrders(aig, Flattened([]), order) == order
  {
  }

  lemma PostOrdersOfTwo(aig: Aig, one: nat, two: nat, order: seq<nat>)
    requires WellDefined(aig)
    ensures PostOrders(aig, [one, two], order) ==
              PostOrder(aig, Lit2Var(two), {}, PostOrder(aig, Lit2Var(one), {}, order))
  {
    PostOrdersOneMore(aig, [], one, order);
    PostOrdersOneMore(aig, [one], two, order);
    assert [] + [one] == [one] && [one] + [two] == [one, two];
  }

  lemma RootsInOrder(aig: Aig, order: seq<nat>)
    requires WellDefined(aig)
    ensures PostOrders(aig, RootList(aig), order) ==
              PostOrders(aig, aig.fairness,
                PostOrders(aig, Flattened(aig.justice),
                  PostOrders(aig, aig.constraints,
                    PostOrders(aig, aig.bad,
                      PostOrders(aig, aig.outputs,
                        PostOrders(aig, LatchRoots(aig.latches), order))))))
  {
    hide PostOrders, WellDefined, LatchRoots, Flattened;
    var one := LatchRoots(aig.latches);
    PostOrdersTwice(aig, one, aig.outputs, order);
    PostOrdersTwice(aig, one + aig.outputs, aig.bad, order);
    PostOrdersTwice(aig, one + aig.outputs + aig.bad, aig.constraints, order);
    PostOrdersTwice(aig, one + aig.outputs + aig.bad + aig.constraints, Flattened(aig.justice), order);
    PostOrdersTwice(
      aig, one + aig.outputs + aig.bad + aig.constraints + Flattened(aig.justice), aig.fairness, order);
  }

  // ------------------------------------------------------------------
  // The explicit stack
  // ------------------------------------------------------------------

  ghost function OpenSet(stack: seq<nat>): set<nat> {
    set v | v in Opened(stack)
  }

  /** The order once everything on the stack has been dealt with. */
  ghost function Finish(aig: Aig, stack: seq<nat>, order: seq<nat>): seq<nat>
    requires WellDefined(aig)
    decreases |stack|
  {
    if stack == [] then order
    else if Top(stack) == 0 && |stack| >= 2 then Finish(aig, Pop(Pop(stack)), order + [Top(Pop(stack))])
    else Finish(aig, Pop(stack), PostOrder(aig, Top(stack), OpenSet(Pop(stack)), order))
  }

  lemma FinishRoot(aig: Aig, root: nat, order: seq<nat>)
    requires WellDefined(aig) && root != 0
    ensures Finish(aig, [root], order) == PostOrder(aig, root, {}, order)
  {
    assert Pop([root]) == [];
    assert OpenSet([]) == {};
  }

  lemma FinishDone(aig: Aig, order: seq<nat>)
    requires WellDefined(aig)
    ensures Finish(aig, [], order) == order
  {
  }

  /** An entry that has its number already. */
  lemma FinishSkip(aig: Aig, stack: seq<nat>, order: seq<nat>)
    requires WellDefined(aig) && |stack| > 0 && Top(stack) != 0 && Top(stack) in order
    ensures Finish(aig, stack, order) == Finish(aig, Pop(stack), order)
  {
  }

  lemma FinishClose(aig: Aig, stack: seq<nat>, order: seq<nat>)
    requires WellDefined(aig) && |stack| >= 2 && Top(stack) == 0
    ensures Finish(aig, stack, order) == Finish(aig, Pop(Pop(stack)), order + [Top(Pop(stack))])
  {
  }

  /** Pushing an input of a gate, or leaving it away if there is nothing to do for it. */
  lemma FinishPush(aig: Aig, stack: seq<nat>, w: nat, order: seq<nat>)
    requires WellDefined(aig) && (IsAndVar(aig, w) ==> w != 0)
    ensures Opened(stack + [w]) == Opened(stack) || w == 0
    ensures Finish(aig, if IsAndVar(aig, w) && w !in Opened(stack) then stack + [w] else stack, order) ==
              Finish(aig, stack, PostOrder(aig, w, OpenSet(stack), order))
  {
    assert Pop(stack + [w]) == stack;
  }

  /** Opening a gate puts its mark and its inputs on the stack. */
  lemma FinishOpen(aig: Aig, stack: seq<nat>, order: seq<nat>, pending: seq<nat>)
    requires WellDefined(aig) && |stack| > 0 && Top(stack) != 0 && IsAndVar(aig, Top(stack)) && !IsAndVar(aig, 0)
    requires Top(stack) !in order && Top(stack) !in Opened(stack)
    requires var (larger, smaller) := Children(aig, Top(stack)); var open := Opened(stack) + [Top(stack)];
             pending == (if IsAndVar(aig, larger) && larger !in open then [larger] else [])
                        + (if IsAndVar(aig, smaller) && smaller !in open then [smaller] else [])
    ensures Finish(aig, stack + [0] + pending, order) == Finish(aig, stack, order)
  {
    hide WellDefined;
    var v, marked := Top(stack), stack + [0];
    var (larger, smaller) := Children(aig, v);
    assert Pop(marked) == stack;
    assert Opened(marked) == Opened(Pop(stack)) + [v] && Opened(stack) == Opened(Pop(stack));
    assert OpenSet(marked) == OpenSet(Pop(stack)) + {v};
    var one := if IsAndVar(aig, larger) && larger !in Opened(marked) then marked + [larger] else marked;
    FinishPush(aig, marked, larger, order);
    assert Opened(one) == Opened(marked);
    var two := if IsAndVar(aig, smaller) && smaller !in Opened(one) then one + [smaller] else one;
    FinishPush(aig, one, smaller, order);
    assert two == marked + pending;
    FinishPush(aig, marked, larger, PostOrder(aig, smaller, OpenSet(marked), order));
    FinishClose(aig, marked, PostOrder(aig, larger, OpenSet(marked), PostOrder(aig, smaller, OpenSet(marked), order)));
  }
}
