/** The cycle check of the AIGER library (dep/aiger/aiger.c). */
module Cycles {
  import opened Aigs
  import opened DepthFirst

  ghost function Leaves(aig: Aig): (r: set<nat>)
    ensures forall v: nat :: v in r <==> v <= aig.maxvar && !IsAndVar(aig, v)
  {
    set v: nat | v <= aig.maxvar && !IsAndVar(aig, v)
  }

  ghost function Settled(aig: Aig, finished: seq<nat>): (r: set<nat>)
    ensures forall v: nat :: v in r <==> (v <= aig.maxvar && !IsAndVar(aig, v)) || v in finished
  {
    Leaves(aig) + set v | v in finished
  }

  /** The mark bits: a marked gate is open or finished, and the open ones are on the stack. */
  ghost predicate MarksAre(aig: Aig, mark: seq<bool>, onstack: seq<bool>, open: seq<nat>, finished: seq<nat>) {
    && |mark| == |onstack| == aig.maxvar + 1
    && (forall v: nat :: v <= aig.maxvar ==> (mark[v] <==> v in open || v in finished))
    && (forall v: nat :: v <= aig.maxvar ==> (onstack[v] <==> v in open))
    && (forall v :: v in finished ==> IsAndVar(aig, v))
    && Distinct(finished) && ChildrenFirst(aig, finished)
  }

  lemma GateIsInRange(aig: Aig, v: nat)
    requires WellDefined(aig) && IsAndVar(aig, v)
    ensures 1 <= v <= aig.maxvar
    ensures forall w: nat :: Edge(aig, v, w) ==> w <= aig.maxvar
  {
    var k := AndOf(aig, v);
    assert IsDefinition(aig, aig.ands[k].lhs);
    DefinedIsInRange(aig, aig.ands[k].rhs0);
    DefinedIsInRange(aig, aig.ands[k].rhs1);
  }

  lemma DefinedIsInRange(aig: Aig, lit: nat)
    requires WellDefined(aig) && Defined(aig, lit)
    ensures Lit2Var(lit) <= aig.maxvar
  {
  }

  /** A gate is finished when its inputs are settled. */
  lemma FinishGate(aig: Aig, finished: seq<nat>, v: nat)
    requires Distinct(finished) && ChildrenFirst(aig, finished) && v !in finished
    requires forall w {:trigger Edge(aig, v, w)} :: Edge(aig, v, w) ==> w in Settled(aig, finished)
    ensures Distinct(finished + [v]) && ChildrenFirst(aig, finished + [v])
  {
    var order := finished + [v];
    forall i, w | 0 <= i < |order| && Edge(aig, order[i], w) && IsAndVar(aig, w)
      ensures w in order[..i]
    {
      if i < |finished| {
        assert order[..i] == finished[..i];
      } else {
        assert order[..i] == finished;
      }
    }
  }

  ghost function Unmarked(aig: Aig, open: seq<nat>, finished: seq<nat>): (r: set<nat>)
    ensures forall v: nat :: v in r <==> v <= aig.maxvar && v !in open && v !in finished
  {
    set v: nat | v <= aig.maxvar && v !in open && v !in finished
  }

  /** The variables of a gate's inputs in the order in which the search pushes them. */
  function GateInputs(aig: Aig, v: nat): (ws: seq<nat>)
    requires WellDefined(aig) && IsAndVar(aig, v)
    ensures forall w: nat :: w in ws <==> w != 0 && Edge(aig, v, w)
    ensures forall i :: 0 <= i < |ws| ==> ws[i] <= aig.maxvar
    ensures forall w: nat :: Edge(aig, v, w) ==> w == 0 || w in ws
  {
    GateIsInRange(aig, v);
    var conj := aig.ands[AndOf(aig, v)];
    var (w0, w1) := (Lit2Var(conj.rhs0), Lit2Var(conj.rhs1));
    (if w0 != 0 then [w0] else []) + (if w1 != 0 then [w1] else [])
  }

  lemma MarkOpened(
    aig: Aig, mark: seq<bool>, onstack: seq<bool>, open: seq<nat>, finished: seq<nat>, v: nat)
    requires MarksAre(aig, mark, onstack, open, finished) && v <= aig.maxvar
    ensures MarksAre(aig, mark[v := true], onstack[v := true], open + [v], finished)
  {
  }

  lemma MarkFinished(
    aig: Aig, mark: seq<bool>, onstack: seq<bool>, open: seq<nat>, finished: seq<nat>, v: nat)
    requires MarksAre(aig, mark, onstack, open + [v], finished) && v <= aig.maxvar
    requires IsAndVar(aig, v) && v !in open && v !in finished
    requires forall w {:trigger Edge(aig, v, w)} :: Edge(aig, v, w) ==> w in Settled(aig, finished)
    ensures MarksAre(aig, mark, onstack[v := false], open, finished + [v])
    ensures Settled(aig, finished + [v]) == Settled(aig, finished) + {v}
  {
    FinishGate(aig, finished, v);
  }

  lemma StartSearch(aig: Aig, root: nat, finished: seq<nat>)
    requires WellDefined(aig) && IsAndVar(aig, root)
    ensures SearchInvariant(aig, [root], Settled(aig, finished))
    ensures Opened([root]) == [] && Opened([]) == []
  {
    assert Pop([root]) == [];
    GateIsInRange(aig, root);
    if IsAndVar(aig, 0) {
      GateIsInRange(aig, 0);
    }
  }

  /** Searches from one gate; stops at the first gate that is met again while open. */
  method Visit(
    aig: Aig, root: nat, mark: array<bool>, onstack: array<bool>, ghost finished: seq<nat>)
    returns (cyclic: bool, ghost finished': seq<nat>)
    requires WellDefined(aig) && IsAndVar(aig, root) && mark != onstack
    requires MarksAre(aig, mark[..], onstack[..], [], finished)
    modifies mark, onstack
    ensures cyclic ==> Cyclic(aig)
    ensures !cyclic ==>
              MarksAre(aig, mark[..], onstack[..], [], finished') && finished <= finished' && root in finished'
  {
    hide SearchInvariant, Settled, WellDefined, Distinct, ChildrenFirst, Opened;
    finished' := finished;
    GateIsInRange(aig, root);
    var stack := [root];
    StartSearch(aig, root, finished);
    while |stack| > 0
      invariant MarksAre(aig, mark[..], onstack[..], Opened(stack), finished')
      invariant SearchInvariant(aig, stack, Settled(aig, finished')) && finished <= finished'
      invariant forall i :: 0 <= i < |stack| ==> stack[i] <= aig.maxvar
      invariant root in finished' || (|stack| > 0 && stack[0] == root)
      decreases Unmarked(aig, Opened(stack), finished'), |stack|
    {
      var j := Top(stack);
      ghost var marks, stacked := mark[..], onstack[..];
      ghost var settled := Settled(aig, finished');
      if j != 0 {
        EntryIsNoMark(stack);
        if mark[j] && onstack[j] {
          ReopenedIsCycle(aig, stack, settled);
          return true, finished';
        }
        if !IsAndVar(aig, j) || mark[j] {
          SkipKeepsInvariant(aig, stack, settled);
          stack := Pop(stack);
          continue;
        }
        mark[j] := true;
        onstack[j] := true;
        MarkOpened(aig, marks, stacked, Opened(Pop(stack)), finished', j);
        var children := GateInputs(aig, j);
        OpenKeepsInvariant(aig, stack, settled, children);
        stack := stack + [0] + children;
      } else {
        CloseKeepsInvariant(aig, stack, settled);
        var v := Top(Pop(stack));
        onstack[v] := false;
        MarkFinished(aig, marks, stacked, Opened(Pop(Pop(stack))), finished', v);
        finished' := finished' + [v];
        stack := Pop(Pop(stack));
      }
    }
    return false, finished';
  }

  /**
   * Started with all mark bits clear, the check reports an error exactly if the
   * gates contain a cycle; without an error they can be ordered.
   */
  method CheckForCycles(aig: Aig, mark: array<bool>, onstack: array<bool>) returns (cyclic: bool)
    requires WellDefined(aig) && mark != onstack && mark.Length == onstack.Length == aig.maxvar + 1
    requires forall v :: 0 <= v <= aig.maxvar ==> !mark[v] && !onstack[v]
    modifies mark, onstack
    ensures cyclic <==> Cyclic(aig)
    ensures cyclic <==> !Acyclic(aig)
  {
    ghost var finished: seq<nat> := [];
    var i := 1;
    while i <= aig.maxvar
      invariant 1 <= i <= aig.maxvar + 1
      invariant MarksAre(aig, mark[..], onstack[..], [], finished)
      invariant forall v :: 0 <= v < i && IsAndVar(aig, v) ==> v in finished
    {
      if IsAndVar(aig, i) && !mark[i] {
        cyclic, finished := Visit(aig, i, mark, onstack, finished);
        if cyclic {
          if Acyclic(aig) {
            AcyclicHasNoCycle(aig);
          }
          return;
        }
      }
      i := i + 1;
    }
    forall v | IsAndVar(aig, v)
      ensures v in finished
    {
      GateIsInRange(aig, v);
    }
    assert TopologicalOrder(aig, finished);
    AcyclicHasNoCycle(aig);
    return false;
  }
}
