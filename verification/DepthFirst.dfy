/**
 * The explicit-stack depth-first search that the AIGER library uses both to
 * look for cycles and to renumber gates (dep/aiger/aiger.c). A gate that has
 * been opened stays on the stack below a 0, and below its inputs; when the 0
 * comes up again all its inputs are settled and the gate is closed.
 */
module DepthFirst {
  import opened Aigs

  // ------------------------------------------------------------------
  // Paths and cycles
  // ------------------------------------------------------------------

  ghost predicate Path(aig: Aig, p: seq<nat>) {
    forall i :: 0 <= i < |p| - 1 ==> Edge(aig, p[i], p[i + 1])
  }

  ghost predicate IsCycle(aig: Aig, p: seq<nat>) {
    |p| >= 2 && Path(aig, p) && p[0] == p[|p| - 1]
  }

  ghost predicate Cyclic(aig: Aig) {
    exists p :: IsCycle(aig, p)
  }

  lemma {:induction false} PathDescends(aig: Aig, order: seq<nat>, p: seq<nat>, pos: nat, i: nat)
    requires TopologicalOrder(aig, order) && Path(aig, p) && 1 <= i < |p| && IsAndVar(aig, p[i])
    requires pos < |order| && order[pos] == p[0]
    ensures p[i] in order[..pos]
  {
    assert Edge(aig, p[i - 1], p[i - 1 + 1]);
    if i == 1 {
    } else {
      assert IsAndVar(aig, p[i - 1]);
      PathDescends(aig, order, p, pos, i - 1);
      var q :| 0 <= q < pos && order[q] == p[i - 1];
      assert order[..q] <= order[..pos];
    }
  }

  /** A graph whose gates can be ordered has no cycle. */
  lemma AcyclicHasNoCycle(aig: Aig)
    requires Acyclic(aig)
    ensures !Cyclic(aig)
  {
    var order :| TopologicalOrder(aig, order);
    forall p | |p| >= 2 && Path(aig, p)
      ensures p[0] != p[|p| - 1]
    {
      assert Edge(aig, p[0], p[0 + 1]);
      assert IsAndVar(aig, p[0]);
      var pos :| 0 <= pos < |order| && order[pos] == p[0];
      if IsAndVar(aig, p[|p| - 1]) {
        PathDescends(aig, order, p, pos, |p| - 1);
      }
    }
  }

  ghost predicate Reaches(aig: Aig, v: nat, w: nat) {
    exists p :: |p| > 0 && Path(aig, p) && p[0] == v && p[|p| - 1] == w
  }

  lemma ReachesSelf(aig: Aig, v: nat)
    ensures Reaches(aig, v, v)
  {
    assert Path(aig, [v]);
  }

  lemma ReachesMore(aig: Aig, v: nat, w: nat, x: nat)
    requires Reaches(aig, v, w) && Edge(aig, w, x)
    ensures Reaches(aig, v, x)
  {
    var p :| |p| > 0 && Path(aig, p) && p[0] == v && p[|p| - 1] == w;
    var p' := p + [x];
    assert Path(aig, p');
  }

  lemma ReachesTransitive(aig: Aig, v: nat, w: nat, x: nat)
    requires Reaches(aig, v, w) && Reaches(aig, w, x)
    ensures Reaches(aig, v, x)
  {
    var p :| |p| > 0 && Path(aig, p) && p[0] == v && p[|p| - 1] == w;
    var q :| |q| > 0 && Path(aig, q) && q[0] == w && q[|q| - 1] == x;
    var r := p + q[1..];
    forall i | 0 <= i < |r| - 1
      ensures Edge(aig, r[i], r[i + 1])
    {
      if i < |p| - 1 {
        assert Edge(aig, p[i], p[i + 1]);
      } else {
        var j := i - (|p| - 1);
        assert Edge(aig, q[j], q[j + 1]);
      }
    }
    assert Path(aig, r);
  }

  // ------------------------------------------------------------------
  // The stack
  // ------------------------------------------------------------------

  function Top(stack: seq<nat>): nat
    requires |stack| > 0
  {
    stack[|stack| - 1]
  }

  function Pop(stack: seq<nat>): seq<nat>
    requires |stack| > 0
  {
    stack[..|stack| - 1]
  }

  /** The open gates, outermost first. */
  ghost function Opened(stack: seq<nat>): seq<nat>
    decreases |stack|
  {
    if stack == [] then []
    else if Top(stack) == 0 && |stack| >= 2 then Opened(Pop(Pop(stack))) + [Top(Pop(stack))]
    else Opened(Pop(stack))
  }

  /** Every entry is an input of the gate opened last below it. */
  ghost predicate Shape(aig: Aig, stack: seq<nat>)
    decreases |stack|
  {
    stack == []
    || (&& Shape(aig, Pop(stack))
        && if Top(stack) == 0 then
             |stack| >= 2 && Top(Pop(stack)) != 0
           else
             Opened(Pop(stack)) == [] || Edge(aig, Top(Opened(Pop(stack))), Top(stack)))
  }

  /** Every input of an open gate is settled or waits above the gate. */
  ghost predicate Covered(aig: Aig, stack: seq<nat>, settled: set<nat>)
    decreases |stack|
  {
    if stack == [] then true
    else if Top(stack) == 0 && |stack| >= 2 then
      && (forall w {:trigger Edge(aig, Top(Pop(stack)), w)} :: Edge(aig, Top(Pop(stack)), w) ==> w in settled)
      && Covered(aig, Pop(Pop(stack)), settled + {Top(Pop(stack))})
    else Covered(aig, Pop(stack), settled + {Top(stack)})
  }

  lemma {:induction false} CoveredByMore(aig: Aig, stack: seq<nat>, settled: set<nat>, more: set<nat>)
    requires Covered(aig, stack, settled) && settled <= more
    ensures Covered(aig, stack, more)
    decreases |stack|
  {
    if stack == [] {
    } else if Top(stack) == 0 && |stack| >= 2 {
      CoveredByMore(aig, Pop(Pop(stack)), settled + {Top(Pop(stack))}, more + {Top(Pop(stack))});
    } else {
      CoveredByMore(aig, Pop(stack), settled + {Top(stack)}, more + {Top(stack)});
    }
  }

  ghost predicate SearchInvariant(aig: Aig, stack: seq<nat>, settled: set<nat>) {
    && Shape(aig, stack)
    && Covered(aig, stack, settled)
    && Distinct(Opened(stack))
    && 0 in settled
    && (forall v :: v in Opened(stack) ==> IsAndVar(aig, v) && v !in settled)
  }

  /** The open gates form a path. */
  lemma {:induction false} OpenedIsPath(aig: Aig, stack: seq<nat>)
    requires Shape(aig, stack)
    ensures Path(aig, Opened(stack))
    decreases |stack|
  {
    if stack == [] {
    } else if Top(stack) == 0 {
      OpenedIsPath(aig, Pop(Pop(stack)));
      assert Shape(aig, Pop(stack));
    } else {
      OpenedIsPath(aig, Pop(stack));
    }
  }

  /** An edge back to a node of a path closes a cycle. */
  lemma EdgeBackIsCycle(aig: Aig, open: seq<nat>, w: nat)
    requires Path(aig, open) && open != [] && Edge(aig, Top(open), w) && w in open
    ensures Cyclic(aig)
  {
    var i :| 0 <= i < |open| && open[i] == w;
    var p := open[i..] + [w];
    forall j | 0 <= j < |p| - 1
      ensures Edge(aig, p[j], p[j + 1])
    {
      assert p[j] == open[i + j];
      if j < |p| - 2 {
        assert Edge(aig, open[i + j], open[i + j + 1]);
      }
    }
    assert IsCycle(aig, p);
  }

  /** An entry that is open further below closes a cycle. */
  lemma ReopenedIsCycle(aig: Aig, stack: seq<nat>, settled: set<nat>)
    requires SearchInvariant(aig, stack, settled)
    requires |stack| > 0 && Top(stack) != 0 && Top(stack) in Opened(stack)
    ensures Cyclic(aig)
  {
    OpenedIsPath(aig, Pop(stack));
    EdgeBackIsCycle(aig, Opened(Pop(stack)), Top(stack));
  }

  /** So does an entry with an open input. */
  lemma OpenInputIsCycle(aig: Aig, stack: seq<nat>, settled: set<nat>, w: nat)
    requires SearchInvariant(aig, stack, settled) && |stack| > 0 && Top(stack) != 0
    requires Edge(aig, Top(stack), w) && w in Opened(stack) + [Top(stack)]
    ensures Cyclic(aig)
  {
    var marked := stack + [0];
    assert Pop(marked) == stack;
    OpenedIsPath(aig, marked);
    EdgeBackIsCycle(aig, Opened(marked), w);
  }

  // ------------------------------------------------------------------
  // The three moves of the search
  // ------------------------------------------------------------------

  lemma EntryIsNoMark(stack: seq<nat>)
    requires |stack| > 0 && Top(stack) != 0
    ensures Opened(stack) == Opened(Pop(stack))
  {
  }

  /** Dropping an entry that is settled already. */
  lemma SkipKeepsInvariant(aig: Aig, stack: seq<nat>, settled: set<nat>)
    requires SearchInvariant(aig, stack, settled)
    requires |stack| > 0 && Top(stack) != 0 && Top(stack) in settled
    ensures SearchInvariant(aig, Pop(stack), settled) && Opened(stack) == Opened(Pop(stack))
  {
    assert settled + {Top(stack)} == settled;
  }

  lemma {:induction false} PushInputs(aig: Aig, stack: seq<nat>, settled: set<nat>, children: seq<nat>)
    requires Shape(aig, stack) && Opened(stack) != []
    requires forall w :: w in children ==> w != 0 && Edge(aig, Top(Opened(stack)), w)
    requires Covered(aig, stack, settled + (set w | w in children))
    ensures Shape(aig, stack + children) && Opened(stack + children) == Opened(stack)
    ensures Covered(aig, stack + children, settled)
    decreases |children|
  {
    if children == [] {
      assert stack + children == stack;
      assert settled + (set w | w in children) == settled;
    } else {
      var (init, last) := (Pop(children), Top(children));
      assert children == init + [last];
      assert settled + (set w | w in children) == (settled + {last}) + (set w | w in init);
      assert forall w :: w in init ==> w in children;
      PushInputs(aig, stack, settled + {last}, init);
      assert Pop(stack + children) == stack + init && Top(stack + children) == last;
      assert last in children;
    }
  }

  /** Opening the gate on top: it gets a mark and its unsettled inputs go above it. */
  lemma OpenKeepsInvariant(aig: Aig, stack: seq<nat>, settled: set<nat>, children: seq<nat>)
    requires SearchInvariant(aig, stack, settled)
    requires |stack| > 0 && IsAndVar(aig, Top(stack)) && Top(stack) != 0
    requires Top(stack) !in settled && Top(stack) !in Opened(Pop(stack))
    requires forall w :: w in children ==> w != 0 && Edge(aig, Top(stack), w)
    requires forall w {:trigger Edge(aig, Top(stack), w)} :: Edge(aig, Top(stack), w) ==> w in settled || w in children
    ensures SearchInvariant(aig, stack + [0] + children, settled)
    ensures Opened(stack + [0] + children) == Opened(Pop(stack)) + [Top(stack)]
  {
    var marked := stack + [0];
    assert Pop(marked) == stack;
    var more := settled + (set w | w in children);
    assert Opened(marked) == Opened(Pop(stack)) + [Top(stack)];
    CoveredByMore(aig, Pop(stack), settled + {Top(stack)}, more + {Top(stack)});
    assert Covered(aig, marked, more);
    PushInputs(aig, marked, settled, children);
  }

  /** Closing the gate under the mark: all its inputs are settled, and now so is the gate. */
  lemma CloseKeepsInvariant(aig: Aig, stack: seq<nat>, settled: set<nat>)
    requires SearchInvariant(aig, stack, settled)
    requires |stack| > 0 && Top(stack) == 0
    ensures |stack| >= 2 && Top(Pop(stack)) != 0
    ensures var v := Top(Pop(stack));
            && IsAndVar(aig, v) && v !in settled
            && v !in Opened(Pop(Pop(stack))) && Opened(stack) == Opened(Pop(Pop(stack))) + [v]
            && (forall w {:trigger Edge(aig, v, w)} :: Edge(aig, v, w) ==> w in settled)
            && SearchInvariant(aig, Pop(Pop(stack)), settled + {v})
  {
    var v, rest := Top(Pop(stack)), Pop(Pop(stack));
    var open := Opened(stack);
    assert open == Opened(rest) + [v];
    assert open[|open| - 1] == v;
    assert forall i :: 0 <= i < |open| - 1 ==> open[i] == Opened(rest)[i] && open[i] != open[|open| - 1];
    assert Shape(aig, Pop(stack));
  }
}
