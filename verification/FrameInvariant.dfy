/**
 * The invariant that PDR and forward CAR keep on their frames, what blocking a
 * cube and opening a frame do to it, and the sizes that make the engines stop.
 */
module FrameInvariants {
  import opened Logic
  import opened TransitionSystems
  import opened Frames

  /** No state of R_i steps to a state outside R_{i+1}. */
  ghost predicate Consecutive(sys: TransitionSystem, trace: Trace, cumulative: bool)
    requires sys.WellFormed()
  {
    forall i, p, y {:trigger InFrame(sys, trace, cumulative, i, p), sys.Succ(p, y)} ::
      0 <= i < |trace| - 1 && sys.IsState(p) && sys.IsInput(y) && InFrame(sys, trace, cumulative, i, p) ==>
        InFrame(sys, trace, cumulative, i + 1, sys.Succ(p, y))
  }

  ghost predicate NoErrorIn(sys: TransitionSystem, trace: Trace, cumulative: bool, i: int)
    requires sys.WellFormed()
  {
    forall p, y {:trigger sys.Error(p, y)} ::
      sys.IsState(p) && sys.IsInput(y) && InFrame(sys, trace, cumulative, i, p) ==> !sys.Error(p, y)
  }

  ghost predicate MissesInit(sys: TransitionSystem, c: seq<Literal>) {
    forall s :: sys.IsState(s) && sys.Init(s) ==> !CubeTrue(s, c)
  }

  /** R_0 is Init; R_i steps into R_{i+1}; below the newest frame there is no error. */
  ghost predicate FrameInvariant(sys: TransitionSystem, trace: Trace, cumulative: bool)
    requires sys.WellFormed()
  {
    && |trace| > 0 && trace[0] == []
    && StateTrace(sys, trace)
    && (cumulative ==> forall j, c :: 0 <= j < |trace| && c in trace[j] ==> MissesInit(sys, c.literals))
    && Consecutive(sys, trace, cumulative)
    && (forall i :: 0 <= i < |trace| - 1 ==> NoErrorIn(sys, trace, cumulative, i))
  }

  /**
   * No state of R_j (outside the cube, for PDR) has a successor in the cube:
   * for PDR, the negated cube is inductive relative to R_j.
   */
  ghost predicate Blockable(sys: TransitionSystem, trace: Trace, cumulative: bool, c: seq<Literal>, j: int)
    requires sys.WellFormed()
  {
    forall p, y {:trigger sys.Succ(p, y)} ::
      sys.IsState(p) && sys.IsInput(y) && InFrame(sys, trace, cumulative, j, p)
      && (cumulative ==> !CubeTrue(p, c)) ==>
        !CubeTrue(sys.Succ(p, y), c)
  }

  lemma InitInEveryFrame(sys: TransitionSystem, trace: Trace, i: int, s: State)
    requires sys.WellFormed() && FrameInvariant(sys, trace, true)
    requires sys.IsState(s) && sys.Init(s)
    ensures InFrame(sys, trace, true, i, s)
  {
    forall j, c | 0 <= i <= j < |trace| && c in trace[j]
      ensures !CubeTrue(s, c.literals)
    {
      assert MissesInit(sys, c.literals);
    }
  }

  lemma FramesGrow(sys: TransitionSystem, trace: Trace, i: int, k: int, s: State)
    requires sys.WellFormed() && FrameInvariant(sys, trace, true)
    requires sys.IsState(s) && 0 <= i <= k && InFrame(sys, trace, true, i, s)
    ensures InFrame(sys, trace, true, k, s)
  {
    if k == 0 {
    } else {
      forall j | k <= j < |trace|
        ensures Avoids(s, trace[j])
      {
      }
    }
  }

  lemma LastStep(sys: TransitionSystem, k: nat, s: State) returns (p: State, y: Input)
    requires sys.WellFormed() && k > 0 && sys.Reachable(k, s)
    ensures sys.IsState(p) && sys.IsInput(y) && sys.Reachable(k - 1, p) && s == sys.Succ(p, y) && sys.IsState(s)
  {
    p, y :| sys.IsState(p) && sys.IsInput(y) && sys.Reachable(k - 1, p) && s == sys.Succ(p, y);
  }

  lemma StepToNextFrame(sys: TransitionSystem, trace: Trace, cumulative: bool, i: nat, p: State, y: Input)
    requires sys.WellFormed() && FrameInvariant(sys, trace, cumulative) && i + 1 < |trace|
    requires sys.IsState(p) && sys.IsInput(y) && InFrame(sys, trace, cumulative, i, p)
    ensures InFrame(sys, trace, cumulative, i + 1, sys.Succ(p, y))
  {
    hide TransitionSystem.WellFormed, InFrame;
  }

  lemma InitIsInFrameZero(sys: TransitionSystem, trace: Trace, cumulative: bool, s: State)
    requires sys.WellFormed() && FrameInvariant(sys, trace, cumulative) && 0 < |trace|
    requires sys.Reachable(0, s)
    ensures sys.IsState(s) && InFrame(sys, trace, cumulative, 0, s)
  {
    if cumulative {
      InitInEveryFrame(sys, trace, 0, s);
    }
  }

  /** The states reachable in exactly k steps lie in R_k. */
  lemma {:induction false} ReachableInFrame(sys: TransitionSystem, trace: Trace, cumulative: bool, k: nat, s: State)
    requires sys.WellFormed() && FrameInvariant(sys, trace, cumulative)
    requires k < |trace| && sys.Reachable(k, s)
    ensures sys.IsState(s) && InFrame(sys, trace, cumulative, k, s)
  {
    hide TransitionSystem.WellFormed, FrameInvariant, InFrame, TransitionSystem.Reachable;
    if k == 0 {
      InitIsInFrameZero(sys, trace, cumulative, s);
    } else {
      var p, y := LastStep(sys, k, s);
      ReachableInFrame(sys, trace, cumulative, k - 1, p);
      StepToNextFrame(sys, trace, cumulative, k - 1, p, y);
    }
  }

  lemma NothingInIsEmpty<T>(xs: seq<T>)
    ensures (forall x :: x !in xs) ==> xs == []
  {
    if xs != [] {
      assert xs[0] in xs;
    }
  }

  /** Blocking a blockable cube at frame k keeps the invariant. */
  lemma BlockingKeepsInvariant(
    sys: TransitionSystem, trace: Trace, trace': Trace, cumulative: bool, c: Cube, k: int, j: int)
    requires sys.WellFormed() && FrameInvariant(sys, trace, cumulative)
    requires 1 <= k < |trace| == |trace'| && BlockedIn(trace, trace', cumulative, c, k)
    requires sys.IsStateCube(c.literals) && (cumulative ==> MissesInit(sys, c.literals))
    requires Blockable(sys, trace, cumulative, c.literals, j)
    requires if cumulative then k - 1 <= j else k - 1 == j
    ensures FrameInvariant(sys, trace', cumulative)
  {
    assert forall d :: d in trace'[0] ==> d in trace[0];
    NothingInIsEmpty(trace'[0]);
    forall i, p, y | 0 <= i < |trace| - 1 && sys.IsState(p) && sys.IsInput(y) && InFrame(sys, trace', cumulative, i, p)
      ensures InFrame(sys, trace', cumulative, i + 1, sys.Succ(p, y))
    {
      BlockingMeaning(sys, trace, trace', cumulative, c, k, i, p);
      BlockingMeaning(sys, trace, trace', cumulative, c, k, i + 1, sys.Succ(p, y));
      if cumulative && i + 1 <= k {
        FramesGrow(sys, trace, i, j, p);
        assert !CubeTrue(p, c.literals);
      }
    }
    forall i | 0 <= i < |trace| - 1
      ensures NoErrorIn(sys, trace', cumulative, i)
    {
      forall p, y | sys.IsState(p) && sys.IsInput(y) && InFrame(sys, trace', cumulative, i, p)
        ensures !sys.Error(p, y)
      {
        BlockingMeaning(sys, trace, trace', cumulative, c, k, i, p);
        assert NoErrorIn(sys, trace, cumulative, i);
      }
    }
  }

  lemma PushMeaning(sys: TransitionSystem, trace: Trace, cumulative: bool, i: int, s: State)
    ensures InFrame(sys, trace + [[]], cumulative, i, s) <==> InFrame(sys, trace, cumulative, i, s)
  {
    var trace' := trace + [[]];
    if AvoidsFrom(s, trace', cumulative, i) {
      forall j | 0 <= i <= j < |trace| && (cumulative || j == i)
        ensures Avoids(s, trace[j])
      {
        assert trace'[j] == trace[j];
      }
    }
    if AvoidsFrom(s, trace, cumulative, i) {
      forall j | 0 <= i <= j < |trace'| && (cumulative || j == i)
        ensures Avoids(s, trace'[j])
      {
        if j < |trace| {
          assert trace'[j] == trace[j];
        }
      }
    }
  }

  /** Opening a frame above an error-free one keeps the invariant. */
  lemma PushKeepsInvariant(sys: TransitionSystem, trace: Trace, cumulative: bool)
    requires sys.WellFormed() && FrameInvariant(sys, trace, cumulative)
    requires NoErrorIn(sys, trace, cumulative, |trace| - 1)
    ensures FrameInvariant(sys, trace + [[]], cumulative)
  {
    var trace' := trace + [[]];
    forall i, p, y | 0 <= i < |trace'| - 1 && sys.IsState(p) && sys.IsInput(y) && InFrame(sys, trace', cumulative, i, p)
      ensures InFrame(sys, trace', cumulative, i + 1, sys.Succ(p, y))
    {
      PushMeaning(sys, trace, cumulative, i, p);
      PushMeaning(sys, trace, cumulative, i + 1, sys.Succ(p, y));
      if i + 1 < |trace| {
        assert InFrame(sys, trace, cumulative, i + 1, sys.Succ(p, y));
      }
    }
    forall i | 0 <= i < |trace'| - 1
      ensures NoErrorIn(sys, trace', cumulative, i)
    {
      forall p, y | sys.IsState(p) && sys.IsInput(y) && InFrame(sys, trace', cumulative, i, p)
        ensures !sys.Error(p, y)
      {
        PushMeaning(sys, trace, cumulative, i, p);
        assert NoErrorIn(sys, trace, cumulative, i);
      }
    }
  }

  lemma InitialTraceInvariant(sys: TransitionSystem, cumulative: bool)
    requires sys.WellFormed()
    ensures FrameInvariant(sys, [[]], cumulative)
  {
  }

  // ------------------------------------------------------------------
  // Sizes
  // ------------------------------------------------------------------

  ghost function AllStates(sys: TransitionSystem): (ss: set<State>)
    ensures forall s :: s in ss <==> sys.IsState(s)
  {
    assert forall s: State :: s <= sys.states.Vars() <==> sys.IsState(s);
    set s: State | s <= sys.states.Vars()
  }

  ghost function FrameStates(sys: TransitionSystem, trace: Trace, cumulative: bool, i: int): (ss: set<State>)
    ensures forall s :: s in ss <==> sys.IsState(s) && InFrame(sys, trace, cumulative, i, s)
  {
    set s | s in AllStates(sys) && InFrame(sys, trace, cumulative, i, s)
  }

  /** The number of states in R_i, R_{i+1}, ..., counted with repetition. */
  ghost function SizeFrom(sys: TransitionSystem, trace: Trace, cumulative: bool, i: int): nat
    decreases |trace| - i
  {
    if i >= |trace| then 0
    else FrameSize(sys, trace, cumulative, i) + SizeFrom(sys, trace, cumulative, i + 1)
  }

  ghost predicate FramesWithin(sys: TransitionSystem, trace': Trace, trace: Trace, cumulative: bool, i: int) {
    forall m, s {:trigger InFrame(sys, trace', cumulative, m, s)} ::
      i <= m && InFrame(sys, trace', cumulative, m, s) ==> InFrame(sys, trace, cumulative, m, s)
  }

  ghost function FrameSize(sys: TransitionSystem, trace: Trace, cumulative: bool, i: int): nat {
    |FrameStates(sys, trace, cumulative, i)|
  }

  lemma FrameShrinks(sys: TransitionSystem, trace: Trace, trace': Trace, cumulative: bool, i: int)
    requires FramesWithin(sys, trace', trace, cumulative, i)
    ensures FrameSize(sys, trace', cumulative, i) <= FrameSize(sys, trace, cumulative, i)
    ensures (exists s :: s in FrameStates(sys, trace, cumulative, i) - FrameStates(sys, trace', cumulative, i)) ==>
              FrameSize(sys, trace', cumulative, i) < FrameSize(sys, trace, cumulative, i)
  {
    SubsetIsSmaller(FrameStates(sys, trace', cumulative, i), FrameStates(sys, trace, cumulative, i));
  }

  lemma WithinFromLater(sys: TransitionSystem, trace: Trace, trace': Trace, cumulative: bool, i: int)
    requires FramesWithin(sys, trace', trace, cumulative, i)
    ensures FramesWithin(sys, trace', trace, cumulative, i + 1)
  {
  }

  lemma {:induction false} SizeShrinks(
    sys: TransitionSystem, trace: Trace, trace': Trace, cumulative: bool, i: int)
    requires |trace| == |trace'|
    requires FramesWithin(sys, trace', trace, cumulative, i)
    ensures SizeFrom(sys, trace', cumulative, i) <= SizeFrom(sys, trace, cumulative, i)
    decreases |trace| - i
  {
    hide FramesWithin, FrameSize, FrameStates;
    if i < |trace| {
      FrameShrinks(sys, trace, trace', cumulative, i);
      WithinFromLater(sys, trace, trace', cumulative, i);
      SizeShrinks(sys, trace, trace', cumulative, i + 1);
    }
  }

  lemma {:induction false} SizeShrinksStrictly(
    sys: TransitionSystem, trace: Trace, trace': Trace, cumulative: bool, i: int, k: int)
    requires |trace| == |trace'| && i <= k < |trace|
    requires FramesWithin(sys, trace', trace, cumulative, i)
    requires FrameSize(sys, trace', cumulative, k) < FrameSize(sys, trace, cumulative, k)
    ensures SizeFrom(sys, trace', cumulative, i) < SizeFrom(sys, trace, cumulative, i)
    decreases |trace| - i
  {
    hide FramesWithin, FrameSize, FrameStates;
    FrameShrinks(sys, trace, trace', cumulative, i);
    WithinFromLater(sys, trace, trace', cumulative, i);
    if i < k {
      SizeShrinksStrictly(sys, trace, trace', cumulative, i + 1, k);
    } else {
      SizeShrinks(sys, trace, trace', cumulative, i + 1);
    }
  }

  /** Blocking a cube that still meets R_m makes the frames strictly smaller. */
  lemma BlockingShrinksFrames(
    sys: TransitionSystem, trace: Trace, trace': Trace, cumulative: bool, c: Cube, k: int)
    requires 1 <= k < |trace| == |trace'| && BlockedIn(trace, trace', cumulative, c, k)
    ensures SizeFrom(sys, trace', cumulative, 1) <= SizeFrom(sys, trace, cumulative, 1)
    ensures (exists m, s :: 1 <= m <= k && (cumulative || m == k) && sys.IsState(s)
                            && InFrame(sys, trace, cumulative, m, s) && CubeTrue(s, c.literals)) ==>
              SizeFrom(sys, trace', cumulative, 1) < SizeFrom(sys, trace, cumulative, 1)
  {
    forall m, s | 1 <= m && InFrame(sys, trace', cumulative, m, s)
      ensures InFrame(sys, trace, cumulative, m, s)
    {
      BlockingMeaning(sys, trace, trace', cumulative, c, k, m, s);
    }
    SizeShrinks(sys, trace, trace', cumulative, 1);
    if m, s :| 1 <= m <= k && (cumulative || m == k) && sys.IsState(s)
               && InFrame(sys, trace, cumulative, m, s) && CubeTrue(s, c.literals) {
      BlockingMeaning(sys, trace, trace', cumulative, c, k, m, s);
      assert s in FrameStates(sys, trace, cumulative, m) - FrameStates(sys, trace', cumulative, m);
      FrameShrinks(sys, trace, trace', cumulative, m);
      SizeShrinksStrictly(sys, trace, trace', cumulative, 1, m);
    }
  }

  ghost function Pow2(n: nat): nat {
    if n == 0 then 1 else 2 * Pow2(n - 1)
  }

  lemma PowPositive(n: nat)
    ensures Pow2(n) >= 1
  {
  }

  ghost function Subsets(vs: set<int>): (ss: set<set<int>>)
    ensures forall s :: s in ss <==> s <= vs
  {
    set s: set<int> | s <= vs
  }

  /** A set of n variables has 2^n subsets. */
  lemma {:induction false} SubsetsCount(vs: set<int>)
    ensures |Subsets(vs)| == Pow2(|vs|)
    decreases |vs|
  {
    if |vs| == 0 {
      assert vs == {};
      assert Subsets(vs) == {{}} by {
        forall s | s in Subsets(vs)
          ensures s == {}
        {
          assert s <= vs;
        }
        assert {} in Subsets(vs);
      }
    } else {
      var v := SomeElement(vs);
      SubsetsCount(vs - {v});
      SubsetsDouble(vs - {v}, v);
      assert vs - {v} + {v} == vs;
    }
  }

  lemma SomeElement<T>(vs: set<T>) returns (v: T)
    requires |vs| > 0
    ensures v in vs
  {
    v :| v in vs;
  }

  lemma SubsetsDouble(ws: set<int>, v: int)
    requires v !in ws
    ensures |Subsets(ws + {v})| == 2 * |Subsets(ws)|
  {
    var grown := set s | s in Subsets(ws) :: s + {v};
    AddingElementIsInjective(Subsets(ws), v);
    SubsetsSplit(ws, v);
    assert |Subsets(ws) + grown| == |Subsets(ws)| + |grown|;
  }

  lemma SubsetsSplit(ws: set<int>, v: int)
    requires v !in ws
    ensures var grown := set s | s in Subsets(ws) :: s + {v};
            Subsets(ws + {v}) == Subsets(ws) + grown && Subsets(ws) !! grown
  {
    var grown := set s | s in Subsets(ws) :: s + {v};
    forall s
      ensures s in Subsets(ws + {v}) <==> s in Subsets(ws) + grown
    {
      if s in Subsets(ws + {v}) && v in s {
        assert s == (s - {v}) + {v};
        assert s - {v} in Subsets(ws);
      }
    }
  }

  lemma {:induction false} AddingElementIsInjective(ss: set<set<int>>, v: int)
    requires forall s :: s in ss ==> v !in s
    ensures |set s | s in ss :: s + {v}| == |ss|
    decreases |ss|
  {
    var image := set s | s in ss :: s + {v};
    if ss != {} {
      var s :| s in ss;
      var rest := ss - {s};
      var restImage := set r | r in rest :: r + {v};
      AddingElementIsInjective(rest, v);
      forall r | r in rest
        ensures r + {v} != s + {v}
      {
        assert (r + {v}) - {v} == r && (s + {v}) - {v} == s;
      }
      assert image == restImage + {s + {v}};
      assert s + {v} !in restImage;
    }
  }

  lemma StatesCount(sys: TransitionSystem)
    requires sys.DisjointRanges()
    ensures sys.states.Size() >= 0
    ensures |AllStates(sys)| == Pow2(sys.states.Size())
  {
    RangeCount(sys.states);
    SubsetsCount(sys.states.Vars());
    assert AllStates(sys) == Subsets(sys.states.Vars());
  }

  lemma {:induction false} RangeCount(range: VariableRange)
    requires range.Valid()
    ensures |range.Vars()| == range.Size()
    decreases range.Size()
  {
    if range.begin == range.end {
      assert range.Vars() == {};
    } else {
      var shorter := VariableRange(range.begin, range.end - 1);
      RangeCount(shorter);
      assert range.Vars() == shorter.Vars() + {range.end - 1};
    }
  }
}
