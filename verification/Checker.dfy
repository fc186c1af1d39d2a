/**
 * The online proof checker of CaDiCaL (dep/cadical/src/checker.hpp,
 * dep/cadical/src/checker.cpp). It accepts a derived clause if unit propagation
 * from the clause's negation runs into a conflict.
 */
module Checkers {
  import opened Logic
  import opened Watching
  import opened Records

  /** What holds of the data structures while the list of fl is being rebuilt. */
  ghost predicate Rebuilding(
    f: Cnf, heap: Heap, watchers: Watchers, vals: map<Literal, int>, trail: seq<Literal>, sizeVars: int,
    fl: Literal, list: seq<Watch>)
  {
    && InVars(fl, sizeVars) && fl in watchers
    && HeapOk(f, heap, sizeVars)
    && WatchesOk(f, heap, watchers[fl := list], sizeVars)
    && Watched(heap, watchers[fl := list])
    && ValsMatch(vals, trail, sizeVars)
  }

  class Checker {
    // one more than the largest variable there is room for
    var sizeVars: int
    var vals: map<Literal, int>
    var watchers: Watchers
    // clause records by reference; freed references are no longer keys
    var heap: Heap
    var nextRef: Ref
    // the chain of the hash table, and the records marked as garbage
    var table: seq<Ref>
    var garbage: seq<Ref>
    // the size of the hash table
    var capacity: nat
    var inconsistent: bool
    var trail: seq<Literal>
    var next: nat
    const nonces: seq<nat>
    // all original clauses added so far
    ghost var originals: Cnf

    ghost predicate Structure()
      reads this`originals, this`heap, this`watchers, this`vals, this`trail, this`sizeVars
    {
      && HeapOk(originals, heap, sizeVars)
      && WatchesOk(originals, heap, watchers, sizeVars)
      && Watched(heap, watchers)
      && ValsMatch(vals, trail, sizeVars)
    }

    /** The propagation state: everything before `next` has been propagated. */
    ghost predicate Searching(assumed: seq<Literal>, base: seq<Literal>)
      reads this`originals, this`heap, this`watchers, this`vals, this`trail, this`sizeVars, this`next
    {
      && Structure()
      && Entails(originals, assumed, trail)
      && base <= trail && next <= |trail|
      && Guarded(heap, trail, trail[..next]) && Guarded(heap, base, base)
    }

    // ----------------------------------------------------------------
    // Propagation
    // ----------------------------------------------------------------

    method Assign(lit: Literal)
      requires ValsMatch(vals, trail, sizeVars) && InVars(lit, sizeVars) && vals[lit] == 0
      modifies this`vals, this`trail
      ensures ValsMatch(vals, trail, sizeVars) && trail == old(trail) + [lit]
    {
      ValsAfterAssign(vals, trail, sizeVars, lit);
      vals := vals[lit := 1][Not(lit) := -1];
      trail := trail + [lit];
    }

    /** The first position from 2 on whose literal is not false. */
    method FindReplacement(ls: seq<Literal>) returns (k: nat)
      requires ValsMatch(vals, trail, sizeVars) && ClauseInVars(ls, sizeVars) && |ls| >= 2
      ensures 2 <= k <= |ls|
      ensures k < |ls| ==> Not(ls[k]) !in trail
      ensures forall i :: 2 <= i < k ==> Not(ls[i]) in trail
    {
      k := 2;
      while k < |ls| && vals[ls[k]] < 0
        invariant 2 <= k <= |ls|
        invariant forall i :: 2 <= i < k ==> Not(ls[i]) in trail
      {
        k := k + 1;
      }
    }

    /** The same with the false literal in second place and the first one not true. */
    method VisitNormalized(
      fl: Literal, ghost kept: seq<Watch>, w: Watch, ghost rest: seq<Watch>,
      ghost assumed: seq<Literal>, ghost base: seq<Literal>, ghost done: seq<Literal>)
      returns (keep: bool, w': Watch, conflict: bool)
      requires Rebuilding(originals, heap, watchers, vals, trail, sizeVars, fl, kept + [w] + rest)
      requires Entails(originals, assumed, trail) && Not(fl) in trail
      requires Guarded(heap, trail, done) && Guarded(heap, base, base) && Handled(heap, trail, fl, [w] + rest)
      requires forall l :: l in done || l in base ==> l in trail
      requires w.size > 2 && IsLive(heap, w.clause) && WatchOk(originals, heap, sizeVars, fl, w)
      requires heap[w.clause].literals[1] == fl && heap[w.clause].literals[0] !in trail
      modifies this`heap, this`watchers, this`vals, this`trail
      ensures Rebuilding(
                originals, heap, watchers, vals, trail, sizeVars, fl, kept + (if keep then [w'] else []) + rest)
      ensures Entails(originals, assumed, trail) && old(trail) <= trail
      ensures Guarded(heap, trail, done) && Guarded(heap, base, base)
      ensures !conflict ==> Handled(heap, trail, fl, rest)
      ensures conflict ==> keep && Refuted(originals, assumed)
      ensures OnlyPermuted(old(heap), heap)
    {
      hide HeapOk, WatchesOk, Watched, Guarded, Handled, Entails, Implied, Refuted, SomeTrue, OnlyPermuted;
      var ls := heap[w.clause].literals;
      var other := ls[0];
      LiveRecord(originals, heap, sizeVars, w.clause);
      NothingPermuted(heap);
      var k := FindReplacement(ls);
      if k < |ls| {
        MoveWatch(fl, kept, w, rest, done, base, k);
        assert kept + [] + rest == kept + rest;
        return false, w, false;
      }
      OthersFalse(ls, other, fl, trail);
      if vals[other] == 0 {
        UnitFollows(originals, assumed, trail, ls, other);
        Assign(other);
        MoreTrail(heap, old(trail), trail, done, fl, [w] + rest);
        TrueLiteralHandles(heap, trail, fl, w, rest, other);
        return true, w, false;
      }
      ConflictRefutes(originals, assumed, trail, ls);
      return true, w, true;
    }

    /** A watch of a live clause with more than two literals; the watched literal fl is false. */
    method VisitLong(
      fl: Literal, ghost kept: seq<Watch>, w: Watch, ghost rest: seq<Watch>,
      ghost assumed: seq<Literal>, ghost base: seq<Literal>, ghost done: seq<Literal>)
      returns (keep: bool, w': Watch, conflict: bool)
      requires Rebuilding(originals, heap, watchers, vals, trail, sizeVars, fl, kept + [w] + rest)
      requires Entails(originals, assumed, trail) && base <= trail && Not(fl) in trail
      requires Guarded(heap, trail, done) && Guarded(heap, base, base) && Handled(heap, trail, fl, [w] + rest)
      requires forall l :: l in done || l in base ==> l in trail
      requires w.size > 2 && IsLive(heap, w.clause) && WatchOk(originals, heap, sizeVars, fl, w)
      modifies this`heap, this`watchers, this`vals, this`trail
      ensures Rebuilding(
                originals, heap, watchers, vals, trail, sizeVars, fl, kept + (if keep then [w'] else []) + rest)
      ensures Entails(originals, assumed, trail) && old(trail) <= trail
      ensures Guarded(heap, trail, done) && Guarded(heap, base, base)
      ensures !conflict ==> Handled(heap, trail, fl, rest)
      ensures conflict ==> keep && Refuted(originals, assumed)
      ensures OnlyPermuted(old(heap), heap)
    {
      hide HeapOk, WatchesOk, Watched, Guarded, Handled, Entails, Implied, Refuted, SomeTrue;
      var c := w.clause;
      var ls := heap[c].literals;
      LiveRecord(originals, heap, sizeVars, c);
      Xor3IsOther(ls[0], ls[1], fl);
      var other := Xor3(ls[0], ls[1], fl);
      if vals[other] > 0 {
        WatchesAfterReblit(originals, heap, watchers, sizeVars, fl, kept, w, rest, other);
        WatchedAfterReblit(heap, watchers, fl, kept, w, rest, other);
        TrueLiteralHandles(heap, trail, fl, w, rest, other);
        return true, w.(blit := other), false;
      }
      NormalizedSame(ls, other, fl);
      var ls' := Normalized(ls, other, fl);
      WatchesAfterNormalizing(originals, heap, watchers[fl := kept + [w] + rest], sizeVars, c, ls');
      HeapAfterPermutation(originals, heap, sizeVars, c, ls');
      TwoWatchesAfterNormalizing(heap, watchers[fl := kept + [w] + rest], trail, done, fl, [w] + rest, c, ls');
      TwoWatchesAfterNormalizing(heap, watchers, base, base, fl, [], c, ls');
      heap := heap[c := Permuted(heap[c], ls')];
      ghost var normalized := heap;
      keep, w', conflict := VisitNormalized(fl, kept, w, rest, assumed, base, done);
      PermutedTwice(old(heap), normalized, heap);
    }

    /** Gives up the watch at position 1 for the literal at position k, which is not false. */
    method MoveWatch(
      fl: Literal, ghost kept: seq<Watch>, w: Watch, ghost rest: seq<Watch>,
      ghost done: seq<Literal>, ghost base: seq<Literal>, k: nat)
      requires Rebuilding(originals, heap, watchers, vals, trail, sizeVars, fl, kept + [w] + rest)
      requires IsLive(heap, w.clause) && 2 <= k < |heap[w.clause].literals| && heap[w.clause].literals[1] == fl
      requires WatchOk(originals, heap, sizeVars, fl, w)
      requires Guarded(heap, trail, done) && Guarded(heap, base, base) && Handled(heap, trail, fl, [w] + rest)
      requires Not(heap[w.clause].literals[k]) !in done && Not(heap[w.clause].literals[k]) !in base
      modifies this`heap, this`watchers
      ensures Rebuilding(originals, heap, watchers, vals, trail, sizeVars, fl, kept + rest)
      ensures Guarded(heap, trail, done) && Guarded(heap, base, base) && Handled(heap, trail, fl, rest)
      ensures OnlyPermuted(old(heap), heap)
    {
      hide HeapOk, WatchesOk, Watched, Guarded, Handled, Implied, SomeTrue, Fits;
      var c := w.clause;
      var ls := heap[c].literals;
      LiveRecord(originals, heap, sizeVars, c);
      var r := ls[k];
      assert r in ls && ls[1] in ls;
      ExchangedSame(ls, k);
      var w' := Watch(fl, |ls|, c);
      ghost var heap' := heap[c := Permuted(heap[c], Exchanged(ls, k))];
      MovedWatch(originals, heap, watchers, sizeVars, fl, kept, w, rest, k, w');
      HeapAfterPermutation(originals, heap, sizeVars, c, Exchanged(ls, k));
      WatchedAfterExchange(heap, watchers, fl, kept, w, rest, k, w');
      TwoWatchesAfterExchange(heap, trail, done, c, k);
      TwoWatchesAfterExchange(heap, base, base, c, k);
      HandledAfterExchange(heap, trail, fl, w, rest, k);
      watchers := watchers[r := watchers[r] + [w']];
      heap := heap[c := Permuted(heap[c], Exchanged(ls, k))];
    }

    /** Looks at one watch of the false literal fl. */
    method VisitWatch(
      fl: Literal, ghost kept: seq<Watch>, w: Watch, ghost rest: seq<Watch>,
      ghost assumed: seq<Literal>, ghost base: seq<Literal>, ghost done: seq<Literal>)
      returns (keep: bool, w': Watch, conflict: bool)
      requires Rebuilding(originals, heap, watchers, vals, trail, sizeVars, fl, kept + [w] + rest)
      requires Entails(originals, assumed, trail) && base <= trail && Not(fl) in trail
      requires Guarded(heap, trail, done) && Guarded(heap, base, base) && Handled(heap, trail, fl, [w] + rest)
      requires forall l :: l in done || l in base ==> l in trail
      modifies this`heap, this`watchers, this`vals, this`trail
      ensures Rebuilding(
                originals, heap, watchers, vals, trail, sizeVars, fl, kept + (if keep then [w'] else []) + rest)
      ensures Entails(originals, assumed, trail) && old(trail) <= trail
      ensures Guarded(heap, trail, done) && Guarded(heap, base, base)
      ensures !conflict ==> Handled(heap, trail, fl, rest)
      ensures conflict ==> keep && Refuted(originals, assumed)
      ensures OnlyPermuted(old(heap), heap)
    {
      hide HeapOk, WatchesOk, Watched, Guarded, Handled, Entails, Implied, Refuted, SomeTrue, OnlyPermuted;
      EntryIsOk(originals, heap, watchers, sizeVars, fl, kept, w, rest);
      NothingPermuted(heap);
      var blit := w.blit;
      if vals[blit] > 0 {
        TrueBlitHandles(heap, trail, fl, w, rest, originals, sizeVars);
        return true, w, false;
      }
      if w.size == 2 {
        if vals[blit] < 0 {
          BinaryConflict(originals, assumed, trail, fl, blit);
          return true, w, true;
        }
        BinaryUnit(originals, assumed, trail, fl, blit);
        Assign(blit);
        MoreTrail(heap, old(trail), trail, done, fl, [w] + rest);
        TrueBlitHandles(heap, trail, fl, w, rest, originals, sizeVars);
        return true, w, false;
      }
      if heap[w.clause].size == 0 {
        WatchesAfterDrop(originals, heap, watchers, sizeVars, fl, kept, w, rest);
        WatchedAfterDrop(heap, watchers, fl, kept, w, rest);
        VisitedOne(heap, trail, fl, w, rest);
        assert kept + [] + rest == kept + rest;
        return false, w, false;
      }
      keep, w', conflict := VisitLong(fl, kept, w, rest, assumed, base, done);
    }

    /** Goes through the watches of the literal that has become false. */
    method PropagateLiteral(
      lit: Literal, ghost assumed: seq<Literal>, ghost base: seq<Literal>, ghost done: seq<Literal>)
      returns (res: bool)
      requires Structure() && Entails(originals, assumed, trail) && base <= trail && lit in trail
      requires Guarded(heap, trail, done) && Guarded(heap, base, base)
      requires forall l :: l in done || l in base ==> l in trail
      modifies this`heap, this`watchers, this`vals, this`trail
      ensures Structure() && Entails(originals, assumed, trail) && old(trail) <= trail
      ensures Guarded(heap, base, base)
      ensures res ==> Guarded(heap, trail, done + [lit])
      ensures !res ==> Refuted(originals, assumed)
      ensures OnlyPermuted(old(heap), heap)
    {
      hide HeapOk, WatchesOk, Watched, Guarded, Handled, Entails, Refuted, OnlyPermuted;
      var fl := Not(lit);
      InTables(originals, heap, watchers, vals, trail, sizeVars, lit);
      var ws := watchers[fl];
      var kept, i := [], 0;
      res := true;
      StartHandling(heap, watchers, trail, fl);
      NothingPermuted(heap);
      assert [] + ws == ws;
      assert watchers[fl := [] + ws] == watchers;
      assert ws[0..] == ws;
      while res && i < |ws|
        invariant 0 <= i <= |ws|
        invariant Rebuilding(originals, heap, watchers, vals, trail, sizeVars, fl, kept + ws[i..])
        invariant Entails(originals, assumed, trail) && old(trail) <= trail
        invariant Guarded(heap, trail, done) && Guarded(heap, base, base)
        invariant res ==> Handled(heap, trail, fl, ws[i..])
        invariant !res ==> Refuted(originals, assumed)
        invariant OnlyPermuted(old(heap), heap)
        decreases |ws| - i
      {
        ghost var before := heap;
        var w := ws[i];
        NextSlice(kept, ws, i);
        var keep, w', conflict := VisitWatch(fl, kept, w, ws[i + 1..], assumed, base, done);
        PermutedTwice(old(heap), before, heap);
        if keep {
          kept := kept + [w'];
        }
        res := !conflict;
        i := i + 1;
      }
      watchers := watchers[fl := kept + ws[i..]];
      if res {
        assert ws[i..] == [];
        AllHandled(heap, trail, done, lit);
      }
    }

    /** Propagates all trail literals from `next` on; a conflict refutes the assumptions. */
    method Propagate(ghost assumed: seq<Literal>, ghost base: seq<Literal>) returns (res: bool)
      requires Searching(assumed, base)
      modifies this`heap, this`watchers, this`vals, this`trail, this`next
      ensures Structure() && Entails(originals, assumed, trail) && old(trail) <= trail
      ensures Guarded(heap, base, base) && next <= |trail|
      ensures res ==> next == |trail| && Guarded(heap, trail, trail)
      ensures !res ==> Refuted(originals, assumed)
      ensures OnlyPermuted(old(heap), heap)
    {
      hide HeapOk, WatchesOk, Watched, Guarded, Handled, Entails, Refuted, OnlyPermuted, ValsMatch;
      res := true;
      NothingPermuted(heap);
      while res && next < |trail|
        invariant Structure() && Entails(originals, assumed, trail) && old(trail) <= trail && base <= trail
        invariant Guarded(heap, base, base) && next <= |trail|
        invariant res ==> Guarded(heap, trail, trail[..next])
        invariant !res ==> Refuted(originals, assumed)
        invariant OnlyPermuted(old(heap), heap)
        invariant sizeVars == old(sizeVars)
        decreases |LiteralsBelow(sizeVars)| - next, res
      {
        TrailFits(vals, trail, sizeVars);
        ghost var before, done := heap, trail[..next];
        var lit := trail[next];
        assert trail[..next + 1] == trail[..next] + [lit];
        next := next + 1;
        label Turn:
        res := PropagateLiteral(lit, assumed, base, done);
        PermutedTwice(old(heap), before, heap);
        assert trail[..next] == old@Turn(trail)[..next];
      }
      assert trail[..|trail|] == trail;
    }

    // ----------------------------------------------------------------
    // The state between two proof steps
    // ----------------------------------------------------------------

    /** Once inconsistent nothing matters any more; until then everything is propagated. */
    ghost predicate Valid()
      reads this
    {
      if inconsistent then Refuted(originals, [])
      else
        && Structure() && BooksOk(heap, table, garbage, nextRef)
        && Entails(originals, [], trail) && next == |trail| && Guarded(heap, trail, trail)
        && |nonces| == 4 && sizeVars >= 0
    }

    constructor (nonces: seq<nat>)
      requires |nonces| == 4
      ensures Valid() && !inconsistent && originals == [] && trail == [] && heap == map[] && table == []
      ensures this.nonces == nonces
    {
      this.nonces := nonces;
      sizeVars, capacity, nextRef, next := 0, 0, 0, 0;
      vals, watchers, heap := map[], map[], map[];
      table, garbage, trail := [], [], [];
      inconsistent := false;
      originals := [];
    }

    method Backtrack(previouslyPropagated: nat)
      requires ValsMatch(vals, trail, sizeVars) && previouslyPropagated <= |trail|
      modifies this`vals, this`trail, this`next
      ensures ValsMatch(vals, trail, sizeVars)
      ensures trail == old(trail)[..previouslyPropagated] && next == |trail|
    {
      hide ValsMatch;
      assert trail == old(trail)[..|trail|];
      while |trail| > previouslyPropagated
        invariant previouslyPropagated <= |trail| <= |old(trail)| && trail == old(trail)[..|trail|]
        invariant ValsMatch(vals, trail, sizeVars)
      {
        var lit := trail[|trail| - 1];
        ghost var init := trail[..|trail| - 1];
        assert trail == init + [lit];
        ValsAfterUnassign(vals, init, sizeVars, lit);
        vals := vals[lit := 0][Not(lit) := 0];
        trail := trail[..|trail| - 1];
      }
      next := previouslyPropagated;
    }

    /**
     * Assumes the negation of the clause and propagates. A conflict shows that
     * the original clauses imply the clause; without one unit propagation over
     * the live clauses and the known units cannot refute the negation.
     */
    method Check(simplified: seq<Literal>) returns (res: bool)
      requires Valid() && !inconsistent && ClauseInVars(simplified, sizeVars)
      requires Consistent(simplified) && forall l :: l in simplified ==> vals[l] <= 0
      modifies this`heap, this`watchers, this`vals, this`trail, this`next
      ensures Valid() && trail == old(trail) && OnlyPermuted(old(heap), heap)
      ensures vals == old(vals)
      ensures res ==> Implied(originals, simplified)
      ensures !res ==> Stuck(LiveClauses(heap) + Units(trail), NotAll(simplified))
      ensures !res ==> !PropagationConflicts(LiveClauses(heap) + Units(trail), NotAll(simplified))
    {
      hide HeapOk, WatchesOk, Watched, Guarded, Entails, OnlyPermuted, PropagationConflicts, ValsMatch, Implied, Stuck;
      ghost var base := trail;
      var previouslyPropagated := next;
      res := Refute(simplified);
      assert base <= trail;
      assert trail[..previouslyPropagated] == base;
      Backtrack(previouslyPropagated);
      assert trail == base;
      StillBooked(old(heap), heap, table, garbage, nextRef);
      SameValues(old(vals), vals, trail, sizeVars);
      if !res {
        StuckHasNoConflict(LiveClauses(heap) + Units(trail), NotAll(simplified));
      }
    }

    /** The assumptions and their propagation, before anything is taken back. */
    method Refute(simplified: seq<Literal>) returns (conflict: bool)
      requires Structure() && Entails(originals, [], trail) && next == |trail| && Guarded(heap, trail, trail)
      requires ClauseInVars(simplified, sizeVars)
      requires Consistent(simplified) && forall l :: l in simplified ==> vals[l] <= 0
      modifies this`heap, this`watchers, this`vals, this`trail, this`next
      ensures Structure() && old(trail) <= trail && OnlyPermuted(old(heap), heap)
      ensures Guarded(heap, old(trail), old(trail))
      ensures conflict ==> Implied(originals, simplified)
      ensures !conflict ==> Stuck(LiveClauses(heap) + Units(old(trail)), NotAll(simplified))
    {
      hide HeapOk, WatchesOk, Watched, Guarded, Entails, OnlyPermuted, Closed, LiveClauses, Units;
      ghost var base, negated := trail, NotAll(simplified);
      AssumeAll(simplified);
      assert trail[..next] == base;
      GuardedByMore(heap, base, trail, base);
      var propagated := Propagate(negated, base);
      if propagated {
        GuardedIsClosed(originals, heap, trail, base, sizeVars);
        TrailIsConsistent(vals, trail, sizeVars);
        assert Stuck(LiveClauses(heap) + Units(base), negated);
      } else {
        RefutedImplies(originals, simplified);
      }
      conflict := !propagated;
    }

    /** Puts the negations of the literals on the trail, except for those that are there already. */
    method AssumeAll(simplified: seq<Literal>)
      requires ValsMatch(vals, trail, sizeVars) && ClauseInVars(simplified, sizeVars)
      requires Consistent(simplified) && forall l :: l in simplified ==> vals[l] <= 0
      requires Entails(originals, [], trail)
      modifies this`vals, this`trail
      ensures ValsMatch(vals, trail, sizeVars) && old(trail) <= trail
      ensures forall l :: l in simplified ==> Not(l) in trail
      ensures Entails(originals, NotAll(simplified), trail)
    {
      hide ValsMatch, Consistent, Entails;
      for i := 0 to |simplified|
        invariant ValsMatch(vals, trail, sizeVars) && old(trail) <= trail
        invariant AssumedFrom(old(trail), trail, simplified)
        invariant forall j :: 0 <= j < i ==> Not(simplified[j]) in trail
      {
        NegationIsOpen(old(vals), vals, old(trail), trail, simplified, sizeVars, i);
        var lit := simplified[i];
        if vals[Not(lit)] <= 0 {
          Assign(Not(lit));
        }
      }
      NegationEntails(originals, old(trail), trail, simplified);
    }

    // ----------------------------------------------------------------
    // Adding clauses
    // ----------------------------------------------------------------

    /** Makes room for a variable by doubling the tables. */
    method EnlargeVars(idx: int)
      requires Structure() && sizeVars >= 0 && 0 < idx
      modifies this`sizeVars, this`vals, this`watchers
      ensures Structure() && sizeVars > idx && sizeVars >= old(sizeVars)
    {
      var newSize := if sizeVars > 0 then 2 * sizeVars else 2;
      while idx >= newSize
        modifies {}
        invariant newSize > 0 && newSize >= sizeVars
      {
        newSize := 2 * newSize;
      }
      var newVals := map l: Literal | -newSize < l < newSize && InVars(l, newSize) :: if l in vals then vals[l] else 0;
      var newWatchers := map l: Literal | -newSize < l < newSize && InVars(l, newSize) ::
        if l in watchers then watchers[l] else [];
      EnlargedTables(originals, heap, watchers, vals, trail, sizeVars, newSize, newWatchers, newVals);
      vals, watchers, sizeVars := newVals, newWatchers, newSize;
    }

    method ImportClause(c: Clause)
      requires Valid() && !inconsistent && forall l :: l in c ==> Fits(l)
      modifies this`sizeVars, this`vals, this`watchers
      ensures Valid() && ClauseInVars(c, sizeVars)
    {
      hide HeapOk, WatchesOk, Watched, Guarded, Entails, ValsMatch;
      for i := 0 to |c|
        invariant Valid() && !inconsistent
        invariant forall k :: 0 <= k < i ==> InVars(c[k], sizeVars)
      {
        if VarOf(c[i]) >= sizeVars {
          EnlargeVars(VarOf(c[i]));
        }
      }
    }

    /**
     * Sorts the clause and drops repeated literals, unless it contains a
     * literal with its negation or a literal that is known to be true.
     */
    method Tautological(c: Clause) returns (tautology: bool, simplified: seq<Literal>)
      requires ValsMatch(vals, trail, sizeVars) && ClauseInVars(c, sizeVars)
      ensures tautology ==> exists l :: l in c && (Not(l) in c || l in trail)
      ensures !tautology ==>
                && DistinctLits(simplified) && Consistent(simplified)
                && (forall l :: l in simplified <==> l in c)
                && (forall l :: l in simplified ==> vals[l] <= 0)
    {
      hide ValsMatch, Consistent, DistinctLits;
      var sorted := SortLiterals(c);
      SortedMembers(c, sorted);
      ValuesOf(vals, trail, sizeVars, c);
      simplified := [];
      var prev: int := 0;
      assert Deduplicated(sorted[..0], simplified);
      hide Deduplicated, SortLiterals, Sorted, CubeLiteralLt;
      for i := 0 to |sorted|
        modifies {}
        invariant Deduplicated(sorted[..i], simplified)
        invariant if i == 0 then prev == 0 else prev == sorted[i - 1]
        invariant forall l :: l in simplified ==> l in c && vals[l] <= 0
      {
        var lit := sorted[i];
        assert lit in sorted;
        assert sorted[..i + 1] == sorted[..i] + [lit];
        if lit == prev {
          OneMoreDropped(sorted[..i], simplified, lit);
        } else {
          if lit == -prev {
            assert sorted[i - 1] in sorted && Not(lit) == sorted[i - 1];
            return true, simplified;
          }
          if vals[lit] > 0 {
            return true, simplified;
          }
          NextIsLarger(sorted, i);
          OneMoreKept(sorted[..i], simplified, lit);
          prev := lit;
          simplified := simplified + [lit];
        }
      }
      tautology := false;
      assert sorted[..|sorted|] == sorted;
      DeduplicatedClause(sorted, simplified);
    }

    /** Moves two literals without a value to the front. */
    method WatchesFirst(ls: seq<Literal>) returns (r: seq<Literal>)
      requires ValsMatch(vals, trail, sizeVars) && ClauseInVars(ls, sizeVars) && DistinctLits(ls)
      requires exists i, j :: 0 <= i < j < |ls| && vals[ls[i]] == 0 && vals[ls[j]] == 0
      ensures SameLits(ls, r) && |r| >= 2 && vals[r[0]] == 0 && vals[r[1]] == 0
      ensures Not(r[0]) !in trail && Not(r[1]) !in trail
    {
      ghost var p, q :| 0 <= p < q < |ls| && vals[ls[p]] == 0 && vals[ls[q]] == 0;
      var first := Unassigned(ls, 0);
      r := Swapped(ls, 0, first);
      SwappedSame(ls, 0, first);
      assert vals[r[0]] == 0;
      assert exists j :: 1 <= j < |r| && vals[r[j]] == 0 by {
        assert r[if q == first then p else q] == ls[if q == first then p else q] || p == 0;
        assert p == 0 ==> vals[r[q]] == 0 || q == first;
      }
      var second := Unassigned(r, 1);
      SwappedSame(r, 1, second);
      r := Swapped(r, 1, second);
    }

    /** The first position from the given one on whose literal has no value. */
    method Unassigned(ls: seq<Literal>, from: nat) returns (i: nat)
      requires forall l :: l in ls ==> l in vals
      requires exists j :: from <= j < |ls| && vals[ls[j]] == 0
      ensures from <= i < |ls| && vals[ls[i]] == 0
      ensures forall j :: from <= j < i ==> vals[ls[j]] != 0
    {
      ghost var last :| from <= last < |ls| && vals[ls[last]] == 0;
      i := from;
      while vals[ls[i]] != 0
        invariant from <= i <= last
        invariant forall j :: from <= j < i ==> vals[ls[j]] != 0
        decreases last - i
      {
        i := i + 1;
      }
    }

    function ComputeHash(id: nat): int
      requires |nonces| == 4
    {
      HashOf(nonces, id)
    }

    /** Stores a clause with at least two literals without a value and watches it at two of them. */
    method Insert(simplified: seq<Literal>, id: nat)
      requires Valid() && !inconsistent && ClauseInVars(simplified, sizeVars) && DistinctLits(simplified)
      requires Implied(originals, simplified)
      requires exists i, j :: 0 <= i < j < |simplified| && vals[simplified[i]] == 0 && vals[simplified[j]] == 0
      modifies this`heap, this`watchers, this`table, this`nextRef, this`capacity
      ensures Valid()
      ensures Added(old(heap), old(table), trail, heap, table, trail, simplified, ComputeHash(id), old(nextRef))
    {
      hide HeapOk, WatchesOk, Watched, Guarded, Entails, Implied, BooksOk, ValsMatch, Fits, DistinctLits, Added;
      if |table| == capacity {
        capacity := if capacity > 0 then 2 * capacity else 1;
      }
      var ls := WatchesFirst(simplified);
      FitForRecord(originals, simplified, ls, sizeVars, ComputeHash(id));
      StoreRecord(Record(ComputeHash(id), |ls|, ls));
      RecordIsAdded(old(heap), old(table), trail, old(nextRef), Record(ComputeHash(id), |ls|, ls), simplified);
    }

    /** Puts a record into the table and watches it at its first two literals. */
    method StoreRecord(r: Record)
      requires Valid() && !inconsistent && RecordOk(originals, r, sizeVars) && r.size != 0
      requires Not(r.literals[0]) !in trail && Not(r.literals[1]) !in trail
      modifies this`heap, this`watchers, this`table, this`nextRef
      ensures Valid() && heap == old(heap)[old(nextRef) := r] && old(nextRef) !in old(heap)
      ensures table == [old(nextRef)] + old(table)
    {
      hide HeapOk, WatchesOk, Watched, Guarded, Entails, BooksOk, ValsMatch, Implied, DistinctLits, ClauseInVars;
      var c, ls := nextRef, r.literals;
      BooksAfterInsert(heap, table, garbage, nextRef, r);
      NewRecord(originals, heap, watchers, trail, sizeVars, c, r);
      heap := heap[c := r];
      watchers := watchers[ls[0] := watchers[ls[0]] + [Watch(ls[1], r.size, c)]];
      watchers := watchers[ls[1] := watchers[ls[1]] + [Watch(ls[0], r.size, c)]];
      table := [c] + table;
      nextRef := nextRef + 1;
    }

    /** Takes over a clause that the originals imply: a falsified one, a unit or a longer one. */
    method AddClause(simplified: seq<Literal>, id: nat)
      requires Valid() && !inconsistent && ClauseInVars(simplified, sizeVars) && DistinctLits(simplified)
      requires Implied(originals, simplified) && forall l :: l in simplified ==> vals[l] <= 0
      modifies this
      ensures Valid() && originals == old(originals)
      ensures !inconsistent ==>
                Added(
                  old(heap), old(table), old(trail), heap, table, trail, simplified, ComputeHash(id), old(nextRef))
    {
      hide HeapOk, WatchesOk, Watched, Guarded, Entails, Implied, ValsMatch, Refuted, Added, BooksOk;
      ValuesAre(vals, trail, sizeVars, simplified);
      var unit, i := None, 0;
      while i < |simplified| && unit != Many
        modifies {}
        invariant 0 <= i <= |simplified|
        invariant OpenLiterals(vals, simplified, i, unit)
      {
        if vals[simplified[i]] >= 0 {
          unit := if unit == None then One(simplified[i]) else Many;
        }
        i := i + 1;
      }
      match unit
      case None =>
        ConflictRefutes(originals, [], trail, simplified);
        inconsistent := true;
      case One(lit) =>
        AddUnit(simplified, lit);
        if !inconsistent {
          UnitIsAdded(old(heap), table, old(trail), heap, trail, simplified, lit, ComputeHash(id), old(nextRef));
        }
      case Many =>
        Insert(simplified, id);
    }

    method AddUnit(simplified: seq<Literal>, unit: Literal)
      requires Valid() && !inconsistent && InVars(unit, sizeVars) && vals[unit] == 0
      requires Implied(originals, simplified)
      requires forall l :: l in simplified && l != unit ==> Not(l) in trail
      modifies this
      ensures Valid() && originals == old(originals)
      ensures old(trail) <= trail && unit in trail
      ensures OnlyPermuted(old(heap), heap) && table == old(table)
    {
      hide HeapOk, WatchesOk, Watched, Guarded, Entails, Implied, ValsMatch, OnlyPermuted;
      ghost var base := trail;
      UnitFollows(originals, [], trail, simplified, unit);
      Assign(unit);
      assert trail[..next] == base;
      GuardedByMore(heap, base, trail, base);
      var propagated := Propagate([], base);
      StillBooked(old(heap), heap, table, garbage, nextRef);
      if !propagated {
        inconsistent := true;
      }
    }

    // ----------------------------------------------------------------
    // Deleting clauses
    // ----------------------------------------------------------------

    /** The first record of the chain with this hash, this length and only literals of the clause. */
    method Find(simplified: seq<Literal>, id: nat) returns (pos: nat)
      requires BooksOk(heap, table, garbage, nextRef) && |nonces| == 4
      ensures pos <= |table|
      ensures pos < |table| ==>
                && table[pos] in heap && heap[table[pos]].size == |simplified|
                && heap[table[pos]].hash == ComputeHash(id)
                && forall l :: l in heap[table[pos]].literals ==> l in simplified
      ensures pos == |table| ==> forall i :: 0 <= i < |table| ==> !Matches(heap, table[i], simplified, ComputeHash(id))
    {
      var hash := ComputeHash(id);
      pos := 0;
      while pos < |table|
        invariant pos <= |table|
        invariant forall i :: 0 <= i < pos ==> !Matches(heap, table[i], simplified, hash)
      {
        TableEntry(heap, table, garbage, nextRef, pos);
        var r := heap[table[pos]];
        if r.hash == hash && r.size == |simplified| && forall l :: l in r.literals ==> l in simplified {
          return;
        }
        pos := pos + 1;
      }
    }

    /** Takes a record out of the table and marks it as garbage; its watches go stale. */
    method Discard(pos: nat)
      requires Valid() && !inconsistent && pos < |table|
      modifies this`heap, this`table, this`garbage
      ensures Valid() && |table| == |old(table)| - 1
      ensures table == old(table)[..pos] + old(table)[pos + 1..]
      ensures OnlyFewer(old(heap), old(table), heap, table)
      ensures forall r :: r in table <==> r in old(table) && r != old(table)[pos]
      ensures |garbage| == |old(garbage)| + 1
    {
      hide HeapOk, WatchesOk, Watched, Guarded, Entails, ValsMatch, BooksOk, OnlyFewer;
      var c := table[pos];
      BooksAfterDiscard(heap, table, garbage, nextRef, pos);
      FewerAfterDiscard(heap, table, garbage, nextRef, pos);
      MarkedGarbage(originals, heap, watchers, trail, sizeVars, c);
      table := table[..pos] + table[pos + 1..];
      garbage := [c] + garbage;
      heap := heap[c := Marked(heap[c])];
    }

    /** Discards the clauses that are satisfied. */
    method DiscardSatisfied()
      requires Valid() && !inconsistent
      modifies this`heap, this`table, this`garbage
      ensures Valid() && OnlyFewer(old(heap), old(table), heap, table)
      ensures SatisfiedLeft(old(heap), old(table), trail, table)
    {
      hide HeapOk, WatchesOk, Watched, Guarded, Entails, ValsMatch, BooksOk, SomeTrue;
      var pos := 0;
      FewerThanItself(heap, table, garbage, nextRef);
      while pos < |table|
        invariant Valid() && 0 <= pos <= |table|
        invariant OnlyFewer(old(heap), old(table), heap, table)
        invariant SatisfiedLeftUpTo(old(heap), old(table), trail, table, pos)
        decreases |table| - pos
      {
        TableEntry(heap, table, garbage, nextRef, pos);
        LiteralsHaveValues(originals, heap, vals, trail, sizeVars, table[pos]);
        HasTrueLiteral(vals, trail, heap[table[pos]].literals);
        if exists l :: l in heap[table[pos]].literals && vals[l] > 0 {
          Discard(pos);
        } else {
          pos := pos + 1;
        }
      }
      AllVisited(old(heap), old(table), trail, table);
    }

    /** Discards satisfied clauses, flushes the watches of all garbage and frees it. */
    method CollectGarbageClauses()
      requires Valid() && !inconsistent
      modifies this`heap, this`table, this`garbage, this`watchers
      ensures Valid() && garbage == [] && OnlyFewer(old(heap), old(table), heap, table)
      ensures SatisfiedLeft(old(heap), old(table), trail, table)
    {
      hide HeapOk, WatchesOk, Watched, Guarded, Entails, ValsMatch, BooksOk, LiveRecords, LiveLists, LiveWatches,
        OnlyFewer, SatisfiedLeft;
      DiscardSatisfied();
      WatchesPointSomewhere(originals, heap, watchers, sizeVars);
      var left, flushed := LiveRecords(heap), LiveLists(heap, watchers);
      CollectedGarbage(originals, heap, watchers, trail, sizeVars, left, flushed);
      BooksAfterCollection(heap, table, garbage, nextRef, left);
      FewerAfterCollection(old(heap), old(table), heap, table, garbage, nextRef, left);
      heap, watchers, garbage := left, flushed, [];
    }

    // ----------------------------------------------------------------
    // The proof steps
    // ----------------------------------------------------------------

    method AddOriginalClause(id: nat, c: Clause)
      requires Valid() && forall l :: l in c ==> Fits(l)
      modifies this
      ensures Valid() && originals == old(originals) + [c] && (old(inconsistent) ==> inconsistent)
      ensures !inconsistent ==>
                Added(old(heap), old(table), old(trail), heap, table, trail, c, ComputeHash(id), old(nextRef))
    {
      hide HeapOk, WatchesOk, Watched, Guarded, Entails, ValsMatch, Refuted, Implied, Added, BooksOk, Satisfied;
      MoreOriginals(originals, [c], heap, watchers, trail, sizeVars);
      originals := originals + [c];
      if inconsistent {
        return;
      }
      NothingPermuted(heap);
      LastIsImplied(old(originals), c);
      ImportClause(c);
      var tautology, simplified := Tautological(c);
      if tautology {
        FoundSatisfied(trail, c);
        SatisfiedIsAdded(heap, table, trail, c, ComputeHash(id), nextRef);
      } else {
        SameLiteralsSameImplied(originals, c, simplified);
        AddClause(simplified, id);
        if !inconsistent {
          AddedLikewise(
            old(heap), old(heap), old(table), old(trail), heap, table, trail, simplified, c, ComputeHash(id),
            old(nextRef));
        }
      }
    }

    /**
     * Accepts a clause only if the original clauses imply it, and refuses it
     * only if unit propagation from its negation does not run into a conflict.
     */
    method AddDerivedClause(id: nat, c: Clause) returns (accepted: bool)
      requires Valid() && forall l :: l in c ==> Fits(l)
      modifies this
      ensures Valid() && originals == old(originals) && (old(inconsistent) ==> inconsistent)
      ensures accepted ==> Implied(originals, c)
      ensures accepted && !inconsistent ==>
                Added(old(heap), old(table), old(trail), heap, table, trail, c, ComputeHash(id), old(nextRef))
      ensures !accepted ==>
                && !inconsistent && trail == old(trail) && table == old(table) && OnlyPermuted(old(heap), heap)
                && Stuck(LiveClauses(heap) + Units(trail), NotAll(c))
                && !PropagationConflicts(LiveClauses(heap) + Units(trail), NotAll(c))
    {
      hide HeapOk, WatchesOk, Watched, Guarded, Entails, ValsMatch, Refuted, Implied, PropagationConflicts,
        OnlyPermuted, Added, BooksOk, Satisfied, Stuck;
      if inconsistent {
        InconsistentImplies(originals, c);
        return true;
      }
      ImportClause(c);
      var tautology, simplified := Tautological(c);
      if tautology {
        TautologyIsImplied(originals, trail, c);
        FoundSatisfied(trail, c);
        SatisfiedIsAdded(heap, table, trail, c, ComputeHash(id), nextRef);
        return true;
      }
      SameLiteralsSameImplied(originals, simplified, c);
      accepted := Check(simplified);
      if accepted {
        ghost var checked := heap;
        AddClause(simplified, id);
        if !inconsistent {
          AddedLikewise(
            old(heap), checked, old(table), old(trail), heap, table, trail, simplified, c, ComputeHash(id),
            old(nextRef));
        }
      } else {
        SameAssumptions(LiveClauses(heap) + Units(trail), simplified, c);
      }
    }

    /**
     * Deletes a stored clause with these literals and hash, unless the clause is
     * satisfied anyway. It fails only if there is none.
     */
    method DeleteClause(id: nat, c: Clause) returns (found: bool)
      requires Valid() && forall l :: l in c ==> Fits(l)
      modifies this
      ensures Valid() && originals == old(originals) && trail == old(trail) && inconsistent == old(inconsistent)
      ensures found && !inconsistent ==>
                DeletedFrom(old(heap), old(table), trail, heap, table, c, ComputeHash(id))
      ensures found && !inconsistent && !Satisfied(trail, c) ==>
                2 * |garbage| <= capacity || 2 * |garbage| <= sizeVars
      ensures !found ==>
                && !inconsistent && !Satisfied(trail, c) && !Stored(heap, table, c, ComputeHash(id))
                && heap == old(heap) && table == old(table)
    {
      hide HeapOk, WatchesOk, Watched, Guarded, Entails, ValsMatch, Refuted, BooksOk, OnlyFewer, RecordOf, Satisfied,
        Left, Stored, Matches, SatisfiedLeft;
      if inconsistent {
        return true;
      }
      FewerThanItself(heap, table, garbage, nextRef);
      ImportClause(c);
      var tautology, simplified := Tautological(c);
      if tautology {
        FoundSatisfied(trail, c);
        return true;
      }
      NotSatisfied(vals, trail, sizeVars, c, simplified);
      var pos := Find(simplified, id);
      if pos == |table| {
        NothingMatches(originals, heap, table, sizeVars, c, simplified, ComputeHash(id));
        return false;
      }
      TableEntry(heap, table, garbage, nextRef, pos);
      MatchIsRecord(originals, heap, sizeVars, table[pos], c, simplified);
      Discard(pos);
      LeftAfterDiscard(old(heap), old(table), trail, table, old(table)[pos]);
      if 2 * |garbage| > capacity && 2 * |garbage| > sizeVars {
        ghost var heap1, table1 := heap, table;
        CollectGarbageClauses();
        FewerTwice(old(heap), old(table), heap1, table1, heap, table);
        LeftAfterCollection(old(heap), old(table), trail, heap1, table1, heap, table, old(table)[pos]);
      }
      return true;
    }

    /** Derives a clause and deletes it again. */
    method AddAssumptionClause(id: nat, c: Clause) returns (accepted: bool)
      requires Valid() && forall l :: l in c ==> Fits(l)
      modifies this
      ensures Valid() && originals == old(originals) && (old(inconsistent) ==> inconsistent)
      ensures accepted ==> Implied(originals, c)
      ensures accepted && !inconsistent ==>
                forall k :: !KeyTrue(trail, k) ==> |Holders(heap, table, k)| == |Holders(old(heap), old(table), k)|
      ensures !accepted ==>
                && !inconsistent && trail == old(trail) && table == old(table) && OnlyPermuted(old(heap), heap)
                && !PropagationConflicts(LiveClauses(heap) + Units(trail), NotAll(c))
    {
      hide HeapOk, WatchesOk, Watched, Guarded, Entails, ValsMatch, Refuted, Implied, PropagationConflicts,
        OnlyPermuted, Added, BooksOk, Satisfied, Stuck, DeletedFrom, Holders, KeyTrue, Stored;
      accepted := AddDerivedClause(id, c);
      if accepted {
        ghost var heap1, table1, trail1 := heap, table, trail;
        if !inconsistent {
          AddedIsStored(
            old(heap), old(table), old(trail), heap, table, trail, c, ComputeHash(id), old(nextRef));
        }
        accepted := DeleteClause(id, c);
        if !inconsistent {
          forall k | !KeyTrue(trail, k)
            ensures |Holders(heap, table, k)| == |Holders(old(heap), old(table), k)|
          {
            AssumptionLeavesRecords(
              old(heap), old(table), old(trail), old(garbage), old(nextRef), heap1, table1, trail1, heap, table, c,
              ComputeHash(id), k);
          }
        }
      }
    }

    // ----------------------------------------------------------------
    // Whole proofs
    // ----------------------------------------------------------------

    /** The state after the given steps, none of which has been refused. */
    ghost predicate Follows(read: seq<ProofStep>)
      reads this
    {
      && Valid() && |nonces| == 4 && originals == OriginalsOf(read)
      && (!inconsistent ==> Kept(ActiveKeys(nonces, read), heap, table, trail))
    }

    /** One more step of a proof. */
    method Step(ghost read: seq<ProofStep>, step: ProofStep) returns (ok: bool)
      requires Follows(read) && StepFits(step)
      modifies this
      ensures old(inconsistent) ==> inconsistent
      ensures ok ==> Follows(read + [step])
      ensures ok && step.Derived? ==> Implied(OriginalsOf(read), step.clause)
      ensures !ok ==> !inconsistent && |nonces| == 4 && Refusable(nonces, read, step)
      ensures ok && !inconsistent ==> !PropagationConflicts(ActiveClauses(nonces, read + [step]), [])
    {
      hide HeapOk, WatchesOk, Watched, Guarded, Entails, ValsMatch, Refuted, Implied, PropagationConflicts,
        OnlyPermuted, Added, BooksOk, Satisfied, Stuck, DeletedFrom, Kept, Stored, Fits, HashOf, ActiveKeys,
        ActiveClauses, Refusable;
      assert (read + [step])[..|read|] == read;
      match step {
        case Original(id, c) =>
          AddOriginalClause(id, c);
          ok := true;
        case Derived(id, c) =>
          ok := AddDerivedClause(id, c);
          if !ok {
            DerivationIsRefusable(
              nonces, read, id, c, old(heap), old(table), old(trail), old(garbage), old(nextRef), heap);
          }
        case Deleted(id, c) =>
          ok := DeleteClause(id, c);
          if !ok {
            DeletionIsRefusable(
              nonces, read, id, c, old(heap), old(table), old(trail), old(garbage), old(nextRef));
          }
      }
      if ok && !inconsistent {
        KeptAfterStep(
          nonces, read, step, old(heap), old(table), old(trail), old(garbage), old(nextRef), heap, table, trail);
        NothingToPropagate(
          nonces, read + [step], originals, heap, table, trail, garbage, nextRef, vals, sizeVars);
      }
    }
  }

  /** How many literals of a clause are not false: none, one or more. */
  datatype Open = None | One(lit: Literal) | Many

  // ------------------------------------------------------------------
  // Whole proofs
  // ------------------------------------------------------------------

  ghost function OriginalsOf(proof: seq<ProofStep>): Cnf {
    if proof == [] then []
    else
      var last := proof[|proof| - 1];
      OriginalsOf(proof[..|proof| - 1]) + if last.Original? then [last.clause] else []
  }

  ghost predicate StepFits(step: ProofStep) {
    forall l :: l in step.clause ==> Fits(l)
  }

  /**
   * Runs a checker over a whole proof. In an accepted proof every derived clause
   * follows from the original clauses added before it. It is refused only at a
   * derivation that unit propagation over the clauses active by then cannot
   * confirm, or at a deletion of a clause that is not active. A checker that has
   * become inconsistent shows that the originals have no model; one that has not
   * shows that unit propagation never had a conflict.
   */
  method CheckProof(nonces: seq<nat>, proof: seq<ProofStep>) returns (accepted: bool, inconsistent: bool)
    requires |nonces| == 4 && forall i :: 0 <= i < |proof| ==> StepFits(proof[i])
    ensures accepted ==>
              forall i :: 0 <= i < |proof| && proof[i].Derived? ==> Implied(OriginalsOf(proof[..i]), proof[i].clause)
    ensures inconsistent ==> forall a :: !Models(a, OriginalsOf(proof))
    ensures accepted && !inconsistent ==> ConflictFree(nonces, proof, |proof|)
    ensures accepted && (exists i :: 0 <= i < |proof| && !proof[i].Deleted? && proof[i].clause == []) ==> inconsistent
    ensures !accepted ==>
              !inconsistent
              && exists i ::
                   0 <= i < |proof| && Refusable(nonces, proof[..i], proof[i]) && ConflictFree(nonces, proof, i)
  {
    hide Implied, PropagationConflicts, HeapOk, WatchesOk, Watched, Guarded, Entails, ValsMatch, Refuted, BooksOk, Fits,
      StepFits, ActiveKeys, ActiveClauses, Refusable, Kept, ConflictFree;
    var checker := new Checker(nonces);
    KeptAtStart(nonces);
    ConflictFreeAtStart(nonces, proof);
    for i := 0 to |proof|
      invariant fresh(checker) && checker.nonces == nonces && checker.Follows(proof[..i])
      invariant forall j :: 0 <= j < i && proof[j].Derived? ==> Implied(OriginalsOf(proof[..j]), proof[j].clause)
      invariant !checker.inconsistent ==> ConflictFree(nonces, proof, i)
    {
      assert proof[..i + 1] == proof[..i] + [proof[i]];
      var ok := checker.Step(proof[..i], proof[i]);
      if !ok {
        return false, false;
      }
      if !checker.inconsistent {
        ConflictFreeLonger(nonces, proof, i);
      }
    }
    assert proof[..|proof|] == proof;
    InconsistentHasNoModel(checker.originals);
    if !checker.inconsistent {
      NoEmptyClause(nonces, proof);
    }
    return true, checker.inconsistent;
  }

  // ------------------------------------------------------------------
  // Facts about single records
  // ------------------------------------------------------------------

  lemma LiveRecord(f: Cnf, heap: Heap, sizeVars: int, c: Ref)
    requires HeapOk(f, heap, sizeVars) && IsLive(heap, c)
    ensures RecordOk(f, heap[c], sizeVars)
    ensures forall i :: 0 <= i < |heap[c].literals| ==> InVars(heap[c].literals[i], sizeVars)
    ensures heap[c].literals[0] != heap[c].literals[1]
  {
    assert RecordOk(f, heap[c], sizeVars);
    forall i | 0 <= i < |heap[c].literals|
      ensures InVars(heap[c].literals[i], sizeVars)
    {
      assert heap[c].literals[i] in heap[c].literals;
    }
  }

  lemma TrueLiteralHandles(
    heap: Heap, trail: seq<Literal>, fl: Literal, w: Watch, rest: seq<Watch>, l: Literal)
    requires IsLive(heap, w.clause) && l in heap[w.clause].literals && l in trail
    requires Handled(heap, trail, fl, [w] + rest)
    ensures Handled(heap, trail, fl, rest)
  {
    VisitedOne(heap, trail, fl, w, rest);
  }

  lemma OthersFalse(ls: seq<Literal>, other: Literal, fl: Literal, trail: seq<Literal>)
    requires |ls| >= 2 && ls[0] == other && ls[1] == fl && Not(fl) in trail
    requires forall i :: 2 <= i < |ls| ==> Not(ls[i]) in trail
    ensures forall l :: l in ls && l != other ==> Not(l) in trail
  {
  }

  /** The watch lists after the move. */
  lemma MovedWatch(
    f: Cnf, heap: Heap, watchers: Watchers, sizeVars: int, fl: Literal,
    kept: seq<Watch>, w: Watch, rest: seq<Watch>, k: nat, w': Watch)
    requires InVars(fl, sizeVars) && fl in watchers && HeapOk(f, heap, sizeVars)
    requires WatchesOk(f, heap, watchers[fl := kept + [w] + rest], sizeVars)
    requires IsLive(heap, w.clause) && 2 <= k < |heap[w.clause].literals| && heap[w.clause].literals[1] == fl
    requires w' == Watch(fl, |heap[w.clause].literals|, w.clause)
    ensures var (c, r) := (w.clause, heap[w.clause].literals[k]);
            && r in watchers && r != fl
            && WatchesOk(
                 f, heap[c := Permuted(heap[c], Exchanged(heap[c].literals, k))],
                 watchers[r := watchers[r] + [w']][fl := kept + rest], sizeVars)
  {
    hide WatchesOk, HeapOk, Implied, NoRepeats;
    var c, ls := w.clause, heap[w.clause].literals;
    var r := ls[k];
    LiveRecord(f, heap, sizeVars, c);
    ExchangedSame(ls, k);
    assert r != fl && ls[0] != r && ls[0] != fl;
    WatchersDomain(f, heap, watchers[fl := kept + [w] + rest], sizeVars);
    assert InVars(r, sizeVars);
    var lists := watchers[fl := kept + rest];
    DroppedIsGone(f, heap, watchers, sizeVars, fl, kept, w, rest);
    WatchesAfterDrop(f, heap, watchers, sizeVars, fl, kept, w, rest);
    WatchedOnlyAtFirstTwo(f, heap, lists, sizeVars, c, r);
    WatchesAfterExchange(f, heap, lists, sizeVars, c, k);
    var heap' := heap[c := Permuted(heap[c], Exchanged(ls, k))];
    assert fl in Exchanged(ls, k);
    WatchesAfterPush(f, heap', lists, sizeVars, r, w');
    assert lists[r := lists[r] + [w']] == watchers[r := watchers[r] + [w']][fl := kept + rest];
  }

  lemma WatchersDomain(f: Cnf, heap: Heap, watchers: Watchers, sizeVars: int)
    requires WatchesOk(f, heap, watchers, sizeVars)
    ensures forall l :: l in watchers <==> InVars(l, sizeVars)
  {
  }

  lemma NothingPermuted(heap: Heap)
    ensures OnlyPermuted(heap, heap)
  {
  }

  lemma EntryIsOk(
    f: Cnf, heap: Heap, watchers: Watchers, sizeVars: int, fl: Literal,
    kept: seq<Watch>, w: Watch, rest: seq<Watch>)
    requires WatchesOk(f, heap, watchers[fl := kept + [w] + rest], sizeVars)
    ensures WatchOk(f, heap, sizeVars, fl, w)
  {
    var lists := watchers[fl := kept + [w] + rest];
    assert lists[fl][|kept|] == w;
  }

  lemma TrueBlitHandles(
    heap: Heap, trail: seq<Literal>, fl: Literal, w: Watch, rest: seq<Watch>, f: Cnf, sizeVars: int)
    requires WatchOk(f, heap, sizeVars, fl, w) && w.blit in trail
    requires Handled(heap, trail, fl, [w] + rest)
    ensures Handled(heap, trail, fl, rest)
  {
    VisitedOne(heap, trail, fl, w, rest);
  }

  lemma BinaryConflict(f: Cnf, assumed: seq<Literal>, trail: seq<Literal>, fl: Literal, blit: Literal)
    requires Implied(f, [fl, blit]) && Entails(f, assumed, trail) && Not(fl) in trail && Not(blit) in trail
    ensures Refuted(f, assumed)
  {
    ConflictRefutes(f, assumed, trail, [fl, blit]);
  }

  lemma BinaryUnit(f: Cnf, assumed: seq<Literal>, trail: seq<Literal>, fl: Literal, blit: Literal)
    requires Implied(f, [fl, blit]) && Entails(f, assumed, trail) && Not(fl) in trail
    ensures Entails(f, assumed, trail + [blit])
  {
    UnitFollows(f, assumed, trail, [fl, blit], blit);
  }

  lemma InTables(
    f: Cnf, heap: Heap, watchers: Watchers, vals: map<Literal, int>, trail: seq<Literal>, sizeVars: int, lit: Literal)
    requires WatchesOk(f, heap, watchers, sizeVars) && ValsMatch(vals, trail, sizeVars) && lit in trail
    ensures InVars(lit, sizeVars) && InVars(Not(lit), sizeVars) && Not(lit) in watchers
  {
  }

  ghost function LiteralsBelow(sizeVars: int): (r: set<Literal>)
    ensures forall l :: l in r <==> InVars(l, sizeVars)
  {
    set l: Literal {:trigger InVars(l, sizeVars)} | -sizeVars < l < sizeVars && InVars(l, sizeVars)
  }

  lemma TrailFits(vals: map<Literal, int>, trail: seq<Literal>, sizeVars: int)
    requires ValsMatch(vals, trail, sizeVars)
    ensures |trail| <= |LiteralsBelow(sizeVars)|
  {
    TrailBounded(vals, trail);
    assert vals.Keys == LiteralsBelow(sizeVars);
  }

  /** More trail keeps every guard. */
  lemma GuardedByMore(heap: Heap, trail: seq<Literal>, more: seq<Literal>, done: seq<Literal>)
    requires Guarded(heap, trail, done) && trail <= more
    ensures Guarded(heap, more, done)
  {
    assert forall l :: l in trail ==> l in more;
    forall c | IsLive(heap, c)
      ensures GuardedAt(heap, more, done, c)
    {
      assert GuardedAt(heap, trail, done, c);
    }
  }

  /** The trail holds what was known and negations of the clause's literals. */
  ghost predicate AssumedFrom(known: seq<Literal>, trail: seq<Literal>, c: Clause) {
    forall l :: l in trail ==> l in known || Not(l) in c
  }

  lemma NegationIsOpen(
    vals: map<Literal, int>, vals': map<Literal, int>, known: seq<Literal>, trail: seq<Literal>, c: Clause,
    sizeVars: int, i: nat)
    requires ValsMatch(vals, known, sizeVars) && ValsMatch(vals', trail, sizeVars) && ClauseInVars(c, sizeVars)
    requires AssumedFrom(known, trail, c) && Consistent(c) && i < |c|
    requires forall l :: l in c && l in vals ==> vals[l] <= 0
    ensures InVars(Not(c[i]), sizeVars) && Not(c[i]) in vals'
    ensures vals'[Not(c[i])] == if Not(c[i]) in trail then 1 else 0
    ensures Not(Not(c[i])) in c
  {
    var lit := c[i];
    assert lit in c && lit !in known;
    assert Not(lit) !in c;
    assert lit !in trail;
  }

  /** What was known and the assumed negations entail the trail. */
  lemma NegationEntails(f: Cnf, known: seq<Literal>, trail: seq<Literal>, c: Clause)
    requires Entails(f, [], known) && AssumedFrom(known, trail, c)
    ensures Entails(f, NotAll(c), trail)
  {
    forall a | Models(a, f) && CubeTrue(a, NotAll(c))
      ensures CubeTrue(a, trail)
    {
      assert CubeTrue(a, []);
      assert CubeTrue(a, known);
      forall l | l in trail && Not(l) in c
        ensures LitTrue(a, l)
      {
        assert l in NotAll(c);
      }
    }
  }

  lemma RefutedImplies(f: Cnf, c: Clause)
    requires Refuted(f, NotAll(c))
    ensures Implied(f, c)
  {
    forall a | Models(a, f)
      ensures ClauseTrue(a, c)
    {
      assert !CubeTrue(a, NotAll(c));
      var m :| m in NotAll(c) && !LitTrue(a, m);
      assert Not(m) in c && LitTrue(a, Not(m));
    }
  }

  lemma StillBooked(heap: Heap, heap': Heap, table: seq<Ref>, garbage: seq<Ref>, nextRef: Ref)
    requires OnlyPermuted(heap, heap')
    requires BooksOk(heap, table, garbage, nextRef)
    ensures BooksOk(heap', table, garbage, nextRef)
  {
  }

  ghost predicate Increasing(ls: seq<Literal>) {
    forall j, k :: 0 <= j < k < |ls| ==> VarOf(ls[j]) < VarOf(ls[k])
  }

  /** The same literals, once each and by increasing variables. */
  ghost predicate Deduplicated(sorted: seq<Literal>, kept: seq<Literal>) {
    Increasing(kept) && forall l :: l in kept <==> l in sorted
  }

  lemma NextIsLarger(sorted: seq<Literal>, i: nat)
    requires Sorted(sorted) && i < |sorted|
    requires i > 0 ==> sorted[i] != sorted[i - 1] && sorted[i] != Not(sorted[i - 1])
    ensures forall j :: 0 <= j < i ==> VarOf(sorted[j]) < VarOf(sorted[i])
  {
    if i > 0 {
      assert !CubeLiteralLt(sorted[i], sorted[i - 1]);
      assert VarOf(sorted[i - 1]) < VarOf(sorted[i]);
      forall j | 0 <= j < i
        ensures VarOf(sorted[j]) < VarOf(sorted[i])
      {
        assert j < i - 1 ==> !CubeLiteralLt(sorted[i - 1], sorted[j]);
      }
    }
  }

  lemma OneMoreKept(sorted: seq<Literal>, kept: seq<Literal>, lit: Literal)
    requires Deduplicated(sorted, kept)
    requires forall j :: 0 <= j < |sorted| ==> VarOf(sorted[j]) < VarOf(lit)
    ensures Deduplicated(sorted + [lit], kept + [lit])
  {
    forall j | 0 <= j < |kept|
      ensures VarOf(kept[j]) < VarOf(lit)
    {
      assert kept[j] in sorted;
    }
  }

  lemma NextSlice<T>(kept: seq<T>, ws: seq<T>, i: nat)
    requires i < |ws|
    ensures ws[i..] == [ws[i]] + ws[i + 1..]
    ensures kept + ws[i..] == kept + [ws[i]] + ws[i + 1..]
    ensures kept + [] + ws[i + 1..] == kept + ws[i + 1..]
  {
  }

  lemma OneMoreDropped(sorted: seq<Literal>, kept: seq<Literal>, lit: Literal)
    requires Deduplicated(sorted, kept) && lit in sorted
    ensures Deduplicated(sorted + [lit], kept)
  {
  }

  lemma DeduplicatedClause(sorted: seq<Literal>, kept: seq<Literal>)
    requires Deduplicated(sorted, kept)
    ensures DistinctLits(kept) && Consistent(kept) && forall l :: l in kept <==> l in sorted
  {
    IncreasingIsConsistent(kept);
  }

  lemma SortedMembers(ls: seq<Literal>, sorted: seq<Literal>)
    requires multiset(ls) == multiset(sorted)
    ensures forall l :: l in sorted <==> l in ls
  {
    assert forall l :: l in sorted <==> l in multiset(sorted);
    assert forall l :: l in ls <==> l in multiset(ls);
  }

  lemma ValuesOf(vals: map<Literal, int>, trail: seq<Literal>, sizeVars: int, c: Clause)
    requires ValsMatch(vals, trail, sizeVars) && ClauseInVars(c, sizeVars)
    ensures forall l :: l in c ==> l in vals && (vals[l] > 0 <==> l in trail)
  {
  }

  lemma TrailIsConsistent(vals: map<Literal, int>, trail: seq<Literal>, sizeVars: int)
    requires ValsMatch(vals, trail, sizeVars)
    ensures Consistent(trail)
  {
  }

  lemma NotSatisfied(
    vals: map<Literal, int>, trail: seq<Literal>, sizeVars: int, c: Clause, simplified: seq<Literal>)
    requires ValsMatch(vals, trail, sizeVars) && ClauseInVars(c, sizeVars) && Consistent(simplified)
    requires forall l :: l in simplified <==> l in c
    requires forall l :: l in simplified ==> vals[l] <= 0
    ensures !Satisfied(trail, c)
  {
  }

  lemma SameValues(vals: map<Literal, int>, vals': map<Literal, int>, trail: seq<Literal>, sizeVars: int)
    requires ValsMatch(vals, trail, sizeVars) && ValsMatch(vals', trail, sizeVars)
    ensures vals == vals'
  {
  }

  function Swapped(ls: seq<Literal>, i: nat, j: nat): seq<Literal>
    requires i < |ls| && j < |ls|
  {
    ls[i := ls[j]][j := ls[i]]
  }

  lemma SwappedSame(ls: seq<Literal>, i: nat, j: nat)
    requires i < |ls| && j < |ls| && DistinctLits(ls)
    ensures SameLits(ls, Swapped(ls, i, j))
  {
    var r := Swapped(ls, i, j);
    forall k | 0 <= k < |ls|
      ensures r[k] == ls[if k == i then j else if k == j then i else k]
    {
    }
    forall l
      ensures l in ls <==> l in r
    {
      if l in ls {
        var k :| 0 <= k < |ls| && ls[k] == l;
        assert r[if k == i then j else if k == j then i else k] == l;
      }
      if l in r {
        var k :| 0 <= k < |r| && r[k] == l;
        assert ls[if k == i then j else if k == j then i else k] == l;
      }
    }
  }

  lemma IncreasingIsConsistent(ls: seq<Literal>)
    requires Increasing(ls)
    ensures DistinctLits(ls) && Consistent(ls)
  {
    forall l | l in ls
      ensures Not(l) !in ls
    {
      var j :| 0 <= j < |ls| && ls[j] == l;
      forall k | 0 <= k < |ls|
        ensures ls[k] != Not(l)
      {
      }
    }
  }

  lemma InconsistentHasNoModel(f: Cnf)
    ensures Refuted(f, []) ==> forall a :: !Models(a, f)
  {
    if Refuted(f, []) {
      forall a
        ensures !Models(a, f)
      {
        assert CubeTrue(a, []);
      }
    }
  }

  lemma FitForRecord(f: Cnf, simplified: seq<Literal>, ls: seq<Literal>, sizeVars: int, hash: int)
    requires Implied(f, simplified) && ClauseInVars(simplified, sizeVars) && SameLits(simplified, ls) && |ls| >= 2
    ensures RecordOk(f, Record(hash, |ls|, ls), sizeVars)
  {
    SameLiteralsSameImplied(f, simplified, ls);
  }

  lemma SameLiteralsSameImplied(f: Cnf, c: Clause, d: Clause)
    requires forall l :: l in c <==> l in d
    ensures Implied(f, c) <==> Implied(f, d)
  {
    SameLiteralsSameClause(c, d);
  }

  lemma SameAssumptions(db: set<Clause>, c: Clause, d: Clause)
    requires forall l :: l in c <==> l in d
    ensures PropagationConflicts(db, NotAll(c)) <==> PropagationConflicts(db, NotAll(d))
    ensures Stuck(db, NotAll(c)) <==> Stuck(db, NotAll(d))
  {
    assert forall l :: l in NotAll(c) <==> l in NotAll(d);
    forall t
      ensures Derivation(db, NotAll(c), t) <==> Derivation(db, NotAll(d), t)
    {
    }
  }

  lemma LastIsImplied(f: Cnf, c: Clause)
    ensures Implied(f + [c], c)
  {
    forall a | Models(a, f + [c])
      ensures ClauseTrue(a, c)
    {
      assert (f + [c])[|f|] in f + [c];
    }
  }

  lemma InconsistentImplies(f: Cnf, c: Clause)
    requires Refuted(f, [])
    ensures Implied(f, c)
  {
    InconsistentHasNoModel(f);
  }

  lemma TautologyIsImplied(f: Cnf, trail: seq<Literal>, c: Clause)
    requires Entails(f, [], trail) && exists l :: l in c && (Not(l) in c || l in trail)
    ensures Implied(f, c)
  {
    var l :| l in c && (Not(l) in c || l in trail);
    forall a | Models(a, f)
      ensures ClauseTrue(a, c)
    {
      assert CubeTrue(a, []);
      assert CubeTrue(a, trail);
      assert LitTrue(a, l) || LitTrue(a, Not(l));
    }
  }

  /** What the scan of the first i literals has found. */
  ghost predicate OpenLiterals(vals: map<Literal, int>, ls: seq<Literal>, i: nat, open: Open)
    requires i <= |ls| && forall l :: l in ls ==> l in vals
  {
    match open
    case None => forall j :: 0 <= j < i ==> vals[ls[j]] < 0
    case One(l) => l in ls[..i] && vals[l] == 0 && forall j :: 0 <= j < i && ls[j] != l ==> vals[ls[j]] < 0
    case Many => exists j, k :: 0 <= j < k < i && vals[ls[j]] == 0 && vals[ls[k]] == 0
  }

  lemma ValuesAre(vals: map<Literal, int>, trail: seq<Literal>, sizeVars: int, c: Clause)
    requires ValsMatch(vals, trail, sizeVars) && ClauseInVars(c, sizeVars)
    ensures forall l :: l in c ==> l in vals && InVars(l, sizeVars) && vals[l] >= -1
    ensures forall l :: l in c ==> (vals[l] < 0 ==> Not(l) in trail)
  {
  }

  lemma LiteralsHaveValues(
    f: Cnf, heap: Heap, vals: map<Literal, int>, trail: seq<Literal>, sizeVars: int, c: Ref)
    requires HeapOk(f, heap, sizeVars) && ValsMatch(vals, trail, sizeVars) && c in heap
    ensures forall l :: l in heap[c].literals ==> l in vals && (vals[l] > 0 <==> l in trail)
  {
    assert RecordOk(f, heap[c], sizeVars);
  }

  lemma WatchesPointSomewhere(f: Cnf, heap: Heap, watchers: Watchers, sizeVars: int)
    requires WatchesOk(f, heap, watchers, sizeVars)
    ensures forall l: Literal, i: int :: l in watchers && 0 <= i < |watchers[l]| ==> watchers[l][i].clause in heap
  {
    forall l: Literal, i: int | l in watchers && 0 <= i < |watchers[l]|
      ensures watchers[l][i].clause in heap
    {
      assert WatchOk(f, heap, sizeVars, l, watchers[l][i]);
    }
  }
}
