/**
 * Clauses under watched literals, as the online proof checker of CaDiCaL keeps
 * them (dep/cadical/src/checker.hpp, dep/cadical/src/checker.cpp): what its
 * records, watch lists and trail have to satisfy, and what the moves of its
 * propagation do to them.
 */
module Watching {
  import opened Logic

  // ------------------------------------------------------------------
  // Exclusive or of machine integers
  // ------------------------------------------------------------------

  /** Literals are non-zero 32-bit integers other than the least one. */
  predicate Fits(l: Literal) {
    VarOf(l) < 0x8000_0000
  }

  function XorNat(a: nat, b: nat): nat {
    if a == 0 then b
    else if b == 0 then a
    else (a % 2 + b % 2) % 2 + 2 * XorNat(a / 2, b / 2)
  }

  /** The lowest bit and the remaining bits of an exclusive or. */
  lemma XorHalves(a: nat, b: nat)
    ensures XorNat(a, b) % 2 == (a % 2 + b % 2) % 2
    ensures XorNat(a, b) / 2 == XorNat(a / 2, b / 2)
  {
    if a > 0 && b > 0 {
      BitAndHalf((a % 2 + b % 2) % 2, XorNat(a / 2, b / 2));
    }
  }

  lemma BitAndHalf(bit: nat, half: nat)
    requires bit < 2
    ensures (bit + 2 * half) % 2 == bit && (bit + 2 * half) / 2 == half
  {
  }

  lemma BitsCancel(p: nat, q: nat)
    requires p < 2 && q < 2
    ensures ((p + q) % 2 + p) % 2 == q && ((p + q) % 2 + q) % 2 == p
  {
  }

  lemma {:induction false} XorCancels(a: nat, b: nat)
    ensures XorNat(XorNat(a, b), a) == b
    ensures XorNat(XorNat(a, b), b) == a
    decreases a + b
  {
    if a > 0 || b > 0 {
      XorCancels(a / 2, b / 2);
      XorStep(a, b);
    }
  }

  lemma XorStep(a: nat, b: nat)
    requires XorNat(XorNat(a / 2, b / 2), a / 2) == b / 2
    requires XorNat(XorNat(a / 2, b / 2), b / 2) == a / 2
    ensures XorNat(XorNat(a, b), a) == b
    ensures XorNat(XorNat(a, b), b) == a
  {
    hide XorNat;
    var x := XorNat(a, b);
    XorHalves(a, b);
    XorHalves(x, a);
    XorHalves(x, b);
    BitsCancel(a % 2, b % 2);
    BitsDetermine(XorNat(x, a), b);
    BitsDetermine(XorNat(x, b), a);
  }

  lemma BitsDetermine(x: nat, y: nat)
    requires x % 2 == y % 2 && x / 2 == y / 2
    ensures x == y
  {
  }

  /** Two's complement. */
  function ToWord(x: int): (w: nat)
    requires -0x8000_0000 <= x < 0x8000_0000
    ensures w < 0x1_0000_0000
  {
    if x < 0 then x + 0x1_0000_0000 else x
  }

  function FromWord(w: nat): int {
    if w < 0x8000_0000 then w else w - 0x1_0000_0000
  }

  function Xor3(x: int, y: int, z: int): int
    requires -0x8000_0000 <= x < 0x8000_0000
    requires -0x8000_0000 <= y < 0x8000_0000
    requires -0x8000_0000 <= z < 0x8000_0000
  {
    FromWord(XorNat(XorNat(ToWord(x), ToWord(y)), ToWord(z)))
  }

  /** If z is one of x and y, the exclusive or of the three is the other one. */
  lemma Xor3IsOther(x: Literal, y: Literal, z: Literal)
    requires Fits(x) && Fits(y) && (z == x || z == y)
    ensures Xor3(x, y, z) == if z == x then y else x
  {
    XorCancels(ToWord(x), ToWord(y));
  }

  // ------------------------------------------------------------------
  // Clauses, watches and the trail
  // ------------------------------------------------------------------

  type Ref = nat

  /** A clause record; size 0 marks it as garbage, its literals stay. */
  datatype Record = Record(hash: int, size: nat, literals: seq<Literal>)

  /** A watch with its blocking literal and the size of the clause when it was made. */
  datatype Watch = Watch(blit: Literal, size: nat, clause: Ref)

  type Heap = map<Ref, Record>

  type Watchers = map<Literal, seq<Watch>>

  predicate InVars(l: Literal, sizeVars: int) {
    VarOf(l) < sizeVars && Fits(l)
  }

  predicate DistinctLits(ls: seq<Literal>) {
    forall i, j :: 0 <= i < j < |ls| ==> ls[i] != ls[j]
  }

  predicate ClauseInVars(ls: seq<Literal>, sizeVars: int) {
    forall l :: l in ls ==> InVars(l, sizeVars)
  }

  ghost predicate Implied(f: Cnf, c: Clause) {
    forall a :: Models(a, f) ==> ClauseTrue(a, c)
  }

  /** Under the formula and the assumptions every trail literal is true. */
  ghost predicate Entails(f: Cnf, assumed: seq<Literal>, trail: seq<Literal>) {
    forall a :: Models(a, f) && CubeTrue(a, assumed) ==> CubeTrue(a, trail)
  }

  ghost predicate Refuted(f: Cnf, assumed: seq<Literal>) {
    forall a :: Models(a, f) ==> !CubeTrue(a, assumed)
  }

  ghost predicate RecordOk(f: Cnf, r: Record, sizeVars: int) {
    && |r.literals| >= 2 && r.size in {0, |r.literals|}
    && DistinctLits(r.literals) && ClauseInVars(r.literals, sizeVars)
    && Implied(f, r.literals)
  }

  ghost predicate HeapOk(f: Cnf, heap: Heap, sizeVars: int) {
    forall c :: c in heap ==> RecordOk(f, heap[c], sizeVars)
  }

  /** A live clause is watched at one of its first two literals; a binary watch speaks for itself. */
  ghost predicate WatchOk(f: Cnf, heap: Heap, sizeVars: int, l: Literal, w: Watch) {
    && w.clause in heap && InVars(w.blit, sizeVars) && w.blit != l && w.size >= 2
    && (w.size == 2 ==> Implied(f, [l, w.blit]))
    && (heap[w.clause].size != 0 ==>
          var ls := heap[w.clause].literals;
          && |ls| >= 2 && w.size == |ls| && w.blit in ls
          && (l == ls[0] || l == ls[1]))
  }

  /** No live clause occurs twice in a list. */
  ghost predicate NoRepeats(heap: Heap, ws: seq<Watch>) {
    forall i, j :: 0 <= i < j < |ws| && ws[i].clause == ws[j].clause && ws[i].clause in heap ==>
      heap[ws[i].clause].size == 0
  }

  ghost predicate WatchesOk(f: Cnf, heap: Heap, watchers: Watchers, sizeVars: int) {
    && (forall l :: l in watchers <==> InVars(l, sizeVars))
    && (forall l, i :: l in watchers && 0 <= i < |watchers[l]| ==> WatchOk(f, heap, sizeVars, l, watchers[l][i]))
    && (forall l :: l in watchers ==> NoRepeats(heap, watchers[l]))
  }

  /** The value table: 1 and -1 for literals on the trail and their negations, 0 for the others. */
  ghost predicate ValsMatch(vals: map<Literal, int>, trail: seq<Literal>, sizeVars: int) {
    && (forall l :: l in vals <==> InVars(l, sizeVars))
    && (forall l :: l in vals ==> (vals[l] == if l in trail then 1 else if Not(l) in trail then -1 else 0))
    && (forall l :: l in trail ==> InVars(l, sizeVars) && Not(l) !in trail)
    && DistinctLits(trail)
  }

  // ------------------------------------------------------------------
  // Consequences
  // ------------------------------------------------------------------

  lemma ImpliedByMore(f: Cnf, g: Cnf, c: Clause)
    requires Implied(f, c)
    ensures Implied(f + g, c)
  {
    forall a | Models(a, f + g)
      ensures ClauseTrue(a, c)
    {
      ModelsConcat(a, f, g);
    }
  }

  lemma SameLiteralsSameClause(c: Clause, d: Clause)
    requires forall l :: l in c <==> l in d
    ensures forall a :: ClauseTrue(a, c) <==> ClauseTrue(a, d)
  {
    forall a
      ensures ClauseTrue(a, c) <==> ClauseTrue(a, d)
    {
      if ClauseTrue(a, c) {
        var l :| l in c && LitTrue(a, l);
        assert l in d;
      }
      if ClauseTrue(a, d) {
        var l :| l in d && LitTrue(a, l);
        assert l in c;
      }
    }
  }

  /** All literals of an implied clause but one are false: the remaining one follows. */
  lemma UnitFollows(f: Cnf, assumed: seq<Literal>, trail: seq<Literal>, c: Clause, unit: Literal)
    requires Implied(f, c) && Entails(f, assumed, trail)
    requires forall l :: l in c && l != unit ==> Not(l) in trail
    ensures Entails(f, assumed, trail + [unit])
  {
    forall a | Models(a, f) && CubeTrue(a, assumed)
      ensures CubeTrue(a, trail + [unit])
    {
      assert CubeTrue(a, trail);
      var l :| l in c && LitTrue(a, l);
      assert l != unit ==> LitTrue(a, Not(l));
    }
  }

  /** All literals of an implied clause are false: the assumptions are refuted. */
  lemma ConflictRefutes(f: Cnf, assumed: seq<Literal>, trail: seq<Literal>, c: Clause)
    requires Implied(f, c) && Entails(f, assumed, trail)
    requires forall l :: l in c ==> Not(l) in trail
    ensures Refuted(f, assumed)
  {
    forall a | Models(a, f)
      ensures !CubeTrue(a, assumed)
    {
      var l :| l in c && LitTrue(a, l);
      assert !LitTrue(a, Not(l));
      assert !CubeTrue(a, trail);
    }
  }

  // ------------------------------------------------------------------
  // The moves of propagation
  // ------------------------------------------------------------------

  /** A record whose literals are put in another order. */
  function Permuted(r: Record, ls: seq<Literal>): Record {
    r.(literals := ls)
  }

  ghost predicate SameLits(ls: seq<Literal>, ls': seq<Literal>) {
    |ls| == |ls'| && DistinctLits(ls') && forall l :: l in ls <==> l in ls'
  }

  lemma HeapAfterPermutation(f: Cnf, heap: Heap, sizeVars: int, c: Ref, ls: seq<Literal>)
    requires HeapOk(f, heap, sizeVars) && c in heap && SameLits(heap[c].literals, ls)
    ensures HeapOk(f, heap[c := Permuted(heap[c], ls)], sizeVars)
  {
    SameLiteralsSameClause(heap[c].literals, ls);
    assert RecordOk(f, heap[c], sizeVars);
  }

  /** The watched literals come first, the false one second. */
  function Normalized(ls: seq<Literal>, other: Literal, watched: Literal): seq<Literal>
    requires |ls| >= 2
  {
    [other, watched] + ls[2..]
  }

  lemma NormalizedSame(ls: seq<Literal>, other: Literal, watched: Literal)
    requires |ls| >= 2 && DistinctLits(ls)
    requires (ls[0] == other && ls[1] == watched) || (ls[0] == watched && ls[1] == other)
    ensures SameLits(ls, Normalized(ls, other, watched))
  {
    var ls' := Normalized(ls, other, watched);
    assert forall i :: 2 <= i < |ls| ==> ls'[i] == ls[i];
    assert forall l :: l in ls <==> l == ls[0] || l == ls[1] || l in ls[2..];
  }

  /** Exchanges the false watch for the literal at position k. */
  function Exchanged(ls: seq<Literal>, k: nat): seq<Literal>
    requires 2 <= k < |ls|
  {
    ls[1 := ls[k]][k := ls[1]]
  }

  lemma ExchangedSame(ls: seq<Literal>, k: nat)
    requires 2 <= k < |ls| && DistinctLits(ls)
    ensures SameLits(ls, Exchanged(ls, k))
    ensures Exchanged(ls, k)[0] == ls[0] && Exchanged(ls, k)[1] == ls[k]
  {
    var ls' := Exchanged(ls, k);
    assert ls'[1] == ls[k] && ls'[k] == ls[1];
    forall l
      ensures l in ls <==> l in ls'
    {
      if l in ls {
        var i :| 0 <= i < |ls| && ls[i] == l;
        assert ls'[if i == 1 then k else if i == k then 1 else i] == l;
      }
      if l in ls' {
        var i :| 0 <= i < |ls'| && ls'[i] == l;
        assert ls[if i == 1 then k else if i == k then 1 else i] == l;
      }
    }
  }

  /** Putting the first two literals in order keeps every watch. */
  lemma WatchesAfterNormalizing(
    f: Cnf, heap: Heap, watchers: Watchers, sizeVars: int, c: Ref, ls: seq<Literal>)
    requires WatchesOk(f, heap, watchers, sizeVars) && c in heap && SameLits(heap[c].literals, ls) && |ls| >= 2
    requires {ls[0], ls[1]} == {heap[c].literals[0], heap[c].literals[1]}
    ensures WatchesOk(f, heap[c := Permuted(heap[c], ls)], watchers, sizeVars)
  {
    var heap' := heap[c := Permuted(heap[c], ls)];
    forall l: Literal, i: int | l in watchers && 0 <= i < |watchers[l]|
      ensures WatchOk(f, heap', sizeVars, l, watchers[l][i])
    {
      assert WatchOk(f, heap, sizeVars, l, watchers[l][i]);
      if watchers[l][i].clause == c && heap[c].size != 0 {
        assert l in {heap[c].literals[0], heap[c].literals[1]};
        assert l in {ls[0], ls[1]};
      }
    }
    forall l | l in watchers
      ensures NoRepeats(heap', watchers[l])
    {
      assert NoRepeats(heap, watchers[l]);
    }
  }

  /** A watch can be dropped from its list. */
  lemma WatchesAfterDrop(
    f: Cnf, heap: Heap, watchers: Watchers, sizeVars: int, l: Literal, kept: seq<Watch>, w: Watch, rest: seq<Watch>)
    requires InVars(l, sizeVars) && WatchesOk(f, heap, watchers[l := kept + [w] + rest], sizeVars)
    ensures WatchesOk(f, heap, watchers[l := kept + rest], sizeVars)
  {
    var was, now := kept + [w] + rest, kept + rest;
    var before, after := watchers[l := was], watchers[l := now];
    forall i | 0 <= i < |now|
      ensures now[i] == was[if i < |kept| then i else i + 1]
    {
    }
    forall m, i | m in after && 0 <= i < |after[m]|
      ensures WatchOk(f, heap, sizeVars, m, after[m][i])
    {
      if m == l {
        assert WatchOk(f, heap, sizeVars, l, before[l][if i < |kept| then i else i + 1]);
      } else {
        assert before[m] == after[m];
      }
    }
    forall m | m in after
      ensures NoRepeats(heap, after[m])
    {
      assert NoRepeats(heap, before[m]);
    }
  }

  /** A watch can get another literal of its clause as blocking literal. */
  lemma WatchesAfterReblit(
    f: Cnf, heap: Heap, watchers: Watchers, sizeVars: int, l: Literal, kept: seq<Watch>, w: Watch, rest: seq<Watch>,
    blit: Literal)
    requires InVars(l, sizeVars) && WatchesOk(f, heap, watchers[l := kept + [w] + rest], sizeVars)
    requires blit != l && InVars(blit, sizeVars) && w.size > 2
    requires w.clause in heap && (heap[w.clause].size != 0 ==> blit in heap[w.clause].literals)
    ensures WatchesOk(f, heap, watchers[l := kept + [w.(blit := blit)] + rest], sizeVars)
  {
    var w' := w.(blit := blit);
    var was, now := kept + [w] + rest, kept + [w'] + rest;
    var before, after := watchers[l := was], watchers[l := now];
    forall m, i | m in after && 0 <= i < |after[m]|
      ensures WatchOk(f, heap, sizeVars, m, after[m][i])
    {
      assert WatchOk(f, heap, sizeVars, m, before[m][i]);
      if m == l {
        assert i != |kept| ==> now[i] == was[i];
      }
    }
    forall m | m in after
      ensures NoRepeats(heap, after[m])
    {
      assert NoRepeats(heap, before[m]);
      assert m == l ==> forall i :: 0 <= i < |now| ==> now[i].clause == was[i].clause;
    }
  }

  /** A new watch of a live clause at one of its first two literals. */
  lemma WatchesAfterPush(
    f: Cnf, heap: Heap, watchers: Watchers, sizeVars: int, l: Literal, w: Watch)
    requires WatchesOk(f, heap, watchers, sizeVars) && l in watchers
    requires WatchOk(f, heap, sizeVars, l, w)
    requires forall i :: 0 <= i < |watchers[l]| ==> watchers[l][i].clause != w.clause
    ensures WatchesOk(f, heap, watchers[l := watchers[l] + [w]], sizeVars)
  {
    var after := watchers[l := watchers[l] + [w]];
    forall m, i | m in after && 0 <= i < |after[m]|
      ensures WatchOk(f, heap, sizeVars, m, after[m][i])
    {
      if m == l && i == |watchers[l]| {
      } else {
        assert WatchOk(f, heap, sizeVars, m, watchers[m][i]);
      }
    }
    forall m | m in after
      ensures NoRepeats(heap, after[m])
    {
      assert NoRepeats(heap, watchers[m]);
    }
  }

  /** No other list than those of the first two literals has a watch of a live clause. */
  lemma WatchedOnlyAtFirstTwo(f: Cnf, heap: Heap, watchers: Watchers, sizeVars: int, c: Ref, l: Literal)
    requires WatchesOk(f, heap, watchers, sizeVars) && l in watchers
    requires c in heap && heap[c].size != 0 && |heap[c].literals| >= 2
    requires l != heap[c].literals[0] && l != heap[c].literals[1]
    ensures forall i :: 0 <= i < |watchers[l]| ==> watchers[l][i].clause != c
  {
    forall i | 0 <= i < |watchers[l]|
      ensures watchers[l][i].clause != c
    {
      assert WatchOk(f, heap, sizeVars, l, watchers[l][i]);
    }
  }

  /** A clause whose watch has been dropped may exchange the unwatched literal. */
  lemma WatchesAfterExchange(
    f: Cnf, heap: Heap, watchers: Watchers, sizeVars: int, c: Ref, k: nat)
    requires WatchesOk(f, heap, watchers, sizeVars) && c in heap && heap[c].size != 0
    requires 2 <= k < |heap[c].literals| && DistinctLits(heap[c].literals)
    requires heap[c].literals[1] in watchers
    requires forall i :: 0 <= i < |watchers[heap[c].literals[1]]| ==> watchers[heap[c].literals[1]][i].clause != c
    ensures WatchesOk(f, heap[c := Permuted(heap[c], Exchanged(heap[c].literals, k))], watchers, sizeVars)
  {
    var ls := heap[c].literals;
    var heap' := heap[c := Permuted(heap[c], Exchanged(ls, k))];
    ExchangedSame(ls, k);
    forall l: Literal, i: int | l in watchers && 0 <= i < |watchers[l]|
      ensures WatchOk(f, heap', sizeVars, l, watchers[l][i])
    {
      assert WatchOk(f, heap, sizeVars, l, watchers[l][i]);
      if watchers[l][i].clause == c {
        assert l == ls[0];
      }
    }
    forall l | l in watchers
      ensures NoRepeats(heap', watchers[l])
    {
      assert NoRepeats(heap, watchers[l]);
    }
  }

  /** After the drop no other watch of the clause is left in the list. */
  lemma DroppedIsGone(
    f: Cnf, heap: Heap, watchers: Watchers, sizeVars: int, l: Literal, kept: seq<Watch>, w: Watch, rest: seq<Watch>)
    requires InVars(l, sizeVars) && WatchesOk(f, heap, watchers[l := kept + [w] + rest], sizeVars)
    requires w.clause in heap && heap[w.clause].size != 0
    ensures forall i :: 0 <= i < |kept + rest| ==> (kept + rest)[i].clause != w.clause
  {
    var ws := kept + [w] + rest;
    assert watchers[l := ws][l] == ws;
    assert NoRepeats(heap, ws);
    assert ws[|kept|] == w;
    forall i | 0 <= i < |kept + rest|
      ensures (kept + rest)[i].clause != w.clause
    {
      var j := if i < |kept| then i else i + 1;
      assert ws[j] == (kept + rest)[i];
    }
  }

  // ------------------------------------------------------------------
  // The two-watch invariant
  // ------------------------------------------------------------------

  ghost predicate HasWatch(ws: seq<Watch>, c: Ref) {
    exists i :: 0 <= i < |ws| && ws[i].clause == c
  }

  ghost predicate IsLive(heap: Heap, c: Ref) {
    c in heap && heap[c].size != 0 && |heap[c].literals| >= 2
  }

  /** Every live clause is watched at its first two literals. */
  ghost predicate Watched(heap: Heap, watchers: Watchers) {
    forall c :: IsLive(heap, c) ==>
      && heap[c].literals[0] in watchers && HasWatch(watchers[heap[c].literals[0]], c)
      && heap[c].literals[1] in watchers && HasWatch(watchers[heap[c].literals[1]], c)
  }

  ghost predicate SomeTrue(ls: seq<Literal>, trail: seq<Literal>) {
    exists l :: l in ls && l in trail
  }

  /** A live clause with a watch made false by the given literals has a literal on the trail. */
  ghost predicate GuardedAt(heap: Heap, trail: seq<Literal>, done: seq<Literal>, c: Ref)
    requires IsLive(heap, c)
  {
    var ls := heap[c].literals;
    Not(ls[0]) in done || Not(ls[1]) in done ==> SomeTrue(ls, trail)
  }

  ghost predicate Guarded(heap: Heap, trail: seq<Literal>, done: seq<Literal>) {
    forall c :: IsLive(heap, c) ==> GuardedAt(heap, trail, done, c)
  }

  /** Clauses watched at a false literal have a true one, or their watch is still to be visited. */
  ghost predicate Handled(heap: Heap, trail: seq<Literal>, fl: Literal, pending: seq<Watch>) {
    forall c :: IsLive(heap, c) && (fl == heap[c].literals[0] || fl == heap[c].literals[1]) ==>
      SomeTrue(heap[c].literals, trail) || HasWatch(pending, c)
  }

  lemma MoreTrail(heap: Heap, trail: seq<Literal>, more: seq<Literal>, done: seq<Literal>, fl: Literal,
    pending: seq<Watch>)
    requires Guarded(heap, trail, done) && Handled(heap, trail, fl, pending) && trail <= more
    ensures Guarded(heap, more, done) && Handled(heap, more, fl, pending)
  {
    assert forall l :: l in trail ==> l in more;
    forall c | IsLive(heap, c) && SomeTrue(heap[c].literals, trail)
      ensures SomeTrue(heap[c].literals, more)
    {
      var l :| l in heap[c].literals && l in trail;
      assert l in more;
    }
    forall c | IsLive(heap, c)
      ensures GuardedAt(heap, more, done, c)
    {
      assert GuardedAt(heap, trail, done, c);
    }
  }

  lemma StartHandling(heap: Heap, watchers: Watchers, trail: seq<Literal>, fl: Literal)
    requires Watched(heap, watchers) && fl in watchers
    ensures Handled(heap, trail, fl, watchers[fl])
  {
  }

  /** When the list is exhausted the literal is done. */
  lemma AllHandled(heap: Heap, trail: seq<Literal>, done: seq<Literal>, lit: Literal)
    requires Guarded(heap, trail, done) && Handled(heap, trail, Not(lit), [])
    ensures Guarded(heap, trail, done + [lit])
  {
    forall c | IsLive(heap, c)
      ensures GuardedAt(heap, trail, done + [lit], c)
    {
      assert GuardedAt(heap, trail, done, c);
      var ls := heap[c].literals;
      assert Not(ls[0]) == lit ==> ls[0] == Not(lit);
      assert Not(ls[1]) == lit ==> ls[1] == Not(lit);
    }
  }

  /** The watch on turn needs no more attention. */
  lemma VisitedOne(heap: Heap, trail: seq<Literal>, fl: Literal, w: Watch, rest: seq<Watch>)
    requires Handled(heap, trail, fl, [w] + rest)
    requires IsLive(heap, w.clause) && (fl == heap[w.clause].literals[0] || fl == heap[w.clause].literals[1]) ==>
               SomeTrue(heap[w.clause].literals, trail)
    ensures Handled(heap, trail, fl, rest)
  {
    forall c | IsLive(heap, c) && c != w.clause && HasWatch([w] + rest, c)
      ensures HasWatch(rest, c)
    {
      var i :| 0 <= i < |[w] + rest| && ([w] + rest)[i].clause == c;
      assert rest[i - 1].clause == c;
    }
  }

  lemma WatchedAfterDrop(
    heap: Heap, watchers: Watchers, l: Literal, kept: seq<Watch>, w: Watch, rest: seq<Watch>)
    requires Watched(heap, watchers[l := kept + [w] + rest]) && !IsLive(heap, w.clause)
    ensures Watched(heap, watchers[l := kept + rest])
  {
    forall c | IsLive(heap, c) && HasWatch(kept + [w] + rest, c)
      ensures HasWatch(kept + rest, c)
    {
      StillWatched(kept, w, rest, c);
    }
  }

  lemma StillWatched(kept: seq<Watch>, w: Watch, rest: seq<Watch>, c: Ref)
    requires HasWatch(kept + [w] + rest, c) && w.clause != c
    ensures HasWatch(kept + rest, c)
  {
    var i :| 0 <= i < |kept + [w] + rest| && (kept + [w] + rest)[i].clause == c;
    assert (kept + rest)[if i < |kept| then i else i - 1].clause == c;
  }

  lemma WatchedAfterReblit(
    heap: Heap, watchers: Watchers, l: Literal, kept: seq<Watch>, w: Watch, rest: seq<Watch>, blit: Literal)
    requires Watched(heap, watchers[l := kept + [w] + rest])
    ensures Watched(heap, watchers[l := kept + [w.(blit := blit)] + rest])
  {
    forall c | HasWatch(kept + [w] + rest, c)
      ensures HasWatch(kept + [w.(blit := blit)] + rest, c)
    {
      var i :| 0 <= i < |kept + [w] + rest| && (kept + [w] + rest)[i].clause == c;
      assert (kept + [w.(blit := blit)] + rest)[i].clause == c;
    }
  }

  /** Putting the first two literals in order changes none of this. */
  lemma TwoWatchesAfterNormalizing(
    heap: Heap, watchers: Watchers, trail: seq<Literal>, done: seq<Literal>, fl: Literal, pending: seq<Watch>,
    c: Ref, ls: seq<Literal>)
    requires IsLive(heap, c) && SameLits(heap[c].literals, ls)
    requires {ls[0], ls[1]} == {heap[c].literals[0], heap[c].literals[1]}
    ensures var heap' := heap[c := Permuted(heap[c], ls)];
            && (Watched(heap, watchers) ==> Watched(heap', watchers))
            && (Guarded(heap, trail, done) ==> Guarded(heap', trail, done))
            && (Handled(heap, trail, fl, pending) ==> Handled(heap', trail, fl, pending))
  {
    var heap' := heap[c := Permuted(heap[c], ls)];
    assert ls[0] in {heap[c].literals[0], heap[c].literals[1]} && ls[1] in {heap[c].literals[0], heap[c].literals[1]};
    assert heap[c].literals[0] in {ls[0], ls[1]} && heap[c].literals[1] in {ls[0], ls[1]};
    assert SomeTrue(ls, trail) <==> SomeTrue(heap[c].literals, trail);
    forall d | IsLive(heap', d)
      ensures IsLive(heap, d)
    {
    }
    if Guarded(heap, trail, done) {
      forall d | IsLive(heap', d)
        ensures GuardedAt(heap', trail, done, d)
      {
        assert GuardedAt(heap, trail, done, d);
      }
    }
  }

  /** Moving the watch at position 1 to a literal that is not false. */
  lemma TwoWatchesAfterExchange(
    heap: Heap, trail: seq<Literal>, done: seq<Literal>, c: Ref, k: nat)
    requires IsLive(heap, c) && 2 <= k < |heap[c].literals| && DistinctLits(heap[c].literals)
    requires Not(heap[c].literals[k]) !in done && Guarded(heap, trail, done)
    ensures Guarded(heap[c := Permuted(heap[c], Exchanged(heap[c].literals, k))], trail, done)
  {
    var ls := heap[c].literals;
    var heap' := heap[c := Permuted(heap[c], Exchanged(ls, k))];
    ExchangedSame(ls, k);
    assert SomeTrue(ls, trail) <==> SomeTrue(Exchanged(ls, k), trail);
    forall d | IsLive(heap', d)
      ensures GuardedAt(heap', trail, done, d)
    {
      assert GuardedAt(heap, trail, done, d);
    }
  }

  lemma HandledAfterExchange(
    heap: Heap, trail: seq<Literal>, fl: Literal, w: Watch, rest: seq<Watch>, k: nat)
    requires IsLive(heap, w.clause) && 2 <= k < |heap[w.clause].literals| && DistinctLits(heap[w.clause].literals)
    requires heap[w.clause].literals[1] == fl && Handled(heap, trail, fl, [w] + rest)
    ensures Handled(
              heap[w.clause := Permuted(heap[w.clause], Exchanged(heap[w.clause].literals, k))], trail, fl, rest)
  {
    var c := w.clause;
    var ls := heap[c].literals;
    var heap' := heap[c := Permuted(heap[c], Exchanged(ls, k))];
    ExchangedSame(ls, k);
    forall d | IsLive(heap', d) && (fl == heap'[d].literals[0] || fl == heap'[d].literals[1])
      ensures SomeTrue(heap'[d].literals, trail) || HasWatch(rest, d)
    {
      assert d != c;
      assert IsLive(heap, d);
      if HasWatch([w] + rest, d) {
        assert [] + [w] + rest == [w] + rest && [] + rest == rest;
        StillWatched([], w, rest, d);
      }
    }
  }

  lemma WatchedAfterExchange(
    heap: Heap, watchers: Watchers, fl: Literal, kept: seq<Watch>, w: Watch, rest: seq<Watch>, k: nat, w': Watch)
    requires IsLive(heap, w.clause) && 2 <= k < |heap[w.clause].literals| && DistinctLits(heap[w.clause].literals)
    requires heap[w.clause].literals[1] == fl && w'.clause == w.clause
    requires heap[w.clause].literals[k] in watchers && heap[w.clause].literals[k] != fl
    requires Watched(heap, watchers[fl := kept + [w] + rest])
    ensures var r := heap[w.clause].literals[k];
            Watched(
              heap[w.clause := Permuted(heap[w.clause], Exchanged(heap[w.clause].literals, k))],
              watchers[r := watchers[r] + [w']][fl := kept + rest])
  {
    var c, r := w.clause, heap[w.clause].literals[k];
    var ls := heap[c].literals;
    var heap' := heap[c := Permuted(heap[c], Exchanged(ls, k))];
    var before := watchers[fl := kept + [w] + rest];
    var after := watchers[r := watchers[r] + [w']][fl := kept + rest];
    ExchangedSame(ls, k);
    forall d, l | IsLive(heap, d) && l in before && HasWatch(before[l], d) && (d != c || l != fl)
      ensures l in after && HasWatch(after[l], d)
    {
      if l == fl {
        StillWatched(kept, w, rest, d);
      } else if l == r {
        var i :| 0 <= i < |watchers[r]| && watchers[r][i].clause == d;
        assert after[r][i].clause == d;
      }
    }
    assert after[r][|watchers[r]|].clause == c;
    assert HasWatch(after[r], c);
    forall d | IsLive(heap', d)
      ensures IsLive(heap, d)
    {
    }
    assert ls[0] != fl;
  }

  // ------------------------------------------------------------------
  // Unit propagation
  // ------------------------------------------------------------------

  /** Every literal is assumed or the last one of a clause whose other literals are false before. */
  ghost predicate Derivation(db: set<Clause>, assumed: seq<Literal>, t: seq<Literal>) {
    forall i :: 0 <= i < |t| ==>
      t[i] in assumed || exists c :: c in db && t[i] in c && forall l :: l in c && l != t[i] ==> Not(l) in t[..i]
  }

  /** Unit propagation from the assumptions falsifies a clause. */
  ghost predicate PropagationConflicts(db: set<Clause>, assumed: seq<Literal>) {
    exists t, c :: Derivation(db, assumed, t) && c in db && forall l :: l in c ==> Not(l) in t
  }

  ghost predicate TwoOpen(c: Clause, t: seq<Literal>) {
    exists l, m :: l in c && m in c && l != m && Not(l) !in t && Not(m) !in t
  }

  /** Nothing is left to propagate: every clause has a true literal or two that are not false. */
  ghost predicate Closed(db: set<Clause>, t: seq<Literal>) {
    forall c :: c in db ==> SomeTrue(c, t) || TwoOpen(c, t)
  }

  lemma {:induction false} DerivedStaysInside(db: set<Clause>, assumed: seq<Literal>, t: seq<Literal>,
    d: seq<Literal>, n: nat)
    requires Closed(db, t) && Consistent(t) && (forall l :: l in assumed ==> l in t)
    requires Derivation(db, assumed, d) && n <= |d|
    ensures forall i :: 0 <= i < n ==> d[i] in t
  {
    if n > 0 {
      DerivedStaysInside(db, assumed, t, d, n - 1);
      if d[n - 1] !in assumed {
        var c :| c in db && d[n - 1] in c && forall l :: l in c && l != d[n - 1] ==> Not(l) in d[..n - 1];
        assert forall l :: l in c && l != d[n - 1] ==> Not(l) in t;
        assert !TwoOpen(c, t);
        var l :| l in c && l in t;
        assert Not(Not(l)) == l;
      }
    }
  }

  /** A closed consistent trail that contains the assumptions shows that propagation cannot conflict. */
  lemma ClosedHasNoConflict(db: set<Clause>, assumed: seq<Literal>, t: seq<Literal>)
    requires Closed(db, t) && Consistent(t) && forall l :: l in assumed ==> l in t
    ensures !PropagationConflicts(db, assumed)
  {
    forall d, c | Derivation(db, assumed, d) && c in db
      ensures exists l :: l in c && Not(l) !in d
    {
      DerivedStaysInside(db, assumed, t, d, |d|);
      if SomeTrue(c, t) {
        var l :| l in c && l in t;
        assert Not(l) !in t;
        assert Not(l) !in d;
      } else {
        var l, m :| l in c && m in c && l != m && Not(l) !in t && Not(m) !in t;
        assert Not(l) !in d;
      }
    }
  }

  ghost function LiveClauses(heap: Heap): set<Clause> {
    set c | c in heap && heap[c].size != 0 :: heap[c].literals
  }

  ghost function Units(trail: seq<Literal>): set<Clause> {
    set l | l in trail :: [l]
  }

  /** A trail on which everything is guarded is closed under the live clauses. */
  lemma GuardedIsClosed(f: Cnf, heap: Heap, trail: seq<Literal>, base: seq<Literal>, sizeVars: int)
    requires HeapOk(f, heap, sizeVars) && Guarded(heap, trail, trail) && base <= trail
    ensures Closed(LiveClauses(heap) + Units(base), trail)
  {
    forall ls | ls in LiveClauses(heap)
      ensures SomeTrue(ls, trail) || TwoOpen(ls, trail)
    {
      var c :| c in heap && heap[c].size != 0 && heap[c].literals == ls;
      assert RecordOk(f, heap[c], sizeVars);
      assert GuardedAt(heap, trail, trail, c);
      if !SomeTrue(ls, trail) {
        assert ls[0] in ls && ls[1] in ls && ls[0] != ls[1];
      }
    }
    forall u | u in Units(base)
      ensures SomeTrue(u, trail)
    {
      var l :| l in base && u == [l];
      assert l in u && l in trail;
    }
  }

  // ------------------------------------------------------------------
  // The trail
  // ------------------------------------------------------------------

  lemma ValsAfterAssign(vals: map<Literal, int>, trail: seq<Literal>, sizeVars: int, l: Literal)
    requires ValsMatch(vals, trail, sizeVars) && InVars(l, sizeVars) && vals[l] == 0
    ensures ValsMatch(vals[l := 1][Not(l) := -1], trail + [l], sizeVars)
  {
    assert l !in trail && Not(l) !in trail;
  }

  lemma ValsAfterUnassign(vals: map<Literal, int>, trail: seq<Literal>, sizeVars: int, l: Literal)
    requires ValsMatch(vals, trail + [l], sizeVars)
    ensures ValsMatch(vals[l := 0][Not(l) := 0], trail, sizeVars)
  {
    var t := trail + [l];
    assert t[|trail|] == l;
    assert forall i :: 0 <= i < |trail| ==> t[i] == trail[i] && t[i] != t[|trail|];
    assert l !in trail;
    assert forall m :: m in t <==> m in trail || m == l;
    forall m | m in vals
      ensures vals[l := 0][Not(l) := 0][m] == if m in trail then 1 else if Not(m) in trail then -1 else 0
    {
      assert m == Not(l) ==> Not(m) == l;
    }
  }

  /** A trail is no longer than the table of values has entries. */
  lemma TrailBounded(vals: map<Literal, int>, trail: seq<Literal>)
    requires DistinctLits(trail) && forall l :: l in trail ==> l in vals
    ensures |trail| <= |vals.Keys|
  {
    DistinctAreAsMany(trail);
    SubsetIsSmaller(LitSet(trail), vals.Keys);
  }

  lemma {:induction false} DistinctAreAsMany(ls: seq<Literal>)
    requires DistinctLits(ls)
    ensures |LitSet(ls)| == |ls|
  {
    if ls != [] {
      var init, last := ls[..|ls| - 1], ls[|ls| - 1];
      DistinctAreAsMany(init);
      assert ls == init + [last];
      assert LitSet(ls) == LitSet(init) + {last};
      assert last !in init;
    }
  }

  // ------------------------------------------------------------------
  // Growing tables and changing records
  // ------------------------------------------------------------------

  lemma EnlargedTables(
    f: Cnf, heap: Heap, watchers: Watchers, vals: map<Literal, int>, trail: seq<Literal>, sizeVars: int, larger: int,
    watchers': Watchers, vals': map<Literal, int>)
    requires HeapOk(f, heap, sizeVars) && WatchesOk(f, heap, watchers, sizeVars) && Watched(heap, watchers)
    requires ValsMatch(vals, trail, sizeVars) && sizeVars <= larger
    requires forall l :: l in watchers' <==> InVars(l, larger)
    requires forall l :: l in watchers' ==> watchers'[l] == if l in watchers then watchers[l] else []
    requires forall l :: l in vals' <==> InVars(l, larger)
    requires forall l :: l in vals' ==> vals'[l] == if l in vals then vals[l] else 0
    ensures HeapOk(f, heap, larger) && WatchesOk(f, heap, watchers', larger) && Watched(heap, watchers')
    ensures ValsMatch(vals', trail, larger)
  {
    forall c | c in heap
      ensures RecordOk(f, heap[c], larger)
    {
      assert RecordOk(f, heap[c], sizeVars);
    }
    forall l: Literal, i: int | l in watchers' && 0 <= i < |watchers'[l]|
      ensures WatchOk(f, heap, larger, l, watchers'[l][i])
    {
      assert WatchOk(f, heap, sizeVars, l, watchers[l][i]);
    }
    forall l | l in watchers'
      ensures NoRepeats(heap, watchers'[l])
    {
      assert l in watchers ==> NoRepeats(heap, watchers[l]);
    }
  }

  /** More original clauses imply no less. */
  lemma MoreOriginals(
    f: Cnf, g: Cnf, heap: Heap, watchers: Watchers, trail: seq<Literal>, sizeVars: int)
    ensures HeapOk(f, heap, sizeVars) ==> HeapOk(f + g, heap, sizeVars)
    ensures WatchesOk(f, heap, watchers, sizeVars) ==> WatchesOk(f + g, heap, watchers, sizeVars)
    ensures Entails(f, [], trail) ==> Entails(f + g, [], trail)
    ensures Refuted(f, []) ==> Refuted(f + g, [])
  {
    forall a
      ensures Models(a, f + g) ==> Models(a, f)
    {
      ModelsConcat(a, f, g);
    }
    forall c | Implied(f, c)
      ensures Implied(f + g, c)
    {
      ImpliedByMore(f, g, c);
    }
    if HeapOk(f, heap, sizeVars) {
      forall c | c in heap
        ensures RecordOk(f + g, heap[c], sizeVars)
      {
        assert RecordOk(f, heap[c], sizeVars);
      }
    }
    if WatchesOk(f, heap, watchers, sizeVars) {
      forall l: Literal, i: int | l in watchers && 0 <= i < |watchers[l]|
        ensures WatchOk(f + g, heap, sizeVars, l, watchers[l][i])
      {
        assert WatchOk(f, heap, sizeVars, l, watchers[l][i]);
      }
    }
  }

  /** The record of a clause that has been put aside. */
  function Marked(r: Record): Record {
    r.(size := 0)
  }

  /** A record marked as garbage needs no watches and no guard. */
  lemma MarkedGarbage(f: Cnf, heap: Heap, watchers: Watchers, trail: seq<Literal>, sizeVars: int, c: Ref)
    requires c in heap
    requires HeapOk(f, heap, sizeVars) && WatchesOk(f, heap, watchers, sizeVars) && Watched(heap, watchers)
    requires Guarded(heap, trail, trail)
    ensures var heap' := heap[c := Marked(heap[c])];
            && HeapOk(f, heap', sizeVars) && WatchesOk(f, heap', watchers, sizeVars) && Watched(heap', watchers)
            && Guarded(heap', trail, trail)
  {
    var heap' := heap[c := Marked(heap[c])];
    assert RecordOk(f, heap[c], sizeVars);
    forall l: Literal, i: int | l in watchers && 0 <= i < |watchers[l]|
      ensures WatchOk(f, heap', sizeVars, l, watchers[l][i])
    {
      assert WatchOk(f, heap, sizeVars, l, watchers[l][i]);
    }
    forall l | l in watchers
      ensures NoRepeats(heap', watchers[l])
    {
      assert NoRepeats(heap, watchers[l]);
    }
    forall d | IsLive(heap', d)
      ensures IsLive(heap, d) && GuardedAt(heap', trail, trail, d)
    {
      assert GuardedAt(heap, trail, trail, d);
    }
  }

  /** The watches of live clauses, in their order. */
  function LiveWatches(heap: Heap, ws: seq<Watch>): (r: seq<Watch>)
    requires forall i :: 0 <= i < |ws| ==> ws[i].clause in heap
    ensures forall w :: w in r <==> w in ws && heap[w.clause].size != 0
  {
    if ws == [] then []
    else
      var w := ws[|ws| - 1];
      LiveWatches(heap, ws[..|ws| - 1]) + if heap[w.clause].size != 0 then [w] else []
  }

  lemma {:induction false} LiveWatchesDoNotRepeat(heap: Heap, ws: seq<Watch>)
    requires forall i :: 0 <= i < |ws| ==> ws[i].clause in heap
    requires NoRepeats(heap, ws)
    ensures NoRepeats(heap, LiveWatches(heap, ws))
  {
    if ws != [] {
      var init, w := ws[..|ws| - 1], ws[|ws| - 1];
      LiveWatchesDoNotRepeat(heap, init);
      var r := LiveWatches(heap, init);
      forall i | 0 <= i < |r| && heap[w.clause].size != 0
        ensures r[i].clause != w.clause
      {
        assert r[i] in init;
        var j :| 0 <= j < |init| && init[j] == r[i];
        assert ws[j] == r[i];
      }
    }
  }

  function LiveRecords(heap: Heap): (left: Heap)
    ensures forall c :: c in left <==> c in heap && heap[c].size != 0
    ensures forall c :: c in left ==> left[c] == heap[c]
  {
    map c | c in heap && heap[c].size != 0 :: heap[c]
  }

  function LiveLists(heap: Heap, watchers: Watchers): (lists: Watchers)
    requires forall l: Literal, i: int :: l in watchers && 0 <= i < |watchers[l]| ==> watchers[l][i].clause in heap
    ensures lists.Keys == watchers.Keys
    ensures forall l :: l in watchers ==> lists[l] == LiveWatches(heap, watchers[l])
  {
    map l | l in watchers :: LiveWatches(heap, watchers[l])
  }

  /** The records that are left and the watch lists without garbage. */
  ghost predicate Flushed(heap: Heap, watchers: Watchers, heap': Heap, watchers': Watchers) {
    && (forall c :: c in heap' <==> c in heap && heap[c].size != 0)
    && (forall c :: c in heap' ==> heap'[c] == heap[c])
    && watchers'.Keys == watchers.Keys
    && (forall l: Literal, i: int :: l in watchers && 0 <= i < |watchers[l]| ==> watchers[l][i].clause in heap)
    && (forall l :: l in watchers ==> watchers'[l] == LiveWatches(heap, watchers[l]))
  }

  /** Flushing the watches of garbage and freeing its records leaves no dangling reference. */
  lemma FlushedWatchesOk(f: Cnf, heap: Heap, watchers: Watchers, sizeVars: int, heap': Heap, watchers': Watchers)
    requires WatchesOk(f, heap, watchers, sizeVars) && Flushed(heap, watchers, heap', watchers')
    ensures WatchesOk(f, heap', watchers', sizeVars)
  {
    hide Implied, Fits;
    forall l: Literal, i: int | l in watchers' && 0 <= i < |watchers'[l]|
      ensures WatchOk(f, heap', sizeVars, l, watchers'[l][i])
    {
      var w := watchers'[l][i];
      assert w in LiveWatches(heap, watchers[l]);
      var j :| 0 <= j < |watchers[l]| && watchers[l][j] == w;
      assert WatchOk(f, heap, sizeVars, l, watchers[l][j]);
    }
    forall l | l in watchers'
      ensures NoRepeats(heap', watchers'[l])
    {
      assert NoRepeats(heap, watchers[l]);
      LiveWatchesDoNotRepeat(heap, watchers[l]);
    }
  }

  lemma FlushKeepsWatch(heap: Heap, ws: seq<Watch>, c: Ref)
    requires forall i :: 0 <= i < |ws| ==> ws[i].clause in heap
    requires HasWatch(ws, c) && heap[c].size != 0
    ensures HasWatch(LiveWatches(heap, ws), c)
  {
    var i :| 0 <= i < |ws| && ws[i].clause == c;
    var r := LiveWatches(heap, ws);
    assert ws[i] in r;
    var j :| 0 <= j < |r| && r[j] == ws[i];
  }

  lemma FlushedStaysWatched(heap: Heap, watchers: Watchers, heap': Heap, watchers': Watchers)
    requires Watched(heap, watchers) && Flushed(heap, watchers, heap', watchers')
    ensures Watched(heap', watchers')
  {
    hide Fits;
    forall c: Ref, l: Literal | IsLive(heap, c) && l in watchers && HasWatch(watchers[l], c)
      ensures HasWatch(watchers'[l], c)
    {
      FlushKeepsWatch(heap, watchers[l], c);
    }
    forall d | IsLive(heap', d)
      ensures IsLive(heap, d)
    {
    }
  }

  lemma CollectedGarbage(
    f: Cnf, heap: Heap, watchers: Watchers, trail: seq<Literal>, sizeVars: int, heap': Heap, watchers': Watchers)
    requires HeapOk(f, heap, sizeVars) && WatchesOk(f, heap, watchers, sizeVars) && Watched(heap, watchers)
    requires Guarded(heap, trail, trail) && Flushed(heap, watchers, heap', watchers')
    ensures HeapOk(f, heap', sizeVars) && WatchesOk(f, heap', watchers', sizeVars) && Watched(heap', watchers')
    ensures Guarded(heap', trail, trail)
  {
    hide WatchesOk, Watched, RecordOk;
    FlushedWatchesOk(f, heap, watchers, sizeVars, heap', watchers');
    FlushedStaysWatched(heap, watchers, heap', watchers');
    forall d | IsLive(heap', d)
      ensures IsLive(heap, d) && GuardedAt(heap', trail, trail, d)
    {
      assert GuardedAt(heap, trail, trail, d);
    }
  }

  /** A new clause, watched at two literals that are not false. */
  lemma NewRecord(
    f: Cnf, heap: Heap, watchers: Watchers, trail: seq<Literal>, sizeVars: int, c: Ref, r: Record)
    requires HeapOk(f, heap, sizeVars) && WatchesOk(f, heap, watchers, sizeVars) && Watched(heap, watchers)
    requires Guarded(heap, trail, trail) && c !in heap && RecordOk(f, r, sizeVars) && r.size != 0
    requires Not(r.literals[0]) !in trail && Not(r.literals[1]) !in trail
    ensures r.literals[0] in watchers && r.literals[1] in watchers && r.literals[0] != r.literals[1]
    ensures var heap' := heap[c := r]; var ls := r.literals;
            var one: Watchers := watchers[ls[0] := watchers[ls[0]] + [Watch(ls[1], r.size, c)]];
            var two: Watchers := one[ls[1] := one[ls[1]] + [Watch(ls[0], r.size, c)]];
            && HeapOk(f, heap', sizeVars) && WatchesOk(f, heap', two, sizeVars) && Watched(heap', two)
            && Guarded(heap', trail, trail)
  {
    var ls: seq<Literal> := r.literals;
    assert ls[0] in ls && ls[1] in ls;
    var heap' := heap[c := r];
    forall l: Literal, i: int | l in watchers && 0 <= i < |watchers[l]|
      ensures WatchOk(f, heap', sizeVars, l, watchers[l][i]) && watchers[l][i].clause != c
    {
      assert WatchOk(f, heap, sizeVars, l, watchers[l][i]);
    }
    forall l | l in watchers
      ensures NoRepeats(heap', watchers[l])
    {
      assert NoRepeats(heap, watchers[l]);
    }
    BinaryIsImplied(f, ls);
    var w0, w1 := Watch(ls[1], r.size, c), Watch(ls[0], r.size, c);
    WatchesAfterPush(f, heap', watchers, sizeVars, ls[0], w0);
    var one: Watchers := watchers[ls[0] := watchers[ls[0]] + [w0]];
    WatchesAfterPush(f, heap', one, sizeVars, ls[1], w1);
    var two: Watchers := one[ls[1] := one[ls[1]] + [w1]];
    NewRecordIsWatched(heap, watchers, c, r);
    forall d | IsLive(heap', d)
      ensures GuardedAt(heap', trail, trail, d)
    {
      assert d != c ==> IsLive(heap, d) && GuardedAt(heap, trail, trail, d);
    }
  }

  lemma BinaryIsImplied(f: Cnf, ls: seq<Literal>)
    requires |ls| >= 2 && Implied(f, ls)
    ensures |ls| == 2 ==> Implied(f, [ls[0], ls[1]]) && Implied(f, [ls[1], ls[0]])
  {
    if |ls| == 2 {
      SameLiteralsSameClause(ls, [ls[0], ls[1]]);
      SameLiteralsSameClause(ls, [ls[1], ls[0]]);
    }
  }

  lemma NewRecordIsWatched(heap: Heap, watchers: Watchers, c: Ref, r: Record)
    requires Watched(heap, watchers) && c !in heap && |r.literals| >= 2 && r.literals[0] != r.literals[1]
    requires r.literals[0] in watchers && r.literals[1] in watchers
    ensures var heap' := heap[c := r]; var ls := r.literals;
            var one: Watchers := watchers[ls[0] := watchers[ls[0]] + [Watch(ls[1], r.size, c)]];
            Watched(heap', one[ls[1] := one[ls[1]] + [Watch(ls[0], r.size, c)]])
  {
    var ls := r.literals;
    var heap' := heap[c := r];
    var one: Watchers := watchers[ls[0] := watchers[ls[0]] + [Watch(ls[1], r.size, c)]];
    var two: Watchers := one[ls[1] := one[ls[1]] + [Watch(ls[0], r.size, c)]];
    assert two[ls[0]][|watchers[ls[0]]|].clause == c && two[ls[1]][|watchers[ls[1]]|].clause == c;
    assert HasWatch(two[ls[0]], c) && HasWatch(two[ls[1]], c);
    forall d: Ref, l: Literal | l in watchers && HasWatch(watchers[l], d)
      ensures HasWatch(two[l], d)
    {
      var i :| 0 <= i < |watchers[l]| && watchers[l][i].clause == d;
      assert two[l][i].clause == d;
    }
    forall d | IsLive(heap', d) && d != c
      ensures IsLive(heap, d)
    {
    }
  }
}
