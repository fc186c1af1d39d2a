/**
 * The clause records of the online proof checker (dep/cadical/src/checker.hpp,
 * dep/cadical/src/checker.cpp), the books over them, and what a proof that has
 * been read so far leaves active.
 */
module Records {
  import opened Logic
  import opened Watching

  /** Every record is still there, with its size, its hash and its literals in some order. */
  ghost predicate RecordsKept(heap: Heap, heap': Heap) {
    forall r :: r in heap ==>
      && r in heap' && heap'[r].size == heap[r].size && heap'[r].hash == heap[r].hash
      && |heap'[r].literals| == |heap[r].literals|
      && forall l :: l in heap'[r].literals <==> l in heap[r].literals
  }

  /** The records differ in the order of literals only. */
  ghost predicate OnlyPermuted(heap: Heap, heap': Heap) {
    heap.Keys == heap'.Keys && RecordsKept(heap, heap')
  }

  lemma PermutedTwice(heap: Heap, heap': Heap, heap'': Heap)
    requires OnlyPermuted(heap, heap') && OnlyPermuted(heap', heap'')
    ensures OnlyPermuted(heap, heap'')
  {
  }

  /** A live record with the literals of the clause. */
  ghost predicate RecordOf(r: Record, c: Clause) {
    r.size != 0 && forall l :: l in r.literals <==> l in c
  }

  /** The record that a deletion with this hash is looking for. */
  ghost predicate Matches(heap: Heap, r: Ref, c: Clause, hash: int) {
    r in heap && heap[r].hash == hash && heap[r].size == |c| && forall l :: l in heap[r].literals ==> l in c
  }

  /** The clause contains a complementary pair or a literal that is known to be true. */
  ghost predicate Satisfied(trail: seq<Literal>, c: Clause) {
    exists l :: l in c && (Not(l) in c || l in trail)
  }

  /** The chain holds a record with these literals and this hash. */
  ghost predicate Stored(heap: Heap, table: seq<Ref>, c: Clause, hash: int) {
    exists r :: r in table && r in heap && RecordOf(heap[r], c) && heap[r].hash == hash
  }

  /**
   * The clause has been taken over: either it is satisfied and the table is as
   * it was, or record r joins the table in front. No record goes.
   */
  ghost predicate Added(
    heap: Heap, table: seq<Ref>, trail: seq<Literal>, heap': Heap, table': seq<Ref>, trail': seq<Literal>,
    c: Clause, hash: int, r: Ref)
  {
    && RecordsKept(heap, heap') && trail <= trail'
    && ((Satisfied(trail', c) && heap'.Keys == heap.Keys && table' == table)
        || (r !in heap && heap'.Keys == heap.Keys + {r} && table' == [r] + table && trail' == trail
            && RecordOf(heap'[r], c) && heap'[r].hash == hash))
  }

  /** Records may have left the table; the others are as they were. */
  ghost predicate OnlyFewer(heap: Heap, table: seq<Ref>, heap': Heap, table': seq<Ref>) {
    forall r :: r in table' ==> r in table && r in heap && r in heap' && heap'[r] == heap[r]
  }

  /** Records are in the table while they are live and in the garbage list after that. */
  ghost predicate BooksOk(heap: Heap, table: seq<Ref>, garbage: seq<Ref>, nextRef: Ref) {
    && (forall c :: c in heap ==> c < nextRef)
    && (forall c :: c in table ==> c in heap && heap[c].size != 0)
    && (forall c :: c in garbage ==> c in heap && heap[c].size == 0)
    && (forall i, j :: 0 <= i < j < |table| ==> table[i] != table[j])
    && (forall c :: c in heap ==> c in table || c in garbage)
  }

  lemma BooksAfterInsert(heap: Heap, table: seq<Ref>, garbage: seq<Ref>, nextRef: Ref, r: Record)
    requires BooksOk(heap, table, garbage, nextRef) && r.size != 0
    ensures BooksOk(heap[nextRef := r], [nextRef] + table, garbage, nextRef + 1) && nextRef !in heap
  {
  }

  lemma BooksAfterDiscard(heap: Heap, table: seq<Ref>, garbage: seq<Ref>, nextRef: Ref, pos: nat)
    requires BooksOk(heap, table, garbage, nextRef) && pos < |table|
    ensures table[pos] in heap
    ensures BooksOk(
              heap[table[pos] := Marked(heap[table[pos]])],
              table[..pos] + table[pos + 1..], [table[pos]] + garbage, nextRef)
  {
    var c, rest := table[pos], table[..pos] + table[pos + 1..];
    assert c in table;
    assert forall k :: 0 <= k < |rest| ==> rest[k] == table[if k < pos then k else k + 1];
    assert forall d :: d in table <==> d in rest || d == c;
  }

  lemma BooksAfterCollection(heap: Heap, table: seq<Ref>, garbage: seq<Ref>, nextRef: Ref, left: Heap)
    requires BooksOk(heap, table, garbage, nextRef)
    requires forall c :: c in left <==> c in heap && heap[c].size != 0
    requires forall c :: c in left ==> left[c] == heap[c]
    ensures BooksOk(left, table, [], nextRef)
  {
  }

  lemma FewerThanItself(heap: Heap, table: seq<Ref>, garbage: seq<Ref>, nextRef: Ref)
    requires BooksOk(heap, table, garbage, nextRef)
    ensures OnlyFewer(heap, table, heap, table)
  {
  }

  lemma FewerTwice(
    heap: Heap, table: seq<Ref>, heap': Heap, table': seq<Ref>, heap'': Heap, table'': seq<Ref>)
    requires OnlyFewer(heap, table, heap', table') && OnlyFewer(heap', table', heap'', table'')
    ensures OnlyFewer(heap, table, heap'', table'')
    ensures forall r :: r !in table' ==> r !in table''
  {
  }

  lemma WithoutPosition(table: seq<Ref>, pos: nat)
    requires pos < |table| && forall i, j :: 0 <= i < j < |table| ==> table[i] != table[j]
    ensures forall r :: r in table[..pos] + table[pos + 1..] <==> r in table && r != table[pos]
  {
    var rest := table[..pos] + table[pos + 1..];
    forall r
      ensures r in rest <==> r in table && r != table[pos]
    {
      if r in rest {
        var k :| 0 <= k < |rest| && rest[k] == r;
        assert r == table[if k < pos then k else k + 1];
      }
      if r in table && r != table[pos] {
        var k :| 0 <= k < |table| && table[k] == r;
        assert r == rest[if k < pos then k else k - 1];
      }
    }
  }

  lemma FewerAfterDiscard(heap: Heap, table: seq<Ref>, garbage: seq<Ref>, nextRef: Ref, pos: nat)
    requires BooksOk(heap, table, garbage, nextRef) && pos < |table| && table[pos] in heap
    ensures var rest := table[..pos] + table[pos + 1..];
            && OnlyFewer(heap, table, heap[table[pos] := Marked(heap[table[pos]])], rest)
            && forall r :: r in rest <==> r in table && r != table[pos]
  {
    WithoutPosition(table, pos);
  }

  lemma FewerAfterCollection(
    heap: Heap, table: seq<Ref>, heap': Heap, table': seq<Ref>, garbage: seq<Ref>, nextRef: Ref, left: Heap)
    requires OnlyFewer(heap, table, heap', table') && BooksOk(heap', table', garbage, nextRef)
    requires forall c :: c in left <==> c in heap' && heap'[c].size != 0
    requires forall c :: c in left ==> left[c] == heap'[c]
    ensures OnlyFewer(heap, table, left, table')
  {
  }

  /** Distinct literals of the same number, the ones among the others, are the same. */
  lemma SameNumberSameLiterals(ls: seq<Literal>, c: Clause)
    requires DistinctLits(ls) && DistinctLits(c)
    ensures (forall l :: l in ls <==> l in c) ==> |ls| == |c|
    ensures (forall l :: l in ls ==> l in c) && |ls| == |c| ==> forall l :: l in ls <==> l in c
  {
    DistinctAreAsMany(ls);
    DistinctAreAsMany(c);
    if forall l :: l in ls <==> l in c {
      assert LitSet(ls) == LitSet(c);
    }
    if (forall l :: l in ls ==> l in c) && |ls| == |c| {
      SubsetIsSmaller(LitSet(ls), LitSet(c));
      assert LitSet(ls) == LitSet(c);
      assert forall l :: l in ls <==> l in LitSet(ls);
    }
  }

  lemma MatchIsRecord(f: Cnf, heap: Heap, sizeVars: int, r: Ref, c: Clause, simplified: seq<Literal>)
    requires HeapOk(f, heap, sizeVars) && r in heap && heap[r].size == |simplified| && heap[r].size != 0
    requires DistinctLits(simplified) && forall l :: l in simplified <==> l in c
    requires forall l :: l in heap[r].literals ==> l in simplified
    ensures RecordOf(heap[r], c)
  {
    assert RecordOk(f, heap[r], sizeVars);
    SameNumberSameLiterals(heap[r].literals, simplified);
  }

  lemma NothingMatches(
    f: Cnf, heap: Heap, table: seq<Ref>, sizeVars: int, c: Clause, simplified: seq<Literal>, hash: int)
    requires HeapOk(f, heap, sizeVars) && DistinctLits(simplified) && forall l :: l in simplified <==> l in c
    requires forall i :: 0 <= i < |table| ==> !Matches(heap, table[i], simplified, hash)
    ensures !Stored(heap, table, c, hash)
  {
    forall r | r in table && r in heap && RecordOf(heap[r], c)
      ensures heap[r].hash != hash
    {
      assert RecordOk(f, heap[r], sizeVars);
      SameNumberSameLiterals(heap[r].literals, simplified);
      var i :| 0 <= i < |table| && table[i] == r;
      assert !Matches(heap, table[i], simplified, hash);
    }
  }

  lemma FoundSatisfied(trail: seq<Literal>, c: Clause)
    requires exists l :: l in c && (Not(l) in c || l in trail)
    ensures Satisfied(trail, c)
  {
  }

  lemma TableEntry(heap: Heap, table: seq<Ref>, garbage: seq<Ref>, nextRef: Ref, pos: nat)
    requires BooksOk(heap, table, garbage, nextRef) && pos < |table|
    ensures table[pos] in heap && heap[table[pos]].size != 0
  {
    assert table[pos] in table;
  }

  /** Exactly the records with a literal on the trail have left the table. */
  ghost predicate SatisfiedLeft(heap: Heap, table: seq<Ref>, trail: seq<Literal>, table': seq<Ref>) {
    forall r :: r in table && r in heap ==> (r in table' <==> !SomeTrue(heap[r].literals, trail))
  }

  /** Record `gone` has left the table, and of the others only records with a literal on the trail. */
  ghost predicate Left(heap: Heap, table: seq<Ref>, trail: seq<Literal>, table': seq<Ref>, gone: Ref) {
    && gone in table && gone !in table'
    && forall r :: r in table && r in heap && r != gone ==> r in table' || SomeTrue(heap[r].literals, trail)
  }

  /** The same for the first positions of the table that is left. */
  ghost predicate SatisfiedLeftUpTo(heap: Heap, table: seq<Ref>, trail: seq<Literal>, table': seq<Ref>, pos: nat)
    requires pos <= |table'|
  {
    && (forall r :: r in table && r in heap && r !in table' ==> SomeTrue(heap[r].literals, trail))
    && (forall k :: 0 <= k < pos && table'[k] in heap ==> !SomeTrue(heap[table'[k]].literals, trail))
  }

  lemma AllVisited(heap: Heap, table: seq<Ref>, trail: seq<Literal>, table': seq<Ref>)
    requires SatisfiedLeftUpTo(heap, table, trail, table', |table'|)
    ensures SatisfiedLeft(heap, table, trail, table')
  {
    forall r | r in table && r in heap && r in table'
      ensures !SomeTrue(heap[r].literals, trail)
    {
      var k :| 0 <= k < |table'| && table'[k] == r;
    }
  }

  lemma HasTrueLiteral(vals: map<Literal, int>, trail: seq<Literal>, ls: seq<Literal>)
    requires forall l :: l in ls ==> l in vals && (vals[l] > 0 <==> l in trail)
    ensures SomeTrue(ls, trail) <==> exists l :: l in ls && vals[l] > 0
  {
  }

  lemma LeftAfterDiscard(heap: Heap, table: seq<Ref>, trail: seq<Literal>, table': seq<Ref>, gone: Ref)
    requires gone in table && forall r :: r in table' <==> r in table && r != gone
    ensures Left(heap, table, trail, table', gone)
  {
  }

  lemma LeftAfterCollection(
    heap: Heap, table: seq<Ref>, trail: seq<Literal>, heap': Heap, table': seq<Ref>, heap'': Heap, table'': seq<Ref>,
    gone: Ref)
    requires Left(heap, table, trail, table', gone) && OnlyFewer(heap, table, heap', table')
    requires SatisfiedLeft(heap', table', trail, table'') && OnlyFewer(heap', table', heap'', table'')
    ensures Left(heap, table, trail, table'', gone)
  {
  }

  /** A satisfied clause is not looked for; otherwise one record with its literals and hash goes. */
  ghost predicate DeletedFrom(
    heap: Heap, table: seq<Ref>, trail: seq<Literal>, heap': Heap, table': seq<Ref>, c: Clause, hash: int)
  {
    && OnlyFewer(heap, table, heap', table')
    && if Satisfied(trail, c) then heap' == heap && table' == table
       else
         exists gone ::
           gone in heap && RecordOf(heap[gone], c) && heap[gone].hash == hash && Left(heap, table, trail, table', gone)
  }

  lemma SatisfiedIsAdded(
    heap: Heap, table: seq<Ref>, trail: seq<Literal>, c: Clause, hash: int, r: Ref)
    requires Satisfied(trail, c)
    ensures Added(heap, table, trail, heap, table, trail, c, hash, r)
  {
  }

  lemma UnitIsAdded(
    heap: Heap, table: seq<Ref>, trail: seq<Literal>, heap': Heap, trail': seq<Literal>, c: Clause, unit: Literal,
    hash: int, r: Ref)
    requires OnlyPermuted(heap, heap') && trail <= trail' && unit in c && unit in trail'
    ensures Added(heap, table, trail, heap', table, trail', c, hash, r)
  {
  }

  lemma RecordIsAdded(
    heap: Heap, table: seq<Ref>, trail: seq<Literal>, r: Ref, record: Record, c: Clause)
    requires r !in heap && record.size != 0 && SameLits(c, record.literals)
    ensures Added(heap, table, trail, heap[r := record], [r] + table, trail, c, record.hash, r)
  {
  }

  /** Which order the literals of the clause are in, and of the records before, makes no difference. */
  lemma AddedLikewise(
    heap: Heap, heap': Heap, table: seq<Ref>, trail: seq<Literal>, heap'': Heap, table': seq<Ref>,
    trail': seq<Literal>, c: Clause, d: Clause, hash: int, r: Ref)
    requires OnlyPermuted(heap, heap') && Added(heap', table, trail, heap'', table', trail', c, hash, r)
    requires forall l :: l in c <==> l in d
    ensures Added(heap, table, trail, heap'', table', trail', d, hash, r)
  {
    if Satisfied(trail', c) {
      var l :| l in c && (Not(l) in c || l in trail');
      assert l in d;
    }
  }

  // ------------------------------------------------------------------
  // What a proof leaves active
  // ------------------------------------------------------------------

  datatype ProofStep =
    | Original(id: nat, clause: Clause)
    | Derived(id: nat, clause: Clause)
    | Deleted(id: nat, clause: Clause)

  /** Clauses are told apart by their hash, which depends on their identifier only, and their literals. */
  datatype Key = Key(hash: int, literals: set<Literal>)

  function HashOf(nonces: seq<nat>, id: nat): int
    requires |nonces| == 4
  {
    nonces[id % 4] * id % 0x1_0000_0000_0000_0000
  }

  function KeyOf(nonces: seq<nat>, id: nat, c: Clause): Key
    requires |nonces| == 4
  {
    Key(HashOf(nonces, id), LitSet(c))
  }

  /** The clauses added and not deleted: an addition counts one more, a deletion one less. */
  ghost function ActiveKeys(nonces: seq<nat>, proof: seq<ProofStep>): multiset<Key>
    requires |nonces| == 4
  {
    if proof == [] then multiset{}
    else
      var before := ActiveKeys(nonces, proof[..|proof| - 1]);
      var last := proof[|proof| - 1];
      var k := KeyOf(nonces, last.id, last.clause);
      if last.Deleted? then before - multiset{k} else before + multiset{k}
  }

  /** The active clauses as they have been written down. */
  ghost function ActiveClauses(nonces: seq<nat>, proof: seq<ProofStep>): set<Clause>
    requires |nonces| == 4
  {
    set i | 0 <= i < |proof| && !proof[i].Deleted?
            && KeyOf(nonces, proof[i].id, proof[i].clause) in ActiveKeys(nonces, proof) :: proof[i].clause
  }

  /** The records in the table with this key. */
  ghost function Holders(heap: Heap, table: seq<Ref>, k: Key): set<Ref> {
    set r | r in table && r in heap && heap[r].hash == k.hash && LitSet(heap[r].literals) == k.literals
  }

  ghost predicate KeyTrue(trail: seq<Literal>, k: Key) {
    exists l :: l in k.literals && (Not(l) in k.literals || l in trail)
  }

  /** Every active clause is satisfied or has a record of its own. */
  ghost predicate Kept(active: multiset<Key>, heap: Heap, table: seq<Ref>, trail: seq<Literal>) {
    forall k :: active[k] <= |Holders(heap, table, k)| || KeyTrue(trail, k)
  }

  lemma SatisfiedIsKeyTrue(trail: seq<Literal>, c: Clause, k: Key)
    requires k.literals == LitSet(c)
    ensures Satisfied(trail, c) <==> KeyTrue(trail, k)
  {
  }

  lemma KeyStaysTrue(trail: seq<Literal>, trail': seq<Literal>, k: Key)
    requires trail <= trail' && KeyTrue(trail, k)
    ensures KeyTrue(trail', k)
  {
    var l :| l in k.literals && (Not(l) in k.literals || l in trail);
    assert forall m :: m in trail ==> m in trail';
  }

  /** Reordering literals keeps the records of every key. */
  lemma HoldersKept(heap: Heap, heap': Heap, table: seq<Ref>, k: Key)
    requires RecordsKept(heap, heap') && forall r :: r in table ==> r in heap
    ensures Holders(heap', table, k) == Holders(heap, table, k)
  {
    forall r | r in table
      ensures LitSet(heap'[r].literals) == LitSet(heap[r].literals)
    {
    }
  }

  /** An addition stores one more record of its key, unless that is satisfied. */
  lemma AdditionCounts(
    heap: Heap, table: seq<Ref>, trail: seq<Literal>, garbage: seq<Ref>, nextRef: Ref,
    heap': Heap, table': seq<Ref>, trail': seq<Literal>, c: Clause, hash: int, k: Key)
    requires BooksOk(heap, table, garbage, nextRef) && !KeyTrue(trail', k)
    requires Added(heap, table, trail, heap', table', trail', c, hash, nextRef)
    ensures |Holders(heap', table', k)| ==
              |Holders(heap, table, k)| + if k == Key(hash, LitSet(c)) then 1 else 0
  {
    HoldersKept(heap, heap', table, k);
    if table' == table {
      SatisfiedIsKeyTrue(trail', c, Key(hash, LitSet(c)));
    } else {
      HoldersGrow(heap', table, nextRef, c, hash, k);
    }
  }

  lemma HoldersGrow(heap: Heap, table: seq<Ref>, r: Ref, c: Clause, hash: int, k: Key)
    requires r !in table && r in heap && RecordOf(heap[r], c) && heap[r].hash == hash
    ensures |Holders(heap, [r] + table, k)| ==
              |Holders(heap, table, k)| + if k == Key(hash, LitSet(c)) then 1 else 0
  {
    assert LitSet(heap[r].literals) == LitSet(c);
    if k == Key(hash, LitSet(c)) {
      assert Holders(heap, [r] + table, k) == Holders(heap, table, k) + {r};
    } else {
      assert Holders(heap, [r] + table, k) == Holders(heap, table, k);
    }
  }

  /** A deletion takes one record of its key, unless that is satisfied, and of no other. */
  lemma DeletionCounts(
    heap: Heap, table: seq<Ref>, trail: seq<Literal>, heap': Heap, table': seq<Ref>, c: Clause, hash: int, k: Key)
    requires DeletedFrom(heap, table, trail, heap', table', c, hash) && !KeyTrue(trail, k)
    ensures |Holders(heap', table', k)| ==
              |Holders(heap, table, k)| - if k == Key(hash, LitSet(c)) then 1 else 0
  {
    SatisfiedIsKeyTrue(trail, c, Key(hash, LitSet(c)));
    if !Satisfied(trail, c) {
      var gone :| gone in heap && RecordOf(heap[gone], c) && heap[gone].hash == hash
                  && Left(heap, table, trail, table', gone);
      assert LitSet(heap[gone].literals) == LitSet(c);
      HoldersShrink(heap, table, trail, heap', table', gone, k);
    }
  }

  lemma HoldersShrink(
    heap: Heap, table: seq<Ref>, trail: seq<Literal>, heap': Heap, table': seq<Ref>, gone: Ref, k: Key)
    requires OnlyFewer(heap, table, heap', table') && Left(heap, table, trail, table', gone)
    requires gone in heap && !KeyTrue(trail, k)
    ensures Holders(heap', table', k) == Holders(heap, table, k) - {gone}
    ensures |Holders(heap', table', k)| ==
              |Holders(heap, table, k)| - if gone in Holders(heap, table, k) then 1 else 0
  {
    forall r | r in Holders(heap, table, k) && r != gone
      ensures r in Holders(heap', table', k)
    {
      assert k.literals == LitSet(heap[r].literals);
      forall l | l in heap[r].literals
        ensures l !in trail
      {
        assert l in k.literals;
      }
    }
    assert Holders(heap', table', k) == Holders(heap, table, k) - {gone};
  }

  /** A key that is neither satisfied nor stored is not active. */
  lemma NotStoredNotActive(
    active: multiset<Key>, heap: Heap, table: seq<Ref>, trail: seq<Literal>, garbage: seq<Ref>, nextRef: Ref,
    c: Clause, hash: int)
    requires BooksOk(heap, table, garbage, nextRef) && Kept(active, heap, table, trail)
    requires !Satisfied(trail, c) && !Stored(heap, table, c, hash)
    ensures Key(hash, LitSet(c)) !in active
  {
    var k := Key(hash, LitSet(c));
    SatisfiedIsKeyTrue(trail, c, k);
    forall r | r in Holders(heap, table, k)
      ensures false
    {
      assert forall l :: l in heap[r].literals <==> l in LitSet(heap[r].literals);
      assert RecordOf(heap[r], c);
    }
    assert Holders(heap, table, k) == {};
    assert active[k] <= 0;
  }

  // ------------------------------------------------------------------
  // Unit propagation over the active clauses
  // ------------------------------------------------------------------

  /** Some consistent trail holds the assumptions and leaves nothing to propagate. */
  ghost predicate Stuck(db: set<Clause>, assumed: seq<Literal>) {
    exists t: seq<Literal> :: Closed(db, t) && Consistent(t) && forall l :: l in assumed ==> l in t
  }

  lemma StuckHasNoConflict(db: set<Clause>, assumed: seq<Literal>)
    requires Stuck(db, assumed)
    ensures !PropagationConflicts(db, assumed)
  {
    var t: seq<Literal> :| Closed(db, t) && Consistent(t) && forall l :: l in assumed ==> l in t;
    ClosedHasNoConflict(db, assumed, t);
  }

  /** Where the stored clauses and the units get stuck, the active clauses get stuck as well. */
  lemma ActiveGetStuck(
    active: multiset<Key>, db: set<Clause>, heap: Heap, table: seq<Ref>, trail: seq<Literal>,
    garbage: seq<Ref>, nextRef: Ref, assumed: seq<Literal>)
    requires BooksOk(heap, table, garbage, nextRef) && Kept(active, heap, table, trail)
    requires forall c :: c in db ==> exists k :: k in active && k.literals == LitSet(c)
    requires Stuck(LiveClauses(heap) + Units(trail), assumed)
    ensures Stuck(db, assumed)
  {
    var known := LiveClauses(heap) + Units(trail);
    var t: seq<Literal> :| Closed(known, t) && Consistent(t) && forall l :: l in assumed ==> l in t;
    forall c | c in db
      ensures SomeTrue(c, t) || TwoOpen(c, t)
    {
      var k :| k in active && k.literals == LitSet(c);
      if KeyTrue(trail, k) {
        SatisfiedIsKeyTrue(trail, c, k);
        SatisfiedIsClosed(trail, known, t, c);
      } else {
        var r := HolderOf(heap, table, k);
        assert r in heap && heap[r].literals in LiveClauses(heap);
        assert forall l :: l in heap[r].literals <==> l in LitSet(heap[r].literals);
        SameLiteralsClosed(heap[r].literals, c, t);
      }
    }
    assert Closed(db, t);
  }

  lemma HolderOf(heap: Heap, table: seq<Ref>, k: Key) returns (r: Ref)
    requires |Holders(heap, table, k)| > 0
    ensures r in Holders(heap, table, k)
  {
    r :| r in Holders(heap, table, k);
  }

  lemma SatisfiedIsClosed(trail: seq<Literal>, known: set<Clause>, t: seq<Literal>, c: Clause)
    requires Satisfied(trail, c) && Units(trail) <= known && Closed(known, t)
    ensures SomeTrue(c, t) || TwoOpen(c, t)
  {
    var l :| l in c && (Not(l) in c || l in trail);
    if l in trail {
      assert [l] in Units(trail);
      assert SomeTrue([l], t) || TwoOpen([l], t);
      assert l in t;
    } else if l !in t && Not(l) !in t {
      assert l != Not(l) && Not(Not(l)) !in t;
    }
  }

  lemma SameLiteralsClosed(c: Clause, d: Clause, t: seq<Literal>)
    requires SomeTrue(c, t) || TwoOpen(c, t)
    requires forall l :: l in c <==> l in d
    ensures SomeTrue(d, t) || TwoOpen(d, t)
  {
    if SomeTrue(c, t) {
      var l :| l in c && l in t;
      assert l in d;
    } else {
      var l, m :| l in c && m in c && l != m && Not(l) !in t && Not(m) !in t;
      assert l in d && m in d;
    }
  }

  lemma ActiveHaveKeys(nonces: seq<nat>, proof: seq<ProofStep>)
    requires |nonces| == 4
    ensures forall c :: c in ActiveClauses(nonces, proof) ==>
              exists k :: k in ActiveKeys(nonces, proof) && k.literals == LitSet(c)
  {
    forall c | c in ActiveClauses(nonces, proof)
      ensures exists k :: k in ActiveKeys(nonces, proof) && k.literals == LitSet(c)
    {
      var i :| 0 <= i < |proof| && !proof[i].Deleted? && proof[i].clause == c
               && KeyOf(nonces, proof[i].id, proof[i].clause) in ActiveKeys(nonces, proof);
      assert KeyOf(nonces, proof[i].id, c).literals == LitSet(c);
    }
  }

  /** An empty clause that has just been added is an immediate conflict. */
  lemma EmptyClauseConflicts(nonces: seq<nat>, proof: seq<ProofStep>, i: nat, assumed: seq<Literal>)
    requires |nonces| == 4 && i < |proof| && !proof[i].Deleted? && proof[i].clause == []
    ensures PropagationConflicts(ActiveClauses(nonces, proof[..i + 1]), assumed)
  {
    var read := proof[..i + 1];
    assert read[i] == proof[i] && read[|read| - 1] == proof[i];
    assert KeyOf(nonces, read[i].id, read[i].clause) in ActiveKeys(nonces, read);
    assert [] in ActiveClauses(nonces, read);
    assert Derivation(ActiveClauses(nonces, read), assumed, []);
  }

  /** Why a step is refused after the steps that have been read. */
  ghost predicate Refusable(nonces: seq<nat>, read: seq<ProofStep>, step: ProofStep)
    requires |nonces| == 4
  {
    match step
    case Original(_, _) => false
    case Derived(_, c) => !PropagationConflicts(ActiveClauses(nonces, read), NotAll(c))
    case Deleted(id, c) => KeyOf(nonces, id, c) !in ActiveKeys(nonces, read)
  }

  /** Unit propagation has not run into a conflict after any of the first n steps. */
  ghost predicate ConflictFree(nonces: seq<nat>, proof: seq<ProofStep>, n: nat)
    requires |nonces| == 4 && n <= |proof|
  {
    forall j :: 0 <= j <= n ==> !PropagationConflicts(ActiveClauses(nonces, proof[..j]), [])
  }

  lemma KeptAtStart(nonces: seq<nat>)
    requires |nonces| == 4
    ensures Kept(ActiveKeys(nonces, []), map[], [], [])
  {
  }

  lemma KeptAfterStep(
    nonces: seq<nat>, read: seq<ProofStep>, step: ProofStep, heap: Heap, table: seq<Ref>, trail: seq<Literal>,
    garbage: seq<Ref>, nextRef: Ref, heap': Heap, table': seq<Ref>, trail': seq<Literal>)
    requires |nonces| == 4 && BooksOk(heap, table, garbage, nextRef)
    requires Kept(ActiveKeys(nonces, read), heap, table, trail)
    requires var hash := HashOf(nonces, step.id);
             if step.Deleted? then trail' == trail && DeletedFrom(heap, table, trail, heap', table', step.clause, hash)
             else Added(heap, table, trail, heap', table', trail', step.clause, hash, nextRef)
    ensures Kept(ActiveKeys(nonces, read + [step]), heap', table', trail')
  {
    hide DeletedFrom, BooksOk, Holders, KeyTrue, HashOf;
    assert (read + [step])[..|read|] == read;
    forall k | !KeyTrue(trail', k)
      ensures ActiveKeys(nonces, read + [step])[k] <= |Holders(heap', table', k)|
    {
      if step.Deleted? {
        DeletionCounts(heap, table, trail, heap', table', step.clause, HashOf(nonces, step.id), k);
      } else {
        if KeyTrue(trail, k) {
          KeyStaysTrue(trail, trail', k);
        }
        AdditionCounts(
          heap, table, trail, garbage, nextRef, heap', table', trail', step.clause, HashOf(nonces, step.id), k);
      }
    }
  }

  /** A derivation that fails on the stored clauses fails on the active ones. */
  lemma DerivationIsRefusable(
    nonces: seq<nat>, read: seq<ProofStep>, id: nat, c: Clause, heap: Heap, table: seq<Ref>, trail: seq<Literal>,
    garbage: seq<Ref>, nextRef: Ref, heap': Heap)
    requires |nonces| == 4 && BooksOk(heap, table, garbage, nextRef)
    requires Kept(ActiveKeys(nonces, read), heap, table, trail) && OnlyPermuted(heap, heap')
    requires Stuck(LiveClauses(heap') + Units(trail), NotAll(c))
    ensures Refusable(nonces, read, Derived(id, c))
  {
    var active := ActiveKeys(nonces, read);
    assert BooksOk(heap', table, garbage, nextRef);
    forall k
      ensures active[k] <= |Holders(heap', table, k)| || KeyTrue(trail, k)
    {
      HoldersKept(heap, heap', table, k);
    }
    ActiveHaveKeys(nonces, read);
    ActiveGetStuck(active, ActiveClauses(nonces, read), heap', table, trail, garbage, nextRef, NotAll(c));
    StuckHasNoConflict(ActiveClauses(nonces, read), NotAll(c));
  }

  /** A deletion that finds nothing is one of a clause that is not active. */
  lemma DeletionIsRefusable(
    nonces: seq<nat>, read: seq<ProofStep>, id: nat, c: Clause, heap: Heap, table: seq<Ref>, trail: seq<Literal>,
    garbage: seq<Ref>, nextRef: Ref)
    requires |nonces| == 4 && BooksOk(heap, table, garbage, nextRef)
    requires Kept(ActiveKeys(nonces, read), heap, table, trail)
    requires !Satisfied(trail, c) && !Stored(heap, table, c, HashOf(nonces, id))
    ensures Refusable(nonces, read, Deleted(id, c))
  {
    NotStoredNotActive(
      ActiveKeys(nonces, read), heap, table, trail, garbage, nextRef, c, HashOf(nonces, id));
  }

  /** As long as everything is propagated the active clauses have no conflict. */
  lemma NothingToPropagate(
    nonces: seq<nat>, read: seq<ProofStep>, f: Cnf, heap: Heap, table: seq<Ref>, trail: seq<Literal>,
    garbage: seq<Ref>, nextRef: Ref, vals: map<Literal, int>, sizeVars: int)
    requires |nonces| == 4 && BooksOk(heap, table, garbage, nextRef) && HeapOk(f, heap, sizeVars)
    requires Guarded(heap, trail, trail) && ValsMatch(vals, trail, sizeVars)
    requires Kept(ActiveKeys(nonces, read), heap, table, trail)
    ensures !PropagationConflicts(ActiveClauses(nonces, read), [])
  {
    GuardedIsClosed(f, heap, trail, trail, sizeVars);
    assert Consistent(trail);
    assert Stuck(LiveClauses(heap) + Units(trail), []);
    ActiveHaveKeys(nonces, read);
    ActiveGetStuck(
      ActiveKeys(nonces, read), ActiveClauses(nonces, read), heap, table, trail, garbage, nextRef, []);
    StuckHasNoConflict(ActiveClauses(nonces, read), []);
  }

  /** Adding a clause and deleting it again leaves as many records of every key that is not satisfied. */
  lemma AssumptionLeavesRecords(
    heap: Heap, table: seq<Ref>, trail: seq<Literal>, garbage: seq<Ref>, nextRef: Ref, heap': Heap, table': seq<Ref>,
    trail': seq<Literal>, heap'': Heap, table'': seq<Ref>, c: Clause, hash: int, k: Key)
    requires BooksOk(heap, table, garbage, nextRef)
    requires Added(heap, table, trail, heap', table', trail', c, hash, nextRef)
    requires DeletedFrom(heap', table', trail', heap'', table'', c, hash) && !KeyTrue(trail', k)
    ensures |Holders(heap'', table'', k)| == |Holders(heap, table, k)|
  {
    AdditionCounts(heap, table, trail, garbage, nextRef, heap', table', trail', c, hash, k);
    DeletionCounts(heap', table', trail', heap'', table'', c, hash, k);
  }

  lemma ConflictFreeAtStart(nonces: seq<nat>, proof: seq<ProofStep>)
    requires |nonces| == 4
    ensures ConflictFree(nonces, proof, 0)
  {
    assert ActiveClauses(nonces, proof[..0]) == {};
  }

  lemma ConflictFreeLonger(nonces: seq<nat>, proof: seq<ProofStep>, n: nat)
    requires |nonces| == 4 && n < |proof| && ConflictFree(nonces, proof, n)
    requires !PropagationConflicts(ActiveClauses(nonces, proof[..n] + [proof[n]]), [])
    ensures ConflictFree(nonces, proof, n + 1)
  {
    assert proof[..n + 1] == proof[..n] + [proof[n]];
  }

  lemma NoEmptyClause(nonces: seq<nat>, proof: seq<ProofStep>)
    requires |nonces| == 4 && ConflictFree(nonces, proof, |proof|)
    ensures forall i :: 0 <= i < |proof| && !proof[i].Deleted? ==> proof[i].clause != []
  {
    forall i | 0 <= i < |proof| && !proof[i].Deleted?
      ensures proof[i].clause != []
    {
      if proof[i].clause == [] {
        EmptyClauseConflicts(nonces, proof, i, []);
      }
    }
  }

  /** What has been taken over is satisfied or stored. */
  lemma AddedIsStored(
    heap: Heap, table: seq<Ref>, trail: seq<Literal>, heap': Heap, table': seq<Ref>, trail': seq<Literal>,
    c: Clause, hash: int, r: Ref)
    requires Added(heap, table, trail, heap', table', trail', c, hash, r)
    ensures Satisfied(trail', c) || Stored(heap', table', c, hash)
  {
    if !Satisfied(trail', c) {
      assert table'[0] == r;
    }
  }
}
