/**
 * The priority queue of proof obligations (src/engine/pdr.hpp,
 * src/engine/car.hpp), kept as a sequence with its least element first.
 */
module Queues {

  /** Obligations are ordered by level; ties are broken by one or two more numbers. */
  datatype Rank = Rank(level: nat, second: nat, third: nat)

  predicate NotAfter(a: Rank, b: Rank) {
    || a.level < b.level
    || (a.level == b.level && a.second < b.second)
    || (a.level == b.level && a.second == b.second && a.third <= b.third)
  }

  predicate Ranked<T>(q: seq<T>, rank: T -> Rank) {
    forall i, j :: 0 <= i < j < |q| ==> NotAfter(rank(q[i]), rank(q[j]))
  }

  function Insert<T(!new)>(q: seq<T>, x: T, rank: T -> Rank): (r: seq<T>)
    requires Ranked(q, rank)
    ensures Ranked(r, rank) && |r| == |q| + 1
    ensures forall y :: y in r <==> y in q || y == x
  {
    if q == [] || NotAfter(rank(x), rank(q[0])) then
      var r := [x] + q;
      r
    else
      var t := Insert(q[1..], x, rank);
      var r := [q[0]] + t;
      assert q == [q[0]] + q[1..];
      assert forall i :: 0 <= i < |t| ==> t[i] in t && (t[i] in q[1..] || t[i] == x);
      r
  }

  /** What has a lower level than the first element goes in front of it. */
  lemma LowerComesFirst<T(!new)>(q: seq<T>, first: T, x: T, rank: T -> Rank)
    requires Ranked([first] + q, rank) && rank(x).level < rank(first).level
    ensures Ranked(q, rank) && Insert(Insert(q, x, rank), first, rank)[0] == x
  {
    var all := [first] + q;
    assert forall i :: 0 <= i < |q| ==> all[i + 1] == q[i];
    var q1 := Insert(q, x, rank);
    if q != [] {
      assert NotAfter(rank(all[0]), rank(all[1]));
    }
    assert q1[0] == x;
  }
}
