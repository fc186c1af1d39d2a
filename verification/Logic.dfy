/** Literals, clauses, CNF formulas and cubes (src/logic.hpp). */
module Logic {

  /** A literal is a non-zero integer; its absolute value is the variable. */
  type Literal = l: int | l != 0 witness 1

  type Clause = seq<Literal>

  type Cnf = seq<Clause>

  /** A total assignment, given by the set of variables that are true. */
  type Assignment = set<int>

  function VarOf(l: Literal): (v: int)
    ensures v > 0
  {
    var n: int := l;
    if n < 0 then -n else n
  }

  predicate LitTrue(a: Assignment, l: Literal) {
    if l > 0 then l in a else VarOf(l) !in a
  }

  predicate ClauseTrue(a: Assignment, c: Clause) {
    exists l :: l in c && LitTrue(a, l)
  }

  predicate Models(a: Assignment, f: Cnf) {
    forall c :: c in f ==> ClauseTrue(a, c)
  }

  /** Every literal of a vector is true: the vector read as a conjunction. */
  predicate CubeTrue(a: Assignment, ls: seq<Literal>) {
    forall l :: l in ls ==> LitTrue(a, l)
  }

  predicate LitsOver(ls: seq<Literal>, vs: set<int>) {
    forall l :: l in ls ==> VarOf(l) in vs
  }

  predicate CnfOver(f: Cnf, vs: set<int>) {
    forall c :: c in f ==> LitsOver(c, vs)
  }

  /** The two assignments agree on the given variables. */
  predicate Agree(a: Assignment, b: Assignment, vs: set<int>) {
    forall v :: v in vs ==> (v in a <==> v in b)
  }

  lemma AgreeOnCube(a: Assignment, b: Assignment, vs: set<int>, ls: seq<Literal>)
    requires Agree(a, b, vs) && LitsOver(ls, vs)
    ensures CubeTrue(a, ls) <==> CubeTrue(b, ls)
    ensures ClauseTrue(a, ls) <==> ClauseTrue(b, ls)
  {
    forall l | l in ls
      ensures LitTrue(a, l) <==> LitTrue(b, l)
    {
      assert VarOf(l) in vs;
    }
  }

  lemma AgreeOnCnf(a: Assignment, b: Assignment, vs: set<int>, f: Cnf)
    requires Agree(a, b, vs) && CnfOver(f, vs)
    ensures Models(a, f) <==> Models(b, f)
  {
    forall c | c in f
      ensures ClauseTrue(a, c) <==> ClauseTrue(b, c)
    {
      AgreeOnCube(a, b, vs, c);
    }
  }

  lemma ModelsConcat(a: Assignment, f: Cnf, g: Cnf)
    ensures Models(a, f + g) <==> Models(a, f) && Models(a, g)
  {
    assert forall c :: c in f || c in g ==> c in f + g;
  }

  // ------------------------------------------------------------------
  // Negation and activation
  // ------------------------------------------------------------------

  function Not(l: Literal): (r: Literal)
    ensures VarOf(r) == VarOf(l) && (r > 0 <==> l < 0)
  {
    var n: int := l;
    -n
  }

  /** No variable occurs with both signs. */
  predicate Consistent(ls: seq<Literal>) {
    forall l :: l in ls ==> Not(l) !in ls
  }

  function NotAll(ls: seq<Literal>): (r: seq<Literal>)
    ensures |r| == |ls|
    ensures forall i :: 0 <= i < |ls| ==> r[i] == Not(ls[i])
    ensures forall l: Literal :: l in r <==> Not(l) in ls
  {
    var r: seq<Literal> := seq(|ls|, i requires 0 <= i < |ls| => Not(ls[i]));
    assert forall l: Literal :: Not(l) in ls ==> l in r by {
      forall l: Literal | Not(l) in ls
        ensures l in r
      {
        var i :| 0 <= i < |ls| && ls[i] == Not(l);
        assert r[i] == l;
      }
    }
    r
  }

  lemma NegatedCube(a: Assignment, ls: seq<Literal>)
    ensures ClauseTrue(a, NotAll(ls)) <==> !CubeTrue(a, ls)
  {
    if !CubeTrue(a, ls) {
      var l :| l in ls && !LitTrue(a, l);
      assert Not(Not(l)) in ls;
      assert Not(l) in NotAll(ls) && LitTrue(a, Not(l));
    }
  }

  /** Adds the negated activator to every clause. */
  function Activate(f: Cnf, activator: int): (r: Cnf)
    requires activator > 0
    ensures |r| == |f|
    ensures forall i :: 0 <= i < |f| ==> r[i] == f[i] + [-activator]
  {
    seq(|f|, i requires 0 <= i < |f| => f[i] + [-activator])
  }

  /** An activated formula holds exactly if the activator implies it. */
  lemma ActivatedHolds(a: Assignment, f: Cnf, activator: int)
    requires activator > 0
    ensures Models(a, Activate(f, activator)) <==> (activator in a ==> Models(a, f))
  {
    var g := Activate(f, activator);
    forall i | 0 <= i < |f|
      ensures ClauseTrue(a, g[i]) <==> (activator in a ==> ClauseTrue(a, f[i]))
    {
      assert g[i] == f[i] + [-activator];
      if activator !in a {
        assert (-activator) in g[i] && LitTrue(a, -activator);
      } else if ClauseTrue(a, f[i]) {
        var l :| l in f[i] && LitTrue(a, l);
        assert l in g[i];
      }
    }
    if activator in a ==> Models(a, f) {
      forall c | c in g
        ensures ClauseTrue(a, c)
      {
        var i :| 0 <= i < |g| && g[i] == c;
        assert f[i] in f;
      }
    }
    if Models(a, g) && activator in a {
      forall c | c in f
        ensures ClauseTrue(a, c)
      {
        var i :| 0 <= i < |f| && f[i] == c;
        assert g[i] in g;
      }
    }
  }

  // ------------------------------------------------------------------
  // Cubes: literal vectors sorted by variable, then by sign
  // ------------------------------------------------------------------

  predicate CubeLiteralLt(l1: Literal, l2: Literal) {
    VarOf(l1) < VarOf(l2) || (VarOf(l1) == VarOf(l2) && l1 < 0 < l2)
  }

  predicate Sorted(ls: seq<Literal>) {
    forall i, j :: 0 <= i < j < |ls| ==> !CubeLiteralLt(ls[j], ls[i])
  }

  predicate StrictlySorted(ls: seq<Literal>) {
    forall i, j :: 0 <= i < j < |ls| ==> CubeLiteralLt(ls[i], ls[j])
  }

  datatype RawCube = Cube(literals: seq<Literal>)

  type Cube = c: RawCube | Sorted(c.literals) witness Cube([])

  /** Inserts a literal before the first one that does not precede it. */
  function InsertSorted(l: Literal, ls: seq<Literal>): (r: seq<Literal>)
    requires Sorted(ls)
    ensures Sorted(r)
    ensures multiset(r) == multiset(ls) + multiset{l}
    decreases |ls|
  {
    if ls == [] || !CubeLiteralLt(ls[0], l) then
      var r := [l] + ls;
      r
    else
      assert ls == [ls[0]] + ls[1..];
      var t := InsertSorted(l, ls[1..]);
      var r := [ls[0]] + t;
      assert forall k :: 0 <= k < |t| ==> !CubeLiteralLt(t[k], ls[0]) by {
        forall k | 0 <= k < |t|
          ensures !CubeLiteralLt(t[k], ls[0])
        {
          assert t[k] in multiset(t);
          assert t[k] == l || t[k] in ls[1..];
        }
      }
      r
  }

  function SortLiterals(ls: seq<Literal>): (r: seq<Literal>)
    ensures Sorted(r)
    ensures multiset(r) == multiset(ls)
    decreases |ls|
  {
    if ls == [] then []
    else
      assert ls == [ls[0]] + ls[1..];
      InsertSorted(ls[0], SortLiterals(ls[1..]))
  }

  /** The cube constructor: sorts the literals it is given. */
  function MakeCube(ls: seq<Literal>): (c: Cube)
    ensures multiset(c.literals) == multiset(ls)
    ensures forall l :: l in c.literals <==> l in ls
  {
    var r := SortLiterals(ls);
    assert forall l :: l in r <==> l in multiset(r);
    assert forall l :: l in ls <==> l in multiset(ls);
    Cube(r)
  }

  /** One forward scan over two sorted vectors, as std::includes does it. */
  predicate Includes(that: seq<Literal>, ls: seq<Literal>)
    decreases |that|
  {
    if ls == [] then true
    else if that == [] then false
    else if CubeLiteralLt(ls[0], that[0]) then false
    else if CubeLiteralLt(that[0], ls[0]) then Includes(that[1..], ls)
    else Includes(that[1..], ls[1..])
  }

  predicate Subsumes(c: Cube, d: Cube) {
    Includes(d.literals, c.literals)
  }

  lemma {:induction false} IncludesIsSubset(that: seq<Literal>, ls: seq<Literal>)
    requires Includes(that, ls)
    ensures forall l :: l in ls ==> l in that
    decreases |that|
  {
    if ls != [] {
      if CubeLiteralLt(that[0], ls[0]) {
        IncludesIsSubset(that[1..], ls);
      } else {
        IncludesIsSubset(that[1..], ls[1..]);
        assert ls[0] == that[0];
        assert ls == [ls[0]] + ls[1..];
      }
    }
  }

  lemma {:induction false} SubsetIsIncluded(that: seq<Literal>, ls: seq<Literal>)
    requires Sorted(that) && StrictlySorted(ls)
    requires forall l :: l in ls ==> l in that
    ensures Includes(that, ls)
    decreases |that|
  {
    if ls != [] {
      assert ls[0] in that;
      var k :| 0 <= k < |that| && that[k] == ls[0];
      assert !CubeLiteralLt(ls[0], that[0]);
      if CubeLiteralLt(that[0], ls[0]) {
        forall l | l in ls
          ensures l in that[1..]
        {
          var i :| 0 <= i < |ls| && ls[i] == l;
          assert i > 0 ==> CubeLiteralLt(ls[0], ls[i]);
          assert l != that[0];
          assert that == [that[0]] + that[1..];
        }
        SubsetIsIncluded(that[1..], ls);
      } else {
        assert that[0] == ls[0];
        forall l | l in ls[1..]
          ensures l in that[1..]
        {
          var i :| 0 <= i < |ls[1..]| && ls[1..][i] == l;
          assert CubeLiteralLt(ls[0], ls[i + 1]);
          assert l in ls && l != that[0];
          assert that == [that[0]] + that[1..];
        }
        SubsetIsIncluded(that[1..], ls[1..]);
      }
    }
  }

  /**
   * What subsumption means: the literals form a subset, so that the subsumed
   * cube entails the subsuming one. For cubes without repeated literals the
   * scan decides exactly this.
   */
  lemma SubsumesMeaning(c: Cube, d: Cube)
    ensures Subsumes(c, d) ==> forall l :: l in c.literals ==> l in d.literals
    ensures Subsumes(c, d) ==> forall a :: CubeTrue(a, d.literals) ==> CubeTrue(a, c.literals)
    ensures StrictlySorted(c.literals) ==>
              (Subsumes(c, d) <==> forall l :: l in c.literals ==> l in d.literals)
  {
    if Subsumes(c, d) {
      IncludesIsSubset(d.literals, c.literals);
    }
    if StrictlySorted(c.literals) && forall l :: l in c.literals ==> l in d.literals {
      SubsetIsIncluded(d.literals, c.literals);
    }
  }

  lemma {:induction false} IncludesSelf(ls: seq<Literal>)
    ensures Includes(ls, ls)
    decreases |ls|
  {
    if ls != [] {
      IncludesSelf(ls[1..]);
    }
  }

  /** The clause list of the negated cube. */
  function NegateCube(c: Cube): (f: Cnf)
    ensures forall a :: Models(a, f) <==> !CubeTrue(a, c.literals)
  {
    var f := [NotAll(c.literals)];
    assert forall a :: Models(a, f) <==> !CubeTrue(a, c.literals) by {
      forall a: Assignment
        ensures Models(a, f) <==> !CubeTrue(a, c.literals)
      {
        NegatedCube(a, c.literals);
        assert f[0] in f;
      }
    }
    f
  }

  lemma SubsetIsSmaller<T>(a: set<T>, b: set<T>)
    requires a <= b
    ensures |a| <= |b|
    ensures a != b ==> |a| < |b|
  {
    assert b == a + (b - a);
    if a != b {
      assert b - a != {};
    }
  }

  /** The literals of a vector as a set. */
  function LitSet(ls: seq<Literal>): (r: set<Literal>)
    ensures forall l :: l in r <==> l in ls
  {
    set l | l in ls
  }

  /** Erases every occurrence of a literal from a vector. */
  function Remove(ls: seq<Literal>, l: Literal): (r: seq<Literal>)
    ensures forall x :: x in r <==> x in ls && x != l
    ensures |r| <= |ls|
  {
    if ls == [] then []
    else if ls[0] == l then Remove(ls[1..], l)
    else [ls[0]] + Remove(ls[1..], l)
  }

  /** A literal over the given variable with the sign of the given literal. */
  function Substitute(l: Literal, v: int): (r: Literal)
    requires v > 0
    ensures VarOf(r) == v && (r > 0 <==> l > 0)
  {
    if l > 0 then v else -v
  }
}
