/**
 * Formulas as they are stored: one vector of literals in which every clause is
 * terminated by a zero (src/logic.hpp).
 */
module FlatFormulas {
  import opened Logic

  /** The clauses one after the other, each followed by a separator. */
  ghost function Flatten(f: Cnf): (flat: seq<int>)
    decreases |f|
  {
    if f == [] then [] else Flatten(f[..|f| - 1]) + f[|f| - 1] + [0]
  }

  lemma {:induction false} FlattenConcat(f: Cnf, g: Cnf)
    ensures Flatten(f + g) == Flatten(f) + Flatten(g)
    decreases |g|
  {
    if g == [] {
      assert f + g == f;
    } else {
      var init, c := g[..|g| - 1], g[|g| - 1];
      FlattenConcat(f, init);
      assert (f + g)[..|f + g| - 1] == f + init;
      assert Flatten(f) + (Flatten(init) + c + [0]) == (Flatten(f) + Flatten(init)) + c + [0];
    }
  }

  lemma FlattenOne(f: Cnf, c: Clause)
    ensures Flatten(f + [c]) == Flatten(f) + c + [0]
  {
    assert (f + [c])[..|f|] == f;
  }

  /** A vector stands for one formula only. */
  lemma {:induction false} FlattenIsInjective(f: Cnf, g: Cnf)
    requires Flatten(f) == Flatten(g)
    ensures f == g
    decreases |f| + |g|
  {
    EndsWithSeparator(f);
    EndsWithSeparator(g);
    if f != [] && g != [] {
      var (fi, fc) := (f[..|f| - 1], f[|f| - 1]);
      var (gi, gc) := (g[..|g| - 1], g[|g| - 1]);
      if |fc| < |gc| {
        LastClauseNotLonger(fi, fc, gi, gc);
      } else if |gc| < |fc| {
        LastClauseNotLonger(gi, gc, fi, fc);
      }
      var a, b := Flatten(fi) + fc, Flatten(gi) + gc;
      assert a == Flatten(f)[..|a|] && b == Flatten(g)[..|a|];
      assert Flatten(fi) == a[..|a| - |fc|] && Flatten(gi) == a[..|a| - |fc|];
      assert fc == a[|a| - |fc|..] && gc == a[|a| - |fc|..];
      FlattenIsInjective(fi, gi);
      assert f == fi + [fc] && g == gi + [gc];
    }
  }

  /** The separator in front of a shorter last clause would have to be a literal. */
  lemma LastClauseNotLonger(fi: Cnf, fc: Clause, gi: Cnf, gc: Clause)
    requires Flatten(fi) + fc + [0] == Flatten(gi) + gc + [0]
    ensures |fc| >= |gc|
  {
    var a, b := Flatten(fi) + fc, Flatten(gi) + gc;
    assert a == (a + [0])[..|a|] && b == (b + [0])[..|a|];
    if |fc| < |gc| {
      SeparatorBefore(fi, fc);
      LiteralInside(gi, gc, |a| - |fc| - 1);
      assert false;
    }
  }

  lemma SeparatorBefore(f: Cnf, c: Clause)
    requires |Flatten(f) + c| > |c|
    ensures (Flatten(f) + c)[|Flatten(f) + c| - |c| - 1] == 0
  {
    EndsWithSeparator(f);
  }

  lemma LiteralInside(f: Cnf, c: Clause, n: nat)
    requires |Flatten(f)| <= n < |Flatten(f) + c|
    ensures (Flatten(f) + c)[n] != 0
  {
    assert (Flatten(f) + c)[n] == c[n - |Flatten(f)|];
  }

  lemma EndsWithSeparator(f: Cnf)
    ensures f == [] ==> Flatten(f) == []
    ensures f != [] ==> |Flatten(f)| > 0 && Flatten(f)[|Flatten(f)| - 1] == 0
  {
  }

  // ------------------------------------------------------------------
  // Transformations, literal by literal
  // ------------------------------------------------------------------

  /** Applies a map to every literal and leaves separators alone. */
  ghost function MapFlat(flat: seq<int>, m: Literal -> Literal): seq<int> {
    if flat == [] then []
    else
      var last := flat[|flat| - 1];
      MapFlat(flat[..|flat| - 1], m) + [if last == 0 then 0 else m(last)]
  }

  /** Puts the negated activator in front of every separator. */
  ghost function ActivateFlat(flat: seq<int>, activator: int): seq<int> {
    if flat == [] then []
    else
      var last := flat[|flat| - 1];
      ActivateFlat(flat[..|flat| - 1], activator) + if last == 0 then [-activator, 0] else [last]
  }

  ghost function MapClause(c: Clause, m: Literal -> Literal): (r: Clause)
    ensures |r| == |c| && forall i :: 0 <= i < |c| ==> r[i] == m(c[i])
  {
    seq(|c|, i requires 0 <= i < |c| => m(c[i]))
  }

  ghost function MapCnf(f: Cnf, m: Literal -> Literal): (r: Cnf)
    ensures |r| == |f| && forall i :: 0 <= i < |f| ==> r[i] == MapClause(f[i], m)
  {
    seq(|f|, i requires 0 <= i < |f| => MapClause(f[i], m))
  }

  lemma {:induction false} MapFlatAppend(flat: seq<int>, c: Clause, m: Literal -> Literal)
    ensures MapFlat(flat + c, m) == MapFlat(flat, m) + MapClause(c, m)
    decreases |c|
  {
    if c == [] {
      assert flat + c == flat;
    } else {
      var init, last := c[..|c| - 1], c[|c| - 1];
      MapFlatAppend(flat, init, m);
      assert (flat + c)[..|flat + c| - 1] == flat + init;
      assert MapClause(c, m) == MapClause(init, m) + [m(last)];
    }
  }

  lemma MapFlatSeparator(flat: seq<int>, m: Literal -> Literal)
    ensures MapFlat(flat + [0], m) == MapFlat(flat, m) + [0]
  {
    assert (flat + [0])[..|flat|] == flat;
  }

  lemma MapOneMore(f: Cnf, c: Clause, m: Literal -> Literal)
    ensures MapCnf(f + [c], m) == MapCnf(f, m) + [MapClause(c, m)]
  {
  }

  /** Mapping the vector maps the formula it stands for. */
  lemma {:induction false} MapFlatMaps(f: Cnf, m: Literal -> Literal)
    ensures MapFlat(Flatten(f), m) == Flatten(MapCnf(f, m))
    decreases |f|
  {
    if f != [] {
      hide MapFlat, MapCnf, MapClause;
      var init, c := f[..|f| - 1], f[|f| - 1];
      assert f == init + [c];
      MapFlatMaps(init, m);
      MapFlatAppend(Flatten(init), c, m);
      MapFlatSeparator(Flatten(init) + c, m);
      MapOneMore(init, c, m);
      FlattenOne(MapCnf(init, m), MapClause(c, m));
    }
  }

  lemma {:induction false} ActivateFlatAppend(flat: seq<int>, c: Clause, activator: int)
    ensures ActivateFlat(flat + c, activator) == ActivateFlat(flat, activator) + c
    decreases |c|
  {
    if c == [] {
      assert flat + c == flat;
    } else {
      var init, last := c[..|c| - 1], c[|c| - 1];
      ActivateFlatAppend(flat, init, activator);
      assert (flat + c)[..|flat + c| - 1] == flat + init;
      assert c == init + [last];
    }
  }

  lemma ActivateFlatSeparator(flat: seq<int>, activator: int)
    ensures ActivateFlat(flat + [0], activator) == ActivateFlat(flat, activator) + [-activator, 0]
  {
    assert (flat + [0])[..|flat|] == flat;
  }

  lemma ActivateOneMore(f: Cnf, c: Clause, activator: int)
    requires activator > 0
    ensures var guarded: Clause := c + [-activator];
            Activate(f + [c], activator) == Activate(f, activator) + [guarded]
  {
  }

  /** Inserting the activator before the separators adds it to every clause. */
  lemma {:induction false} ActivateFlatActivates(f: Cnf, activator: int)
    requires activator > 0
    ensures ActivateFlat(Flatten(f), activator) == Flatten(Activate(f, activator))
    decreases |f|
  {
    hide ActivateFlat, Logic.Activate;
    if f == [] {
      NothingToActivate(activator);
    } else {
      var init, c := f[..|f| - 1], f[|f| - 1];
      var guarded: Clause := c + [-activator];
      assert f == init + [c];
      ActivateFlatActivates(init, activator);
      ActivateFlatAppend(Flatten(init), c, activator);
      ActivateFlatSeparator(Flatten(init) + c, activator);
      ActivateOneMore(init, c, activator);
      FlattenOne(Activate(init, activator), guarded);
      var flat := ActivateFlat(Flatten(init), activator);
      assert flat + c + [-activator, 0] == flat + guarded + [0];
    }
  }

  lemma NothingToActivate(activator: int)
    requires activator > 0
    ensures ActivateFlat(Flatten([]), activator) == Flatten(Activate([], activator))
  {
  }

  class CnfFormula {
    var literals: seq<int>
    // the formula the vector stands for
    ghost var view: Cnf

    ghost predicate Valid()
      reads this
    {
      literals == Flatten(view)
    }

    constructor ()
      ensures Valid() && view == []
    {
      literals, view := [], [];
    }

    constructor Constant(value: bool)
      ensures Valid()
      ensures forall a :: Models(a, view) <==> value
    {
      literals := if value then [] else [0];
      view := if value then [] else [[]];
      new;
      assert !value ==> view[0] in view;
      assert Flatten([[]]) == [0] by {
        FlattenOne([], []);
      }
    }

    method AddClause(clause: Clause)
      requires Valid()
      modifies this
      ensures Valid() && view == old(view) + [clause]
    {
      FlattenOne(view, clause);
      literals := literals + clause + [0];
      view := view + [clause];
    }

    method AddCnf(formula: CnfFormula)
      requires Valid() && formula.Valid()
      modifies this
      ensures Valid() && view == old(view) + old(formula.view)
    {
      FlattenConcat(view, formula.view);
      literals := literals + formula.literals;
      view := view + formula.view;
    }

    method Map(m: Literal -> Literal) returns (res: CnfFormula)
      requires Valid()
      ensures fresh(res) && res.Valid() && res.view == MapCnf(view, m)
    {
      var lits: seq<int> := [];
      for i := 0 to |literals|
        invariant lits == MapFlat(literals[..i], m)
      {
        assert literals[..i + 1][..i] == literals[..i];
        var lit := literals[i];
        lits := lits + [if lit == 0 then 0 else m(lit)];
      }
      assert literals[..|literals|] == literals;
      MapFlatMaps(view, m);
      res := new CnfFormula();
      res.literals, res.view := lits, MapCnf(view, m);
    }

    method Activate(activator: int) returns (res: CnfFormula)
      requires Valid() && activator > 0
      ensures fresh(res) && res.Valid() && res.view == Logic.Activate(view, activator)
    {
      var lits: seq<int> := [];
      for i := 0 to |literals|
        invariant lits == ActivateFlat(literals[..i], activator)
      {
        assert literals[..i + 1][..i] == literals[..i];
        var lit := literals[i];
        if lit == 0 {
          lits := lits + [-activator];
        }
        lits := lits + [lit];
      }
      assert literals[..|literals|] == literals;
      ActivateFlatActivates(view, activator);
      res := new CnfFormula();
      res.literals, res.view := lits, Logic.Activate(view, activator);
    }

    /** All literals of the formula, without the separators, as a cube. */
    method AsCube() returns (c: Cube)
      requires Valid()
      ensures forall l :: l in c.literals <==> exists d :: d in view && l in d
      // the test alone is not enough for this
      ensures HalfSeparators(view) && |literals| % 2 == 0 && [] !in view ==>
                forall a :: CubeTrue(a, c.literals) <==> Models(a, view)
    {
      var lits: seq<Literal> := [];
      for i := 0 to |literals|
        invariant forall l: Literal :: l in lits <==> l in literals[..i]
      {
        assert literals[..i + 1] == literals[..i] + [literals[i]];
        if literals[i] != 0 {
          lits := lits + [literals[i]];
        }
      }
      assert literals[..|literals|] == literals;
      LiteralsOfFlat(view);
      c := MakeCube(lits);
      UnitsPassTest(view);
      if AllUnits(view) {
        forall a {
          UnitsAreCube(view, c, a);
        }
      }
    }
  }

  lemma {:induction false} LiteralsOfFlat(f: Cnf)
    ensures forall l: Literal :: l in Flatten(f) <==> exists d :: d in f && l in d
    decreases |f|
  {
    if f != [] {
      var init, c := f[..|f| - 1], f[|f| - 1];
      LiteralsOfFlat(init);
      assert f == init + [c];
      forall l: Literal
        ensures l in Flatten(f) <==> exists d :: d in f && l in d
      {
        if l in c {
          assert c in f && l in c;
        }
        if d :| d in init && l in d {
          assert d in f && l in d;
        }
      }
    }
  }

  function Separators(flat: seq<int>): (n: nat) {
    if flat == [] then 0 else Separators(flat[1..]) + if flat[0] == 0 then 1 else 0
  }

  /** The test before a formula is turned into a cube: half of the entries, rounded down, are separators. */
  ghost predicate HalfSeparators(f: Cnf) {
    Separators(Flatten(f)) == |Flatten(f)| / 2
  }

  ghost predicate AllUnits(f: Cnf) {
    forall c :: c in f ==> |c| == 1
  }

  ghost function LiteralCount(f: Cnf): (n: nat)
    decreases |f|
  {
    if f == [] then 0 else LiteralCount(f[..|f| - 1]) + |f[|f| - 1]|
  }

  lemma {:induction false} SeparatorsConcat(a: seq<int>, b: seq<int>)
    ensures Separators(a + b) == Separators(a) + Separators(b)
    decreases |a|
  {
    if a == [] {
      assert a + b == b;
    } else {
      SeparatorsConcat(a[1..], b);
      assert (a + b)[1..] == a[1..] + b;
    }
  }

  lemma {:induction false} NoSeparators(c: Clause)
    ensures Separators(c) == 0
    decreases |c|
  {
    if c != [] {
      NoSeparators(c[1..]);
    }
  }

  /** A vector has a separator a clause, and otherwise literals. */
  lemma {:induction false} FlatCounts(f: Cnf)
    ensures Separators(Flatten(f)) == |f|
    ensures |Flatten(f)| == |f| + LiteralCount(f)
    decreases |f|
  {
    if f != [] {
      var init, c := f[..|f| - 1], f[|f| - 1];
      FlatCounts(init);
      NoSeparators(c);
      assert Separators([0]) == 1 by {
        assert [0][1..] == [];
      }
      SeparatorsConcat(Flatten(init), c);
      SeparatorsConcat(Flatten(init) + c, [0]);
    }
  }

  /** Without empty clauses there are at least as many literals as clauses, and as many only if all are units. */
  lemma {:induction false} UnitsByCount(f: Cnf)
    ensures AllUnits(f) ==> LiteralCount(f) == |f|
    ensures [] !in f ==> LiteralCount(f) >= |f|
    ensures [] !in f && LiteralCount(f) == |f| ==> AllUnits(f)
    decreases |f|
  {
    if f != [] {
      var init, c := f[..|f| - 1], f[|f| - 1];
      UnitsByCount(init);
      assert f == init + [c];
      assert c in f;
    }
  }

  /**
   * What the test is worth: a formula consists of unit clauses exactly if it
   * passes the test, its vector has an even number of entries and none of its
   * clauses is empty.
   */
  lemma UnitsPassTest(f: Cnf)
    ensures AllUnits(f) <==> HalfSeparators(f) && |Flatten(f)| % 2 == 0 && [] !in f
  {
    FlatCounts(f);
    UnitsByCount(f);
  }

  /** The cube of the literals means the same as the formula if all clauses are units. */
  lemma UnitsAreCube(f: Cnf, c: Cube, a: Assignment)
    requires AllUnits(f) && forall l :: l in c.literals <==> exists d :: d in f && l in d
    ensures CubeTrue(a, c.literals) <==> Models(a, f)
  {
    if CubeTrue(a, c.literals) {
      forall d | d in f
        ensures ClauseTrue(a, d)
      {
        assert d[0] in d;
      }
    }
    if Models(a, f) {
      forall l | l in c.literals
        ensures LitTrue(a, l)
      {
        var d :| d in f && l in d;
        assert d[0] == l && ClauseTrue(a, d);
      }
    }
  }

  /**
   * Neither of the other two conditions can be left out: an empty clause makes
   * up for a binary one, and rounding down hides a literal too many.
   */
  lemma HalfSeparatorsIsNoCube()
    ensures HalfSeparators([[], [1, 2]]) && |Flatten([[], [1, 2]])| % 2 == 0 && !AllUnits([[], [1, 2]])
    ensures HalfSeparators([[1], [2, 3]]) && [] !in [[1], [2, 3]] && !AllUnits([[1], [2, 3]])
  {
    var f: Cnf := [[], [1, 2]];
    var g: Cnf := [[1], [2, 3]];
    FlatCounts(f);
    FlatCounts(g);
    assert f[..1] == [[]] && g[..1] == [[1]];
    assert |f[1]| == 2 && |g[1]| == 2 && f[1] in f && g[1] in g;
  }
}
