/**
 * The incremental SAT solver behind the engines (src/engine/solver.hpp), with
 * the contract of the IPASIR-style interface of CaDiCaL. Which model or which
 * failed assumptions an answer carries is left open; the search itself is
 * replaced by an enumeration of the assignments of the variables in use.
 */
module Solvers {
  import opened Logic
  import opened TransitionSystems

  datatype Status =
    | Ready
    | Satisfied(model: Assignment)
    | Unsatisfied(core: set<Literal>)

  predicate AllTrue(a: Assignment, ls: set<Literal>) {
    forall l :: l in ls ==> LitTrue(a, l)
  }

  /** The assignment is a model of a query. */
  predicate Answers(a: Assignment, clauses: Cnf, assumed: set<Literal>, constraint: Cnf) {
    Models(a, clauses) && AllTrue(a, assumed) && Models(a, constraint)
  }

  /** The interface allows this answer to a query: a model, or a failed part of the assumptions. */
  ghost predicate Allowed(r: Status, clauses: Cnf, assumed: set<Literal>, constraint: Cnf) {
    match r
    case Ready => false
    case Satisfied(m) => Answers(m, clauses, assumed, constraint)
    case Unsatisfied(core) => core <= assumed && forall a :: !Answers(a, clauses, core, constraint)
  }

  function CnfVars(f: Cnf): (vs: set<int>)
    ensures CnfOver(f, vs)
  {
    set c, l | c in f && l in c :: VarOf(l)
  }

  function LitVars(ls: set<Literal>): (vs: set<int>)
    ensures forall l :: l in ls ==> VarOf(l) in vs
  {
    set l | l in ls :: VarOf(l)
  }

  function QueryVars(clauses: Cnf, assumed: set<Literal>, constraint: Cnf): (vs: set<int>)
    ensures CnfOver(clauses, vs) && CnfOver(constraint, vs)
    ensures forall l :: l in assumed ==> VarOf(l) in vs
  {
    CnfVars(clauses) + CnfVars(constraint) + LitVars(assumed)
  }

  /** Only the variables in use matter to a query. */
  lemma AnswersInVariables(a: Assignment, clauses: Cnf, assumed: set<Literal>, constraint: Cnf, vs: set<int>)
    requires CnfOver(clauses, vs) && CnfOver(constraint, vs)
    requires forall l :: l in assumed ==> VarOf(l) in vs
    requires Answers(a, clauses, assumed, constraint)
    ensures Answers(a * vs, clauses, assumed, constraint)
  {
    AgreeOnCnf(a, a * vs, vs, clauses);
    AgreeOnCnf(a, a * vs, vs, constraint);
    forall l | l in assumed
      ensures LitTrue(a * vs, l)
    {
      assert LitTrue(a, l);
    }
  }

  predicate SatWithin(vs: set<int>, clauses: Cnf, assumed: set<Literal>, constraint: Cnf) {
    exists m: Assignment :: m <= vs && Answers(m, clauses, assumed, constraint)
  }

  /** Satisfiability within the variables in use is satisfiability. */
  lemma SatIsSatWithin(vs: set<int>, clauses: Cnf, assumed: set<Literal>, constraint: Cnf)
    requires CnfOver(clauses, vs) && CnfOver(constraint, vs)
    requires forall l :: l in assumed ==> VarOf(l) in vs
    ensures forall a :: Answers(a, clauses, assumed, constraint) ==> SatWithin(vs, clauses, assumed, constraint)
  {
    forall a: Assignment | Answers(a, clauses, assumed, constraint)
      ensures SatWithin(vs, clauses, assumed, constraint)
    {
      AnswersInVariables(a, clauses, assumed, constraint, vs);
      assert a * vs <= vs;
    }
  }

  /** Enumerates the assignments of the variables in use. */
  method Search(clauses: Cnf, assumed: set<Literal>, constraint: Cnf) returns (r: Status)
    ensures r.Satisfied? || r.Unsatisfied?
    ensures r.Satisfied? ==> Answers(r.model, clauses, assumed, constraint)
    ensures r.Unsatisfied? ==> r.core <= assumed && forall a :: !Answers(a, clauses, r.core, constraint)
  {
    var vs := QueryVars(clauses, assumed, constraint);
    if SatWithin(vs, clauses, assumed, constraint) {
      var m: Assignment :| m <= vs && Answers(m, clauses, assumed, constraint);
      r := Satisfied(m);
    } else {
      assert assumed <= assumed;
      var core :| core <= assumed && !SatWithin(vs, clauses, core, constraint);
      SatIsSatWithin(vs, clauses, core, constraint);
      r := Unsatisfied(core);
    }
  }

  /** A query under construction: assumptions and at most one constraint clause. */
  datatype Query = Query(assumed: set<Literal>, constraint: Cnf)
  {
    function Assume(ls: seq<Literal>): Query {
      this.(assumed := assumed + LitSet(ls))
    }

    /** Requires the negation of the cube for this query only. */
    function ConstrainNot(cube: seq<Literal>): Query {
      this.(constraint := [NotAll(cube)])
    }
  }

  class Solver {
    var clauses: Cnf
    var status: Status

    constructor ()
      ensures clauses == [] && status == Ready
    {
      clauses, status := [], Ready;
    }

    method Reset()
      modifies this
      ensures clauses == [] && status == Ready
    {
      clauses, status := [], Ready;
    }

    method AssertFormula(f: Cnf)
      modifies this
      ensures clauses == old(clauses) + f && status == Ready
    {
      clauses := clauses + f;
      status := Ready;
    }

    /**
     * Starts a query; assumptions and constraints last for one query. The
     * answer to the previous one is no longer available.
     */
    method NewQuery() returns (q: Query)
      modifies this`status
      ensures q == Query({}, []) && status == Ready
    {
      status := Ready;
      q := Query({}, []);
    }

    /**
     * Solves the query. A positive answer leaves a model; a negative one leaves
     * a subset of the assumptions that, with the clauses and the constraint,
     * already has no model.
     */
    method IsSat(q: Query) returns (sat: bool)
      modifies this`status
      ensures sat ==> status.Satisfied? && Answers(status.model, clauses, q.assumed, q.constraint)
      ensures !sat ==> status.Unsatisfied? && status.core <= q.assumed
      ensures !sat ==> forall a :: !Answers(a, clauses, status.core, q.constraint)
    {
      status := Search(clauses, q.assumed, q.constraint);
      sat := status.Satisfied?;
    }

    predicate IsTrueInModel(v: int)
      requires status.Satisfied?
      reads this
    {
      v in status.model
    }

    predicate IsInCore(l: Literal)
      requires status.Unsatisfied?
      reads this
    {
      l in status.core
    }

    /** The model's literals over a range, in the order of the variables. */
    method GetModel(range: VariableRange) returns (val: seq<Literal>)
      requires status.Satisfied? && range.Valid()
      ensures val == ValuationOf(status.model, range)
    {
      val := [];
      for i := 0 to range.Size()
        invariant |val| == i
        invariant forall k :: 0 <= k < i ==> val[k] == ValuationOf(status.model, range)[k]
      {
        var v := range.Nth(i);
        val := val + [Substitute(if IsTrueInModel(v) then 1 else -1, v)];
      }
    }

    /** Those of the given literals that are failed assumptions. */
    method GetCore(ls: seq<Literal>) returns (core: seq<Literal>)
      requires status.Unsatisfied?
      ensures forall l :: l in core <==> l in ls && l in status.core
    {
      core := [];
      for i := 0 to |ls|
        invariant forall l :: l in core <==> l in ls[..i] && l in status.core
      {
        if IsInCore(ls[i]) {
          core := core + [ls[i]];
        }
      }
      assert ls[..|ls|] == ls;
    }

    /** The failed assumptions over a range of variables, of either sign. */
    method GetCoreOver(range: VariableRange) returns (core: seq<Literal>)
      requires status.Unsatisfied? && range.Valid()
      requires forall l :: l in status.core ==> Not(l) !in status.core
      ensures forall l :: l in core <==> range.Contains(VarOf(l)) && l in status.core
    {
      core := [];
      for i := 0 to range.Size()
        invariant forall l :: l in core <==> range.begin <= VarOf(l) < range.begin + i && l in status.core
      {
        var lit: Literal := range.Nth(i);
        if IsInCore(lit) {
          core := core + [lit];
        } else if IsInCore(Not(lit)) {
          core := core + [Not(lit)];
        }
        assert forall l: Literal :: VarOf(l) == range.begin + i ==> l == lit || l == Not(lit);
      }
    }
  }

  // ------------------------------------------------------------------
  // The variable store: hands out variables that were never used before
  // ------------------------------------------------------------------

  class VariableStore {
    // the number of variables handed out so far, plus one for the dummy zero
    var size: int

    constructor ()
      ensures size == 1
    {
      size := 1;
    }

    method Make() returns (v: int)
      requires size > 0
      modifies this
      ensures v == old(size) && size == old(size) + 1
    {
      v := size;
      size := size + 1;
    }

    method MakeRange(n: int) returns (range: VariableRange)
      requires size > 0 && n >= 0
      modifies this
      ensures range == VariableRange(old(size), old(size) + n) && range.Valid()
      ensures size == old(size) + n
    {
      var fst := size;
      for i := 0 to n
        invariant size == fst + i
      {
        var _ := Make();
      }
      range := VariableRange(fst, size);
    }
  }
}
