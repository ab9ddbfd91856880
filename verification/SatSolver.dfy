module SatSolvers {
  // The satisfiability oracle: the interface of include/logic/SatSolver.h, answered by trying every assignment of
  // the variables that occur. Callers rely on the contracts only.

  import opened Sets
  import opened Cnf

  lemma SatisfiesAppended(clauses: seq<Clause>, c: Clause)
    ensures forall m :: Satisfies(m, clauses + [c]) <==> Satisfies(m, clauses) && ClauseTrue(m, c)
  {
  }

  lemma ClauseTrueAppended(c: Clause, l: int)
    ensures forall m :: ClauseTrue(m, c + [l]) <==> ClauseTrue(m, c) || LiteralTrue(m, l)
  {
  }

  lemma ClauseTrueShort(a: int, b: int)
    ensures forall m :: ClauseTrue(m, [a]) <==> LiteralTrue(m, a)
    ensures forall m :: ClauseTrue(m, [a, b]) <==> LiteralTrue(m, a) || LiteralTrue(m, b)
  {
  }

  function MaxVariable(c: Clause): (n: nat)
    ensures forall l :: l in c ==> Abs(l) <= n
  {
    if c == [] then 0
    else
      var n := MaxVariable(c[1..]);
      if Abs(c[0]) > n then Abs(c[0]) else n
  }

  function MaxVariableOf(clauses: seq<Clause>): (n: nat)
    ensures forall c, l :: c in clauses && l in c ==> Abs(l) <= n
  {
    if clauses == [] then 0
    else
      var n := MaxVariableOf(clauses[1..]);
      if MaxVariable(clauses[0]) > n then MaxVariable(clauses[0]) else n
  }

  /** All assignments of the variables 1 to `n`. */
  function Assignments(n: nat): set<Model> {
    if n == 0 then {{}}
    else Assignments(n - 1) + set m | m in Assignments(n - 1) :: m + {n}
  }

  lemma {:induction false} AssignmentsComplete(n: nat, m: Model)
    requires m <= Range(n)
    ensures m in Assignments(n)
  {
    if n > 0 {
      AssignmentsComplete(n - 1, m - {n});
      assert m == m - {n} || m == (m - {n}) + {n};
    } else {
      assert m == {};
    }
  }

  /** Only the variables that occur matter. */
  lemma OccurringVariablesDecide(m: Model, clauses: seq<Clause>, n: nat)
    requires forall c, l :: c in clauses && l in c ==> 0 != Abs(l) <= n
    requires Satisfies(m, clauses)
    ensures Satisfies(m * Range(n), clauses)
  {
  }

  class SatSolver {
    var clauses: seq<Clause>
    var model: Model
    /** Whether `model` belongs to the current clauses; adding a clause ends this. */
    var satisfied: bool

    constructor ()
      ensures clauses == [] && !satisfied
    {
      clauses, model, satisfied := [], {}, false;
    }

    ghost predicate Valid()
      reads this
    {
      && (forall c, l :: c in clauses && l in c ==> l != 0)
      && (satisfied ==> Satisfies(model, clauses))
    }

    method AddClause(clause: Clause)
      requires Valid() && 0 !in clause
      modifies this
      ensures Valid() && clauses == old(clauses) + [clause] && !satisfied
    {
      clauses := clauses + [clause];
      satisfied := false;
    }

    /** Adds one or two literals; a second literal of 0 means that there is none. */
    method AddClauseShort(lit1: int, lit2: int)
      requires Valid() && lit1 != 0
      modifies this
      ensures Valid() && !satisfied
      ensures clauses == old(clauses) + [if lit2 != 0 then [lit1, lit2] else [lit1]]
    {
      var clause := [lit1];
      if lit2 != 0 {
        clause := clause + [lit2];
        assert clause == [lit1, lit2];
      }
      AddClause(clause);
    }

    method Solve() returns (found: bool)
      requires Valid()
      modifies `model, `satisfied
      ensures Valid() && satisfied == found
      ensures found <==> exists m :: Satisfies(m, clauses)
    {
      var n := MaxVariableOf(clauses);
      forall m | Satisfies(m, clauses)
        ensures m * Range(n) in Assignments(n) && Satisfies(m * Range(n), clauses)
      {
        OccurringVariablesDecide(m, clauses, n);
        AssignmentsComplete(n, m * Range(n));
      }
      found := exists m :: m in Assignments(n) && Satisfies(m, clauses);
      if found {
        var m :| m in Assignments(n) && Satisfies(m, clauses);
        model := m;
      }
      satisfied := found;
    }

    /** May only be asked while the last answer still stands. */
    predicate CheckVarModel(variable: int)
      requires satisfied
      reads this
    {
      variable in model
    }
  }
}
