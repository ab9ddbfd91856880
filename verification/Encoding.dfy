module Encodings {
  // "Non-empty admissible set" as clauses, blocking of found sets, and reading a set back from a model
  // (src/logic/Encoding.cpp, src/logic/Decoding.cpp). Variable `a` says that argument `a` is accepted, variable `a +
  // n` that it is attacked by an accepted argument.

  import opened Semantics
  import opened Sets
  import opened VectorBitSets
  import opened Framework
  import opened Cnf
  import opened SatSolvers

  function LiteralAccepted(argument: int, isInverted: bool): int {
    if isInverted then -argument else argument
  }

  function LiteralRejected(argsSize: int, argument: int, isInverted: bool): int {
    if isInverted then -(argument + argsSize) else argument + argsSize
  }

  // ----- What the clauses say -----

  /** What the clauses about argument `a` and its active attacker `b` say. */
  ghost predicate AttackerConstraint(n: nat, m: Model, a: int, b: int) {
    && (b in m ==> a + n in m)
    && !(a in m && b in m)
    && (a in m && a != b ==> b + n in m)
  }

  ghost predicate ArgumentConstraint(R: Attacks, A: set<int>, n: nat, m: Model, a: int) {
    && !(a + n in m && a in m)
    && (forall b :: b in A && (b, a) in R ==> AttackerConstraint(n, m, a, b))
    && (a + n in m ==> Attacked(R, A * m, a))
  }

  ghost predicate Meets(S: set<int>, m: Model) {
    exists a :: a in S && a in m
  }

  ghost predicate Encodes(R: Attacks, A: set<int>, n: nat, m: Model) {
    && Meets(A, m)
    && forall a :: a in A ==> ArgumentConstraint(R, A, n, m, a)
  }

  /** The model of a set: its members, and a rejection mark for everything it attacks. */
  ghost function ModelOf(R: Attacks, A: set<int>, n: nat, S: set<int>): Model {
    S + set a | a in A && Attacked(R, S, a) :: a + n
  }

  lemma EncodedSetIsAdmissible(R: Attacks, A: set<int>, n: nat, m: Model)
    requires A <= Range(n) && Encodes(R, A, n, m)
    ensures A * m != {} && Admissible(R, A, A * m)
    ensures forall a :: a in A ==> (a + n in m <==> Attacked(R, A * m, a))
  {
  }

  /** Which variables are true in the model of a set. */
  lemma ModelMembers(R: Attacks, A: set<int>, n: nat, S: set<int>, a: int)
    requires A <= Range(n) && S <= A && a in A
    ensures a in ModelOf(R, A, n, S) <==> a in S
    ensures a + n in ModelOf(R, A, n, S) <==> Attacked(R, S, a)
  {
    assert forall b :: b in A ==> 1 <= b <= n;
  }

  lemma ModelMeets(R: Attacks, A: set<int>, n: nat, S: set<int>)
    requires A <= Range(n) && S <= A && S != {}
    ensures A * ModelOf(R, A, n, S) == S && Meets(A, ModelOf(R, A, n, S))
  {
    hide ModelOf, Attacked;
    forall a | a in A
      ensures a in ModelOf(R, A, n, S) <==> a in S
    {
      ModelMembers(R, A, n, S, a);
    }
    var a := Member(S);
  }

  lemma AttackerEncoded(R: Attacks, A: set<int>, n: nat, S: set<int>, a: int, b: int)
    requires A <= Range(n) && Admissible(R, A, S) && a in A && b in A && (b, a) in R
    ensures AttackerConstraint(n, ModelOf(R, A, n, S), a, b)
  {
    hide ModelOf;
    ModelMembers(R, A, n, S, a);
    ModelMembers(R, A, n, S, b);
  }

  lemma ArgumentEncoded(R: Attacks, A: set<int>, n: nat, S: set<int>, a: int)
    requires A <= Range(n) && Admissible(R, A, S) && S != {} && a in A
    ensures ArgumentConstraint(R, A, n, ModelOf(R, A, n, S), a)
  {
    hide ModelOf, AttackerConstraint, Defends, Attacked;
    ModelMembers(R, A, n, S, a);
    ModelMeets(R, A, n, S);
    forall b | b in A && (b, a) in R
      ensures AttackerConstraint(n, ModelOf(R, A, n, S), a, b)
    {
      AttackerEncoded(R, A, n, S, a, b);
    }
  }

  lemma AdmissibleSetIsEncoded(R: Attacks, A: set<int>, n: nat, S: set<int>)
    requires A <= Range(n) && Admissible(R, A, S) && S != {}
    ensures Encodes(R, A, n, ModelOf(R, A, n, S)) && A * ModelOf(R, A, n, S) == S
  {
    hide ModelOf, ArgumentConstraint, Meets, Defends, Attacked;
    ModelMeets(R, A, n, S);
    forall a | a in A
      ensures ArgumentConstraint(R, A, n, ModelOf(R, A, n, S), a)
    {
      ArgumentEncoded(R, A, n, S, a);
    }
  }

  /** Exactness: the sets read off the models are precisely the non-empty admissible sets. */
  lemma EncodingExact(R: Attacks, A: set<int>, n: nat, S: set<int>)
    requires A <= Range(n)
    ensures (exists m :: Encodes(R, A, n, m) && A * m == S) <==> S != {} && Admissible(R, A, S)
  {
    if m :| Encodes(R, A, n, m) && A * m == S {
      EncodedSetIsAdmissible(R, A, n, m);
    }
    if S != {} && Admissible(R, A, S) {
      AdmissibleSetIsEncoded(R, A, n, S);
    }
  }

  // ----- Building the clauses -----

  method AddRejectedClauses(solver: SatSolver, argsSize: nat, argument: int) returns (reason: Clause)
    requires solver.Valid() && 0 < argument
    modifies solver
    ensures solver.Valid()
    ensures solver.clauses == old(solver.clauses) + [[-(argument + argsSize), -argument]]
    ensures reason == [-(argument + argsSize)]
  {
    solver.AddClauseShort(LiteralRejected(argsSize, argument, true), LiteralAccepted(argument, true));
    reason := [LiteralRejected(argsSize, argument, true)];
  }

  method AddRejectedClausesPerAttacker(solver: SatSolver, argsSize: nat, argument: int, attacker: int,
                                       reason: Clause)
    returns (reason': Clause)
    requires solver.Valid() && 0 < argument && 0 < attacker
    modifies solver
    ensures solver.Valid()
    ensures solver.clauses == old(solver.clauses) + [[argument + argsSize, -attacker]]
    ensures reason' == reason + [attacker]
  {
    solver.AddClauseShort(LiteralRejected(argsSize, argument, false), LiteralAccepted(attacker, true));
    reason' := reason + [LiteralAccepted(attacker, false)];
  }

  method AddConflictFreePerAttacker(solver: SatSolver, argument: int, attacker: int)
    requires solver.Valid() && 0 < argument && 0 < attacker
    modifies solver
    ensures solver.Valid()
    ensures solver.clauses == old(solver.clauses)
              + [if argument != attacker then [-argument, -attacker] else [-argument]]
  {
    if argument != attacker {
      solver.AddClauseShort(LiteralAccepted(argument, true), LiteralAccepted(attacker, true));
    } else {
      solver.AddClauseShort(LiteralAccepted(argument, true), 0);
    }
  }

  method AddDefensePerAttacker(solver: SatSolver, argsSize: nat, argument: int, attacker: int)
    requires solver.Valid() && 0 < argument && 0 < attacker
    modifies solver
    ensures solver.Valid()
    ensures solver.clauses == old(solver.clauses)
              + if argument != attacker then [[-argument, attacker + argsSize]] else []
  {
    if argument == attacker {
      return;
    }
    solver.AddClauseShort(LiteralAccepted(argument, true), LiteralRejected(argsSize, attacker, false));
  }

  /** All three groups of clauses about one active attacker. */
  method AddAttacker(solver: SatSolver, argsSize: nat, argument: int, attacker: int, reason: Clause)
    returns (reason': Clause)
    requires solver.Valid() && 0 < argument && 0 < attacker
    modifies solver
    ensures solver.Valid() && reason' == reason + [attacker]
    ensures forall m :: Satisfies(m, solver.clauses) <==>
                Satisfies(m, old(solver.clauses)) && AttackerConstraint(argsSize, m, argument, attacker)
  {
    ghost var c0 := solver.clauses;
    reason' := AddRejectedClausesPerAttacker(solver, argsSize, argument, attacker, reason);
    ghost var c1 := solver.clauses;
    SatisfiesAppended(c0, [argument + argsSize, -attacker]);
    ClauseTrueShort(argument + argsSize, -attacker);
    AddConflictFreePerAttacker(solver, argument, attacker);
    ghost var c2 := solver.clauses;
    SatisfiesAppended(c1, if argument != attacker then [-argument, -attacker] else [-argument]);
    ClauseTrueShort(-argument, -attacker);
    AddDefensePerAttacker(solver, argsSize, argument, attacker);
    assert argument == attacker ==> solver.clauses == c2;
    SatisfiesAppended(c2, [-argument, attacker + argsSize]);
    ClauseTrueShort(-argument, attacker + argsSize);
  }

  ghost predicate AttackerConstraints(n: nat, m: Model, a: int, attackers: set<int>) {
    forall b :: b in attackers ==> AttackerConstraint(n, m, a, b)
  }

  ghost predicate ArgumentConstraints(R: Attacks, A: set<int>, n: nat, m: Model, arguments: set<int>) {
    forall a :: a in arguments ==> ArgumentConstraint(R, A, n, m, a)
  }

  lemma AttackerConstraintsGrow(n: nat, a: int, attackers: set<int>, b: int)
    ensures forall m :: AttackerConstraints(n, m, a, attackers + {b}) <==>
                          AttackerConstraints(n, m, a, attackers) && AttackerConstraint(n, m, a, b)
  {
  }

  lemma MeetsGrows(S: set<int>, a: int)
    ensures forall m :: Meets(S + {a}, m) <==> Meets(S, m) || a in m
  {
  }

  /** The clauses say what the earlier ones said, and the constraints of the handled attackers. */
  ghost predicate Handles(before: seq<Clause>, clauses: seq<Clause>, n: nat, a: int, handled: set<int>) {
    forall m :: Satisfies(m, clauses) <==>
                  Satisfies(m, before) && !(a + n in m && a in m) && AttackerConstraints(n, m, a, handled)
  }

  /** The clause that gives the reason for a rejection. */
  ghost predicate Reasons(n: nat, a: int, reason: Clause, handled: set<int>) {
    forall m :: ClauseTrue(m, reason) <==> a + n !in m || Meets(handled, m)
  }

  lemma HandlesNone(before: seq<Clause>, n: nat, a: int)
    requires 0 < a
    ensures Handles(before, before + [[-(a + n), -a]], n, a, {}) && Reasons(n, a, [-(a + n)], {})
  {
    SatisfiesAppended(before, [-(a + n), -a]);
    ClauseTrueShort(-(a + n), -a);
  }

  lemma HandlesOneMore(before: seq<Clause>, clauses: seq<Clause>, clauses': seq<Clause>, n: nat, a: int, reason: Clause,
                       handled: set<int>, b: int)
    requires Handles(before, clauses, n, a, handled) && Reasons(n, a, reason, handled) && 0 < b
    requires forall m :: Satisfies(m, clauses') <==> Satisfies(m, clauses) && AttackerConstraint(n, m, a, b)
    ensures Handles(before, clauses', n, a, handled + {b}) && Reasons(n, a, reason + [b], handled + {b})
  {
    hide Satisfies, ClauseTrue, AttackerConstraints, AttackerConstraint, Meets;
    AttackerConstraintsGrow(n, a, handled, b);
    MeetsGrows(handled, b);
    ClauseTrueAppended(reason, b);
  }

  lemma HandlesAll(R: Attacks, A: set<int>, before: seq<Clause>, clauses: seq<Clause>, n: nat, a: int, reason: Clause)
    requires Handles(before, clauses, n, a, A * AttackersOf(R, a)) && Reasons(n, a, reason, A * AttackersOf(R, a))
    ensures forall m :: Satisfies(m, clauses + [reason]) <==> Satisfies(m, before) && ArgumentConstraint(R, A, n, m, a)
  {
    hide Satisfies, ClauseTrue, AttackerConstraints, ArgumentConstraint, Meets;
    SatisfiesAppended(clauses, reason);
    ArgumentConstraintByAttackers(R, A, n, a);
  }

  method AddAdmissible(solver: SatSolver, framework: AF, active: VectorBitSet, argument: int)
    requires solver.Valid() && framework.Valid() && active.Valid(framework.numArgs)
    requires 1 <= argument <= framework.numArgs
    modifies solver
    ensures solver.Valid()
    ensures forall m :: Satisfies(m, solver.clauses) <==>
                Satisfies(m, old(solver.clauses)) &&
                ArgumentConstraint(framework.attacks, Elements(active.vector), framework.numArgs, m, argument)
  {
    hide Handles, Reasons, AttackerConstraint, ArgumentConstraint, ClauseTrue, Satisfies, LiteralTrue;
    ghost var R, A, n := framework.attacks, Elements(active.vector), framework.numArgs;
    ghost var before := solver.clauses;
    var reason := AddRejectedClauses(solver, framework.numArgs, argument);
    HandlesNone(before, n, argument);
    var attackers := framework.attackers[argument].vector;
    ghost var handled: set<int> := {};
    for i := 0 to |attackers|
      invariant solver.Valid() && 0 !in reason
      invariant handled == Elements(attackers[..i]) * A
      invariant Handles(before, solver.clauses, n, argument, handled) && Reasons(n, argument, reason, handled)
    {
      var b := attackers[i];
      assert b in AttackersOf(R, argument);
      PrefixGrows(attackers, i);
      if active.bitset[b] {
        ghost var clauses := solver.clauses;
        ghost var reason0 := reason;
        reason := AddAttacker(solver, framework.numArgs, argument, b, reason);
        HandlesOneMore(before, clauses, solver.clauses, n, argument, reason0, handled, b);
        handled := handled + {b};
      }
    }
    PrefixEnds(attackers);
    RepresentsElements(framework.attackers[argument], n, AttackersOf(R, argument));
    assert handled == A * AttackersOf(R, argument);
    HandlesAll(R, A, before, solver.clauses, n, argument, reason);
    solver.AddClause(reason);
  }

  lemma ArgumentConstraintByAttackers(R: Attacks, A: set<int>, n: nat, a: int)
    ensures forall m :: ArgumentConstraint(R, A, n, m, a) <==>
                          && !(a + n in m && a in m)
                          && AttackerConstraints(n, m, a, A * AttackersOf(R, a))
                          && (a + n in m ==> Meets(A * AttackersOf(R, a), m))
  {
  }

  method AddClausesNonemptyAdmissibleSet(solver: SatSolver, framework: AF, active: VectorBitSet)
    requires solver.Valid() && framework.Valid() && active.Valid(framework.numArgs)
    modifies solver
    ensures solver.Valid()
    ensures forall m :: Satisfies(m, solver.clauses) <==>
                Satisfies(m, old(solver.clauses)) &&
                Encodes(framework.attacks, Elements(active.vector), framework.numArgs, m)
  {
    ghost var R, A, n := framework.attacks, Elements(active.vector), framework.numArgs;
    ghost var before := solver.clauses;
    var nonEmptyClause: Clause := [];
    for i := 0 to |active.vector|
      invariant solver.Valid() && 0 !in nonEmptyClause
      invariant forall m :: Satisfies(m, solver.clauses) <==>
          Satisfies(m, before) && ArgumentConstraints(R, A, n, m, Elements(active.vector[..i]))
      invariant forall m :: ClauseTrue(m, nonEmptyClause) <==> Meets(Elements(active.vector[..i]), m)
    {
      var a := active.vector[i];
      assert a in A;
      ghost var handled := Elements(active.vector[..i]);
      assert active.vector[..i + 1] == active.vector[..i] + [a];
      assert Elements(active.vector[..i + 1]) == handled + {a};
      ClauseTrueAppended(nonEmptyClause, a);
      nonEmptyClause := nonEmptyClause + [LiteralAccepted(a, false)];
      AddAdmissible(solver, framework, active, a);
      forall m: Model
        ensures ArgumentConstraints(R, A, n, m, handled + {a}) <==>
            ArgumentConstraints(R, A, n, m, handled) && ArgumentConstraint(R, A, n, m, a)
      {
      }
      MeetsGrows(handled, a);
    }
    assert active.vector[..|active.vector|] == active.vector;
    SatisfiesAppended(solver.clauses, nonEmptyClause);
    solver.AddClause(nonEmptyClause);
  }

  /** Forbids the set of the current model together with all its supersets. */
  method AddComplementClause(solver: SatSolver, active: VectorBitSet)
    requires solver.Valid() && solver.satisfied
    requires forall a :: a in active.vector ==> 0 < a
    modifies solver
    ensures solver.Valid()
    ensures forall m :: Satisfies(m, solver.clauses) <==>
                Satisfies(m, old(solver.clauses)) && !(Elements(active.vector) * old(solver.model) <= m)
  {
    ghost var before, model := solver.clauses, solver.model;
    var complementClause: Clause := [];
    for i := 0 to |active.vector|
      invariant solver.Valid() && solver.satisfied && solver.clauses == before && solver.model == model
      invariant 0 !in complementClause
      invariant forall m :: ClauseTrue(m, complementClause) <==> !(Elements(active.vector[..i]) * model <= m)
    {
      var a := active.vector[i];
      assert a in active.vector;
      ghost var handled := Elements(active.vector[..i]);
      assert active.vector[..i + 1] == active.vector[..i] + [a];
      assert Elements(active.vector[..i + 1]) == handled + {a};
      assert (handled + {a}) * model == handled * model + if a in model then {a} else {};
      if solver.CheckVarModel(a) {
        ClauseTrueAppended(complementClause, -a);
        complementClause := complementClause + [-1 * a];
      }
    }
    assert active.vector[..|active.vector|] == active.vector;
    SatisfiesAppended(solver.clauses, complementClause);
    solver.AddClause(complementClause);
  }

  // ----- Reading a set back -----

  method GetSetFromSolver(solver: SatSolver, active: VectorBitSet) returns (output: seq<int>)
    requires solver.satisfied
    ensures Elements(output) == Elements(active.vector) * solver.model
    ensures NoDuplicates(active.vector) ==> NoDuplicates(output)
  {
    output := [];
    for i := 0 to |active.vector|
      invariant Elements(output) == Elements(active.vector[..i]) * solver.model
      invariant NoDuplicates(active.vector) ==> NoDuplicates(output)
    {
      var a := active.vector[i];
      assert active.vector[..i + 1] == active.vector[..i] + [a];
      assert Elements(active.vector[..i + 1]) == Elements(active.vector[..i]) + {a};
      if solver.CheckVarModel(a) {
        assert Elements(output + [a]) == Elements(output) + {a};
        assert NoDuplicates(active.vector) ==> a !in Elements(active.vector[..i]);
        assert a in Elements(output) <==> a in output;
        output := output + [a];
      }
    }
    assert active.vector[..|active.vector|] == active.vector;
  }
}
