module Shortcomings {
  // When a rejection comes with a proof extension, as include/logic/Solver_DS_PR.h promises.  Three branches of
  // src/logic/Solver_DS_PR.cpp and src/logic/PreProcessor_DS_PR.cpp reject and write nothing: the query attacks itself,
  // a peeled-off argument attacks it, or the first answer of a task is "no set".

  import opened Sets
  import opened Semantics
  import opened Graphs
  import opened Framework
  import opened Cones
  import opened PreProcessor
  import opened TaskPool

  // ----- The pool of tasks -----

  /** Why the flag is set: an attacking set is written or about to be, or some preferred extension
      omits the query without attacking it. */
  ghost predicate RejectionExplained(R: Attacks, A: set<int>, q: int, s: Pool) {
    s.isRejected ==>
      || s.output.Written?
      || (exists i :: 0 <= i < |s.tasks| && s.tasks[i].phase.Reporting?)
      || exists P :: Omits(R, A, q, P) && !Attacked(R, P, q)
  }

  lemma StepKeepsExplained(R: Attacks, A: set<int>, q: int, s: Pool, c: Choice)
    requires Invariant(R, A, q, s) && Enabled(R, A, s, c) && RejectionExplained(R, A, q, s)
    ensures RejectionExplained(R, A, q, Next(R, A, q, s, c))
  {
    var t, s' := s.tasks[c.task], Next(R, A, q, s, c);
    assert s'.tasks[c.task] == TaskNext(R, A, q, t, s.isRejected, c.answer);
    if Rejects(R, q, t, c.answer) {
      if c.answer == NoSet {
        forall S | S != {}
          ensures !Admissible(R, Reduct(R, A, t.extension), S)
        {
          assert !Candidate(R, A, t, S);
        }
        NothingToAddIsPreferred(R, A, t.extension);
        assert Omits(R, A, q, t.extension);
      } else {
        assert s'.tasks[c.task].phase.Reporting?;
      }
    } else if i :| 0 <= i < |s.tasks| && s.tasks[i].phase.Reporting? {
      assert i != c.task ==> s'.tasks[i] == s.tasks[i];
    }
  }

  lemma {:induction false} RunKeepsExplained(R: Attacks, A: set<int>, q: int, s: Pool, schedule: seq<Choice>)
    requires Queryable(R, A, q) && Invariant(R, A, q, s) && RejectionExplained(R, A, q, s)
    requires Legal(R, A, q, s, schedule)
    ensures RejectionExplained(R, A, q, Run(R, A, q, s, schedule))
    decreases |schedule|
  {
    if schedule != [] {
      StepKeepsInvariant(R, A, q, s, schedule[0]);
      StepKeepsExplained(R, A, q, s, schedule[0]);
      RunKeepsExplained(R, A, q, Next(R, A, q, s, schedule[0]), schedule[1..]);
    }
  }

  lemma NothingAbovePreferred(R: Attacks, A: set<int>, P: set<int>, t: Task)
    requires Preferred(R, A, P) && t.extension == P
    ensures forall S :: !Candidate(R, A, t, S)
  {
    forall S
      ensures !Candidate(R, A, t, S)
    {
      if Candidate(R, A, t, S) {
        Modularisation(R, A, P, S);
        assert false;
      }
    }
  }

  lemma ReductNotSmall(R: Attacks, A: set<int>, q: int, P: set<int>)
    requires Queryable(R, A, q) && Omits(R, A, q, P) && !Attacked(R, P, q)
    ensures |Reduct(R, A, P)| >= 2
  {
    if |Reduct(R, A, P)| < 2 {
      SmallReductCoversNothing(R, A, q, Task(P, [], Ready), P);
    }
  }

  lemma RunStep(R: Attacks, A: set<int>, q: int, s: Pool, c: Choice, schedule: seq<Choice>)
    requires Enabled(R, A, s, c) && Legal(R, A, q, Next(R, A, q, s, c), schedule)
    ensures Legal(R, A, q, s, [c] + schedule)
    ensures Run(R, A, q, s, [c] + schedule) == Run(R, A, q, Next(R, A, q, s, c), schedule)
  {
  }

  /** The task that was created for a preferred extension finds nothing to add and rejects. */
  lemma ChildRejects(R: Attacks, A: set<int>, q: int, P: set<int>, before: seq<Task>, i: nat, rest: seq<Choice>)
    requires Queryable(R, A, q) && Omits(R, A, q, P) && !Attacked(R, P, q)
    requires |before| == i
    requires Legal(R, A, q, Pool(before + [Task(P, [], Finished)], true, NotWritten), rest)
    ensures var s := Pool(before + [Task(P, [], Ready)], false, NotWritten);
            var schedule := [Choice(i, NoSet)] + ([Choice(i, NoSet)] + ([Choice(i, NoSet)] + rest));
            && Legal(R, A, q, s, schedule)
            && Run(R, A, q, s, schedule)
                 == Run(R, A, q, Pool(before + [Task(P, [], Finished)], true, NotWritten), rest)
  {
    ReductNotSmall(R, A, q, P);
    NothingAbovePreferred(R, A, P, Task(P, [], Searching));
    var s0 := Pool(before + [Task(P, [], Ready)], false, NotWritten);
    var s1 := Pool(before + [Task(P, [], Encoded)], false, NotWritten);
    var s2 := Pool(before + [Task(P, [], Searching)], false, NotWritten);
    var c := Choice(i, NoSet);
    assert Next(R, A, q, s2, c) == Pool(before + [Task(P, [], Finished)], true, NotWritten);
    RunStep(R, A, q, s2, c, rest);
    assert Next(R, A, q, s1, c) == s2;
    RunStep(R, A, q, s1, c, [c] + rest);
    assert Next(R, A, q, s0, c) == s1;
    RunStep(R, A, q, s0, c, [c] + ([c] + rest));
  }

  /** Finished, rejected, and nothing written. */
  ghost predicate Silent(s: Pool) {
    AllFinished(s) && s.isRejected && s.output == NotWritten
  }

  lemma SilentRunFromEmpty(R: Attacks, A: set<int>, q: int) returns (schedule: seq<Choice>)
    requires Queryable(R, A, q) && Omits(R, A, q, {})
    ensures Legal(R, A, q, INITIAL, schedule) && Silent(Run(R, A, q, INITIAL, schedule))
  {
    ChildRejects(R, A, q, {}, [], 0, []);
    assert [] + [Task({}, [], Ready)] == INITIAL.tasks;
    assert [] + [Task({}, [], Finished)] == [Task({}, [], Finished)];
    schedule := [Choice(0, NoSet)] + ([Choice(0, NoSet)] + ([Choice(0, NoSet)] + []));
  }

  lemma SilentRunThrough(R: Attacks, A: set<int>, q: int, P: set<int>) returns (schedule: seq<Choice>)
    requires Queryable(R, A, q) && Omits(R, A, q, P) && !Attacked(R, P, q) && P != {}
    ensures Legal(R, A, q, INITIAL, schedule) && Silent(Run(R, A, q, INITIAL, schedule))
  {
    var root := Task({}, [P], Polling);
    var s1 := Pool([Task({}, [], Encoded)], false, NotWritten);
    var s2 := Pool([Task({}, [], Searching)], false, NotWritten);
    var s3 := Pool([root] + [Task(P, [], Ready)], false, NotWritten);
    var s6 := Pool([root] + [Task(P, [], Finished)], true, NotWritten);
    var poll, find := Choice(0, NoSet), Choice(0, SetFound(P));
    assert Reduct(R, A, {}) == A && {} + P == P;
    SubsetCardinality(Reduct(R, A, P), A);
    ReductNotSmall(R, A, q, P);
    RunStep(R, A, q, s6, poll, []);
    ChildRejects(R, A, q, P, [root], 1, [poll] + []);
    schedule := [Choice(1, NoSet)] + ([Choice(1, NoSet)] + ([Choice(1, NoSet)] + ([poll] + [])));
    assert Candidate(R, A, s2.tasks[0], P);
    assert [] + [P] == [P] && s2.tasks[0 := root] == [root];
    assert TaskNext(R, A, q, s2.tasks[0], false, SetFound(P)) == root;
    assert Next(R, A, q, s2, find) == s3;
    RunStep(R, A, q, s2, find, schedule);
    schedule := [find] + schedule;
    assert Next(R, A, q, s1, poll) == s2;
    RunStep(R, A, q, s1, poll, schedule);
    schedule := [poll] + schedule;
    assert Next(R, A, q, INITIAL, poll) == s1;
    RunStep(R, A, q, INITIAL, poll, schedule);
    schedule := [poll] + schedule;
  }

  lemma SilentRun(R: Attacks, A: set<int>, q: int, P: set<int>) returns (schedule: seq<Choice>)
    requires Queryable(R, A, q) && Omits(R, A, q, P) && !Attacked(R, P, q)
    ensures Legal(R, A, q, INITIAL, schedule) && Silent(Run(R, A, q, INITIAL, schedule))
  {
    if P == {} {
      schedule := SilentRunFromEmpty(R, A, q);
    } else {
      schedule := SilentRunThrough(R, A, q, P);
    }
  }

  /** No schedule ends in a rejection without a written extension. */
  ghost predicate NeverSilent(R: Attacks, A: set<int>, q: int) {
    forall schedule :: Legal(R, A, q, INITIAL, schedule) ==> !Silent(Run(R, A, q, INITIAL, schedule))
  }

  ghost predicate OmissionsAttack(R: Attacks, A: set<int>, q: int) {
    forall P :: Omits(R, A, q, P) ==> Attacked(R, P, q)
  }

  /** The pool writes an extension for a rejection under every schedule exactly when each preferred extension that omits
      the query attacks it. */
  lemma PoolWrites(R: Attacks, A: set<int>, q: int)
    requires Queryable(R, A, q)
    ensures NeverSilent(R, A, q) <==> OmissionsAttack(R, A, q)
  {
    if P :| Omits(R, A, q, P) && !Attacked(R, P, q) {
      var schedule := SilentRun(R, A, q, P);
      assert Legal(R, A, q, INITIAL, schedule) && Silent(Run(R, A, q, INITIAL, schedule));
      assert !NeverSilent(R, A, q);
    } else {
      forall schedule | Legal(R, A, q, INITIAL, schedule)
        ensures !Silent(Run(R, A, q, INITIAL, schedule))
      {
        InvariantInitially(R, A, q);
        RunKeepsExplained(R, A, q, INITIAL, schedule);
      }
    }
  }

  // ----- The whole call -----

  /** The schedule runs the pool to its end with this answer and this output. */
  ghost predicate Ends(R: Attacks, A: set<int>, q: int, schedule: seq<Choice>, accepted: bool, output: Output) {
    Legal(R, A, q, INITIAL, schedule) &&
    var s := Run(R, A, q, INITIAL, schedule);
    AllFinished(s) && s.isRejected == !accepted && s.output == output
  }

  /** What a call for `q` may return, and whether it writes an extension, when the search finds the part `U`, of which
      `G` is peeled off. */
  ghost predicate Outcome(R: Attacks, U: set<int>, G: set<int>, q: int, accepted: bool, output: Output) {
    if (q, q) in R then !accepted && output == NotWritten
    else if q in G then accepted && output == NotWritten
    else if Attacked(R, G, q) then !accepted && output == NotWritten
    else exists schedule :: Ends(R, Reduct(R, U, G), q, schedule, accepted, output)
  }

  /** Every rejection comes with a written extension. */
  ghost predicate AlwaysWritten(R: Attacks, U: set<int>, G: set<int>, q: int) {
    forall output :: Outcome(R, U, G, q, false, output) ==> output.Written?
  }

  /** What decides it: the query does not attack itself, nothing peeled off attacks it, and each preferred extension that
      omits it attacks it. */
  ghost predicate WritesFor(R: Attacks, A: set<int>, G: set<int>, q: int) {
    (q, q) !in R && !Attacked(R, G, q) && OmissionsAttack(R, A, q)
  }

  /** Peeling changes nothing about the omissions. */
  lemma PeeledOmissions(R: Attacks, U: set<int>, G: set<int>, q: int)
    requires PeeledOff(R, U, G) && q in Reduct(R, U, G)
    ensures OmissionsAttack(R, Reduct(R, U, G), q) <==> OmissionsAttack(R, U, q)
  {
    PeeledOffInside(R, U, G);
    if OmissionsAttack(R, Reduct(R, U, G), q) {
      forall P | Omits(R, U, q, P)
        ensures Attacked(R, P, q)
      {
        PreferredClosedUnderDefence(R, U, P);
        PreferredModularisation(R, U, G, P);
        AttackedMonotone(R, P - G, P, q);
      }
    }
    if OmissionsAttack(R, U, q) {
      forall Q | Omits(R, Reduct(R, U, G), q, Q)
        ensures Attacked(R, Q, q)
      {
        assert (G + Q) - G == Q;
        PreferredModularisation(R, U, G, G + Q);
        assert Attacked(R, G + Q, q);
      }
    }
  }

  /** Nor does what lies outside an attacker-closed part. */
  lemma PartOmissions(R: Attacks, A: set<int>, U: set<int>, q: int)
    requires AttackerClosed(R, A, U) && q in U
    ensures OmissionsAttack(R, U, q) <==> OmissionsAttack(R, A, q)
  {
    if OmissionsAttack(R, U, q) {
      forall P | Omits(R, A, q, P)
        ensures Attacked(R, P, q)
      {
        Directionality(R, A, U, P * U);
        assert Omits(R, U, q, P * U);
        AttackedMonotone(R, P * U, P, q);
      }
    }
    if OmissionsAttack(R, A, q) {
      forall T | Omits(R, U, q, T)
        ensures Attacked(R, T, q)
      {
        Directionality(R, A, U, T);
        var P :| Preferred(R, A, P) && P * U == T;
        assert Omits(R, A, q, P);
        var e :| e in P && (e, q) in R;
        assert e in T;
      }
    }
  }

  /** The pool, and the three ways to answer without it. */
  lemma PartWrites(R: Attacks, U: set<int>, G: set<int>, q: int)
    requires PeeledOff(R, U, G) && q in U
    ensures AlwaysWritten(R, U, G, q) <==> WritesFor(R, U, G, q)
  {
    PeeledOffInside(R, U, G);
    var A := Reduct(R, U, G);
    if (q, q) in R || (q !in G && Attacked(R, G, q)) {
      assert Outcome(R, U, G, q, false, NotWritten);
    } else if q in G {
      forall P | Preferred(R, U, P)
        ensures q in P
      {
        PreferredClosedUnderDefence(R, U, P);
      }
    } else {
      PeeledOmissions(R, U, G, q);
      PoolWrites(R, A, q);
      if AlwaysWritten(R, U, G, q) {
        forall schedule | Legal(R, A, q, INITIAL, schedule)
          ensures !Silent(Run(R, A, q, INITIAL, schedule))
        {
          if Silent(Run(R, A, q, INITIAL, schedule)) {
            assert Ends(R, A, q, schedule, false, NotWritten);
            assert Outcome(R, U, G, q, false, NotWritten);
          }
        }
      }
      if NeverSilent(R, A, q) {
        forall output | Outcome(R, U, G, q, false, output)
          ensures output.Written?
        {
          var schedule :| Ends(R, A, q, schedule, false, output);
        }
      }
    }
  }

  /** With no attacker hidden, a rejection comes with a written extension under every schedule exactly when the query does
      not attack itself, the grounded extension of its cone does not attack it, and each preferred extension of the whole
      framework that omits it attacks it. */
  lemma WitnessGuaranteed(R: Attacks, n: nat, q: int, G: set<int>)
    requires AttacksWithin(R, n) && q in Range(n) && Grounded(R, Cone(R, n, q), G)
    ensures AlwaysWritten(R, Cone(R, n, q), G, q) <==> WritesFor(R, Range(n), G, q)
  {
    ConeIsAttackerClosed(R, n, q);
    PeeledOffIsGrounded(R, n, Cone(R, n, q), G);
    PartWrites(R, Cone(R, n, q), G, q);
    PartOmissions(R, Range(n), Cone(R, n, q), q);
  }

  // ----- Each of the three branches -----

  /** A self-attacking query. */
  lemma SilentSelfAttack()
    ensures var R := {(1, 1)};
            Grounded(R, Cone(R, 1, 1), {}) && Outcome(R, Cone(R, 1, 1), {}, 1, false, NotWritten) && !Attacked(R, {}, 1)
  {
    var R := {(1, 1)};
    ReachesReflexive(R, 1);
    assert Cone(R, 1, 1) == {1};
    assert (1, 1) in R;
    assert !Defends(R, {1}, {}, 1);
  }

  /** Argument 1 attacks the query 2, and nothing attacks 1: no schedule of the pool would have been silent. */
  lemma SilentGroundedAttack()
    ensures var R := {(1, 2)};
            && Grounded(R, Cone(R, 2, 2), {1}) && (2, 2) !in R && OmissionsAttack(R, Range(2), 2)
            && forall accepted, output :: Outcome(R, Cone(R, 2, 2), {1}, 2, accepted, output) <==> !accepted && output == NotWritten
  {
    var R := {(1, 2)};
    var U := Cone(R, 2, 2);
    EdgeReaches(R, 1, 2);
    ReachesReflexive(R, 2);
    assert U == {1, 2};
    assert Attacked(R, {1}, 2);
    assert !Defends(R, U, {1}, 2) by {
      assert (1, 2) in R;
    }
    forall T | ClosedUnderDefence(R, U, T)
      ensures {1} <= T
    {
      assert Defends(R, U, T, 1);
    }
    forall P | Omits(R, Range(2), 2, P)
      ensures Attacked(R, P, 2)
    {
      PreferredClosedUnderDefence(R, Range(2), P);
      assert Defends(R, Range(2), P, 1);
      assert 1 in P && (1, 2) in R;
    }
  }

  /** Three arguments attacking each other in a circle: the pool itself rejects without an extension. */
  lemma SilentCircle()
    ensures var R := {(1, 2), (2, 3), (3, 1)};
            && Grounded(R, Cone(R, 3, 1), {}) && (1, 1) !in R && !Attacked(R, {}, 1)
            && Outcome(R, Cone(R, 3, 1), {}, 1, false, NotWritten)
  {
    hide Legal, Run, Omits, Grounded, Cone, Reduct;
    var R, A := {(1, 2), (2, 3), (3, 1)}, {1, 2, 3};
    CircleCone();
    CircleOmits();
    var schedule := SilentRun(R, A, 1, {});
    assert Ends(R, A, 1, schedule, false, NotWritten);
  }

  lemma CircleCone()
    ensures var R, A := {(1, 2), (2, 3), (3, 1)}, {1, 2, 3}; Cone(R, 3, 1) == A && Grounded(R, A, {})
  {
    var R, A := {(1, 2), (2, 3), (3, 1)}, {1, 2, 3};
    EdgeReaches(R, 3, 1);
    EdgeReaches(R, 2, 3);
    ReachesTransitive(R, 2, 3, 1);
    ReachesReflexive(R, 1);
    assert (3, 1) in R && (1, 2) in R && (2, 3) in R;
    assert !Defends(R, A, {}, 1) && !Defends(R, A, {}, 2) && !Defends(R, A, {}, 3);
  }

  lemma CircleOmits()
    ensures var R, A := {(1, 2), (2, 3), (3, 1)}, {1, 2, 3};
            Queryable(R, A, 1) && Omits(R, A, 1, {}) && Reduct(R, A, {}) == A
  {
    hide Admissible;
    OnlyEmptyInCircle();
    EmptyAdmissible({(1, 2), (2, 3), (3, 1)}, {1, 2, 3});
  }

  lemma EmptyAdmissible(R: Attacks, A: set<int>)
    ensures Admissible(R, A, {})
  {
  }

  lemma OnlyEmptyInCircle()
    ensures var R, A := {(1, 2), (2, 3), (3, 1)}, {1, 2, 3};
            forall T :: Admissible(R, A, T) ==> T == {}
  {
    var R, A := {(1, 2), (2, 3), (3, 1)}, {1, 2, 3};
    forall T | Admissible(R, A, T)
      ensures T == {}
    {
      assert forall a :: a in T ==> Defends(R, A, T, a);
      assert (3, 1) in R && (1, 2) in R && (2, 3) in R;
      assert 1 in T ==> Attacked(R, T, 3);
      assert 2 in T ==> Attacked(R, T, 1);
      assert 3 in T ==> Attacked(R, T, 2);
      assert 1 !in T && 2 !in T && 3 !in T;
    }
  }
}
