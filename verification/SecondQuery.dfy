module SecondQueries {
  // Several queries of one framework (src/logic/Tests.cpp): the marks of a search are cleared only when a framework is set
  // up, so a later search may take members of its cone for visited (src/logic/PreProcessor_DS_PR.cpp:17-32).

  import opened Sets
  import opened Graphs
  import opened Semantics
  import opened Framework
  import opened Cones
  import opened PreProcessor
  import TaskPool
  import opened Solvers

  /** On the part that the search finds the answer is the one for the whole framework. */
  ghost predicate RightAnswer(R: Attacks, n: nat, marks: seq<nat>, q: int) {
    ScepticallyAccepted(R, Found(R, n, marks, q), q) <==> ScepticallyAccepted(R, Range(n), q)
  }

  lemma UnhiddenIsRight(R: Attacks, n: nat, marks: seq<nat>, q: int)
    requires AttacksWithin(R, n) && q in Range(n) && Unhidden(R, n, marks, q)
    ensures RightAnswer(R, n, marks, q)
  {
    UnhiddenFinds(R, n, marks, q);
    ConeIsAttackerClosed(R, n, q);
    ConeDecides(R, Range(n), Cone(R, n, q), q);
  }

  /** The marks do no harm, whatever the attacks are, exactly when no argument but the query has one. */
  lemma RightForAllAttacks(n: nat, marks: seq<nat>, q: int)
    requires q in Range(n) && |marks| == n + 1
    ensures (forall R :: AttacksWithin(R, n) ==> RightAnswer(R, n, marks, q)) <==>
              forall a :: a in Range(n) && a != q ==> marks[a] == 0
  {
    if forall a :: a in Range(n) && a != q ==> marks[a] == 0 {
      forall R | AttacksWithin(R, n)
        ensures RightAnswer(R, n, marks, q)
      {
        UnhiddenIsRight(R, n, marks, q);
      }
    } else {
      var a :| a in Range(n) && a != q && marks[a] != 0;
      MarkedAttackerIsMissed(n, marks, q, a);
    }
  }

  /** A marked argument that alone attacks the query is not found. */
  lemma MarkedAttackerIsMissed(n: nat, marks: seq<nat>, q: int, a: int)
    requires q in Range(n) && |marks| == n + 1 && a in Range(n) && a != q && marks[a] != 0
    ensures AttacksWithin({(a, q)}, n) && !RightAnswer({(a, q)}, n, marks, q)
  {
    var R := {(a, q)};
    assert Visible(R, marks, q) == {};
    forall b, k: nat | Walk({}, b, q, k)
      ensures b == q
    {
    }
    ReachesReflexive({}, q);
    assert Found(R, n, marks, q) == {q};
    UnattackedAccepted(R, {q}, q);
    assert (a, q) in R;
    AttackingSetRejects(R, Range(n), {a}, q);
  }

  /** In the framework where 3 attacks 2 and 2 attacks 1, the marks left by a search for query 2. */
  const MARKS: seq<nat> := [0, 0, 0, 1]

  /** For a single framework the marks may be harmless although they hide a part of the cone: here two arguments attack the
      query, and one of them is enough. */
  lemma RightDespiteMarks()
    ensures var R := {(2, 1), (3, 1)}; !Unhidden(R, 3, MARKS, 1) && RightAnswer(R, 3, MARKS, 1)
  {
    var R := {(2, 1), (3, 1)};
    var V := Visible(R, MARKS, 1);
    EdgeReaches(R, 3, 1);
    assert 3 in Cone(R, 3, 1);
    assert (2, 1) in V && (2, 1) in R;
    EdgeReaches(V, 2, 1);
    assert 2 in Found(R, 3, MARKS, 1);
    AttackingSetRejects(R, Range(3), {2}, 1);
    AttackingSetRejects(R, Found(R, 3, MARKS, 1), {2}, 1);
  }

  // ----- A wrong answer -----

  lemma {:induction false} WalksToTwo(a: int, k: nat)
    ensures Walk({(3, 2), (2, 1)}, a, 2, k) <==> (a == 2 && k == 0) || (a == 3 && k == 1)
    decreases k
  {
    var R := {(3, 2), (2, 1)};
    if k > 0 {
      if b :| (a, b) in R && Walk(R, b, 2, k - 1) {
        WalksToTwo(b, k - 1);
      }
      if a == 3 && k == 1 {
        assert (a, 2) in R && Walk(R, 2, 2, 0);
      }
    }
  }

  lemma ConesOfBothSearches()
    ensures var R := {(3, 2), (2, 1)};
            && Cone(R, 3, 2) == {2, 3} && IsDistance(R, 2, 2, MARKS[2]) && IsDistance(R, 3, 2, MARKS[3])
            && Cone(Visible(R, MARKS, 1), 3, 1) == {1, 2}
  {
    var R := {(3, 2), (2, 1)};
    var V := Visible(R, MARKS, 1);
    assert V == {(2, 1)} by {
      assert (2, 1) in V && (3, 2) !in V;
    }
    forall a, k: nat
      ensures Walk(R, a, 2, k) <==> (a == 2 && k == 0) || (a == 3 && k == 1)
      ensures Walk(V, a, 1, k) <==> (a == 1 && k == 0) || (a == 2 && k == 1)
    {
      WalksToTwo(a, k);
    }
    assert Walk(R, 2, 2, 0) && Walk(R, 3, 2, 1) && Walk(V, 1, 1, 0) && Walk(V, 2, 1, 1);
    assert forall a :: InCone(R, a, 2) <==> a == 2 || a == 3;
    assert forall a :: InCone(V, a, 1) <==> a == 1 || a == 2;
  }

  /** The first search leaves those marks. */
  lemma FirstSearch(marks: seq<nat>, marks': seq<nat>)
    requires marks == [0, 0, 0, 0] && MarksAfter({(3, 2), (2, 1)}, 3, marks, 2, marks')
    ensures marks' == MARKS
  {
    var R := {(3, 2), (2, 1)};
    ConesOfBothSearches();
    assert Visible(R, marks, 2) == R;
    assert Found(R, 3, marks, 2) == {2, 3};
    assert marks'[0] == 0 && marks'[1] == 0;
    assert IsDistance(R, 2, 2, marks'[2]) && IsDistance(R, 3, 2, marks'[3]);
    assert IsDistance(R, 2, 2, MARKS[2]) && IsDistance(R, 3, 2, MARKS[3]);
  }

  lemma AcceptedButNotOnPart()
    ensures var R := {(3, 2), (2, 1)};
            ScepticallyAccepted(R, Range(3), 1) && !ScepticallyAccepted(R, Found(R, 3, MARKS, 1), 1)
  {
    var R := {(3, 2), (2, 1)};
    ConesOfBothSearches();
    forall P | Preferred(R, Range(3), P)
      ensures 1 in P
    {
      PreferredClosedUnderDefence(R, Range(3), P);
      assert Defends(R, Range(3), P, 3);
      assert (3, 2) in R;
      assert Defends(R, Range(3), P, 1);
    }
    assert (2, 1) in R;
    AttackingSetRejects(R, {1, 2}, {2}, 1);
  }

  /** Sets up that framework and asks for 2 and then for 1: the second answer is wrong. */
  method AskTwice() returns (framework: AF, first: bool, second: bool)
    ensures framework.Valid() && framework.attacks == {(3, 2), (2, 1)} && framework.numArgs == 3
    ensures first <==> ScepticallyAccepted(framework.attacks, framework.Arguments(), 2)
    ensures !second && ScepticallyAccepted(framework.attacks, framework.Arguments(), 1)
  {
    hide ScepticallyAccepted, Solvers.Answers, IsDistance, Found, Cone, MarksAfter;
    framework := new AF();
    framework.Initialize(3);
    var added := framework.AddAttack(3, 2);
    added := framework.AddAttack(2, 1);
    framework.FinishInitialization();
    ghost var R, marks := framework.attacks, framework.distanceToQuery[..];
    assert R == {(3, 2), (2, 1)} && marks == [0, 0, 0, 0];
    assert (3, 2) in R && (2, 1) in R;
    assert 3 in AttackersOf(R, 2) && 2 in AttackersOf(R, 1);
    AcceptedButNotOnPart();
    var proof;
    ghost var G, output;
    first, proof, G, output := Solve(2, framework, []);
    NoMarks(R, 3, marks, 2);
    FirstSearch(marks, framework.distanceToQuery[..]);
    second, proof, G, output := Solve(1, framework, []);
    AnswerOnPart(R, Found(R, 3, MARKS, 1), G, 1, second, output);
  }

  lemma NoMarks(R: Attacks, n: nat, marks: seq<nat>, q: int)
    requires |marks| == n + 1 && forall a :: 0 <= a <= n ==> marks[a] == 0
    ensures Unhidden(R, n, marks, q)
  {
  }

  lemma AnswerOnPart(R: Attacks, U: set<int>, G: set<int>, q: int, accepted: bool, output: TaskPool.Output)
    requires Solvers.Answers(R, U, G, q, accepted, output)
    ensures accepted <==> ScepticallyAccepted(R, U, q)
  {
  }
}
