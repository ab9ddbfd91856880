module TaskBounds {
  // Every schedule of the task pool is finite: blocking a found set and all its supersets strictly shrinks what the
  // solver may still hand back, and a new task works on a strictly larger extension.

  import opened Sets
  import opened Semantics
  import opened TaskPool

  function Pow2(k: nat): nat {
    if k == 0 then 1 else 2 * Pow2(k - 1)
  }

  /** A bound on the steps of a task, and all tasks it leads to, with `k` arguments left. */
  function Budget(k: nat): nat {
    if k == 0 then 3 else 3 + Pow2(k) * (2 + Budget(k - 1))
  }

  /** What one found set may cost a task with `k` arguments left. */
  function SetCost(k: nat): nat {
    if k == 0 then 2 else 2 + Budget(k - 1)
  }

  ghost function Candidates(R: Attacks, A: set<int>, t: Task): set<set<int>> {
    set S | S <= Reduct(R, A, t.extension) && Candidate(R, A, t, S)
  }

  ghost function Left(A: set<int>, t: Task): nat {
    |A - t.extension|
  }

  /** The steps a task can still cause. */
  ghost function Weight(R: Attacks, A: set<int>, t: Task): nat {
    match t.phase
    case Finished => 0
    case Reporting(_) => 1
    case Searching => 1 + |Candidates(R, A, t)| * SetCost(Left(A, t))
    case Ready => 3 + |Candidates(R, A, t)| * SetCost(Left(A, t))
    case _ => 2 + |Candidates(R, A, t)| * SetCost(Left(A, t))
  }

  ghost function TotalWeight(R: Attacks, A: set<int>, tasks: seq<Task>): nat {
    if tasks == [] then 0 else Weight(R, A, tasks[0]) + TotalWeight(R, A, tasks[1..])
  }

  // ----- Counting subsets -----

  lemma {:induction false} ExtendedSetsCardinality(X: set<set<int>>, a: int)
    ensures |set S | S in X :: S + {a}| <= |X|
    decreases |X|
  {
    if X != {} {
      var T :| T in X;
      ExtendedSetsCardinality(X - {T}, a);
      assert (set S | S in X :: S + {a}) == (set S | S in X - {T} :: S + {a}) + {T + {a}};
    } else {
      assert (set S | S in X :: S + {a}) == {};
    }
  }

  ghost function Subsets(B: set<int>): set<set<int>> {
    set S | S <= B
  }

  lemma SubsetsSplit(B: set<int>, a: int)
    ensures Subsets(B) <= Subsets(B - {a}) + set S | S in Subsets(B - {a}) :: S + {a}
  {
    forall S | S in Subsets(B)
      ensures S in Subsets(B - {a}) + set T | T in Subsets(B - {a}) :: T + {a}
    {
      if a in S {
        assert S == (S - {a}) + {a} && S - {a} in Subsets(B - {a});
      }
    }
  }

  lemma {:induction false} SubsetsCardinality(B: set<int>)
    ensures |Subsets(B)| <= Pow2(|B|)
    decreases |B|
  {
    hide Subsets;
    if B == {} {
      OnlyEmptySubset();
      SubsetCardinality(Subsets({}), {{}});
    } else {
      var a := Member(B);
      SubsetsSplit(B, a);
      SubsetsCardinality(B - {a});
      ExtendedSetsCardinality(Subsets(B - {a}), a);
      SubsetCardinality(Subsets(B), Subsets(B - {a}) + set S | S in Subsets(B - {a}) :: S + {a});
    }
  }

  lemma OnlyEmptySubset()
    ensures Subsets({}) <= {{}}
  {
    assert forall S: set<int> :: S <= {} ==> S == {};
  }

  // ----- Weights -----

  lemma {:induction false} Pow2Monotone(j: nat, k: nat)
    requires j <= k
    ensures Pow2(j) <= Pow2(k)
    decreases k
  {
    if j < k { Pow2Monotone(j, k - 1); }
  }

  lemma {:induction false} BudgetMonotone(j: nat, k: nat)
    requires j <= k
    ensures Budget(j) <= Budget(k)
    decreases k
  {
    if j < k {
      BudgetMonotone(j, k - 1);
      Pow2Monotone(0, k);
      Product(Pow2(0), 2 + Budget(k - 1), Pow2(k), 2 + Budget(k - 1));
    }
  }

  lemma Product(a: nat, b: nat, c: nat, d: nat)
    requires a <= c && b <= d
    ensures a * b <= c * d
  {
  }

  lemma CandidatesBounded(R: Attacks, A: set<int>, t: Task)
    ensures |Candidates(R, A, t)| <= Pow2(Left(A, t))
    ensures Left(A, t) == 0 ==> |Candidates(R, A, t)| == 0
  {
    var B := Reduct(R, A, t.extension);
    assert Candidates(R, A, t) <= Subsets(B);
    SubsetCardinality(Candidates(R, A, t), Subsets(B));
    SubsetsCardinality(B);
    SubsetCardinality(B, A - t.extension);
    Pow2Monotone(|B|, Left(A, t));
    if Left(A, t) == 0 {
      assert A - t.extension == {} && B == {};
      assert Candidates(R, A, t) == {};
    }
  }

  lemma NewTaskWeight(R: Attacks, A: set<int>, E: set<int>)
    ensures Weight(R, A, Task(E, [], Ready)) <= Budget(|A - E|)
  {
    var t := Task(E, [], Ready);
    CandidatesBounded(R, A, t);
    var k := Left(A, t);
    if k > 0 {
      Product(|Candidates(R, A, t)|, SetCost(k), Pow2(k), SetCost(k));
    }
  }

  /** A found set strictly shrinks the candidates: it and its supersets are gone for good. */
  lemma BlockingShrinks(R: Attacks, A: set<int>, t: Task, S: set<int>, phase: Phase)
    requires Candidate(R, A, t, S)
    ensures |Candidates(R, A, t.(found := t.found + [S], phase := phase))| < |Candidates(R, A, t)|
  {
    var t' := t.(found := t.found + [S], phase := phase);
    assert S in Candidates(R, A, t);
    forall T | T in Candidates(R, A, t')
      ensures T in Candidates(R, A, t) - {S}
    {
      assert Unblocked(t'.found, T);
      assert !(t'.found[|t.found|] <= T);
      assert forall k :: 0 <= k < |t.found| ==> t'.found[k] == t.found[k];
    }
    SubsetCardinality(Candidates(R, A, t'), Candidates(R, A, t) - {S});
  }

  lemma FoundStepWeight(R: Attacks, A: set<int>, q: int, t: Task, S: set<int>)
    requires t.phase == Searching && Candidate(R, A, t, S)
    ensures Weight(R, A, TaskNext(R, A, q, t, false, SetFound(S)))
              + TotalWeight(R, A, Spawned(R, q, t, SetFound(S))) < Weight(R, A, t)
  {
    hide Candidates, Candidate, Admissible, Attacked, Reduct, SetCost, Budget;
    var t' := TaskNext(R, A, q, t, false, SetFound(S));
    var cost, rest := SetCost(Left(A, t)), |Candidates(R, A, t')|;
    BlockingShrinks(R, A, t, S, t'.phase);
    LessByOne(rest, |Candidates(R, A, t)|, cost);
    ChildWeight(R, A, t, S);
    assert Weight(R, A, t') <= 2 + rest * cost;
    assert TotalWeight(R, A, Spawned(R, q, t, SetFound(S))) + 2 <= cost by {
      assert [Task(t.extension + S, [], Ready)][1..] == [];
    }
    assert t'.phase == Polling || Spawned(R, q, t, SetFound(S)) == [];
  }

  lemma LessByOne(c': nat, c: nat, cost: nat)
    requires c' < c
    ensures c' * cost + cost <= c * cost
  {
    Product(c' + 1, cost, c, cost);
    assert (c' + 1) * cost == c' * cost + cost;
  }

  /** The new task costs less than the parent had set aside for one found set. */
  lemma ChildWeight(R: Attacks, A: set<int>, t: Task, S: set<int>)
    requires Candidate(R, A, t, S)
    ensures Weight(R, A, Task(t.extension + S, [], Ready)) + 2 <= SetCost(Left(A, t))
  {
    var E' := t.extension + S;
    var a :| a in S;
    assert a in A - t.extension && A - E' <= (A - t.extension) - {a};
    SubsetCardinality(A - E', (A - t.extension) - {a});
    NewTaskWeight(R, A, E');
    BudgetMonotone(|A - E'|, Left(A, t) - 1);
  }

  lemma SamePhaseWeight(R: Attacks, A: set<int>, t: Task, phase: Phase)
    ensures Candidates(R, A, t.(phase := phase)) == Candidates(R, A, t)
  {
  }

  lemma TaskStepWeight(R: Attacks, A: set<int>, q: int, t: Task, isRejected: bool, answer: Answer)
    requires t.phase != Finished && AnswerFits(R, A, t, answer)
    ensures Weight(R, A, TaskNext(R, A, q, t, isRejected, answer))
              + TotalWeight(R, A, Spawned(R, q, t, answer)) < Weight(R, A, t)
  {
    if answer.SetFound? {
      FoundStepWeight(R, A, q, t, answer.members);
    } else {
      SamePhaseWeight(R, A, t, TaskNext(R, A, q, t, isRejected, answer).phase);
    }
  }

  lemma {:induction false} TotalWeightUpdate(R: Attacks, A: set<int>, tasks: seq<Task>, i: nat, t: Task, more: seq<Task>)
    requires i < |tasks|
    ensures TotalWeight(R, A, tasks[i := t] + more) + Weight(R, A, tasks[i])
              == TotalWeight(R, A, tasks) + Weight(R, A, t) + TotalWeight(R, A, more)
    decreases i
  {
    var next := tasks[i := t] + more;
    if i == 0 {
      assert next[1..] == tasks[1..] + more;
      TotalWeightConcat(R, A, tasks[1..], more);
    } else {
      assert next[1..] == tasks[1..][i - 1 := t] + more;
      TotalWeightUpdate(R, A, tasks[1..], i - 1, t, more);
    }
  }

  lemma {:induction false} TotalWeightConcat(R: Attacks, A: set<int>, tasks: seq<Task>, more: seq<Task>)
    ensures TotalWeight(R, A, tasks + more) == TotalWeight(R, A, tasks) + TotalWeight(R, A, more)
  {
    if tasks == [] {
      assert tasks + more == more;
    } else {
      assert (tasks + more)[1..] == tasks[1..] + more;
      TotalWeightConcat(R, A, tasks[1..], more);
    }
  }

  /** Every step of every schedule uses up weight. */
  lemma StepUsesWeight(R: Attacks, A: set<int>, q: int, s: Pool, c: Choice)
    requires Enabled(R, A, s, c)
    ensures TotalWeight(R, A, Next(R, A, q, s, c).tasks) < TotalWeight(R, A, s.tasks)
  {
    var t := s.tasks[c.task];
    TaskStepWeight(R, A, q, t, s.isRejected, c.answer);
    TotalWeightUpdate(R, A, s.tasks, c.task, TaskNext(R, A, q, t, s.isRejected, c.answer), Spawned(R, q, t, c.answer));
  }

  lemma {:induction false} RunBounded(R: Attacks, A: set<int>, q: int, s: Pool, schedule: seq<Choice>)
    requires Legal(R, A, q, s, schedule)
    ensures |schedule| <= TotalWeight(R, A, s.tasks)
    decreases |schedule|
  {
    if schedule != [] {
      StepUsesWeight(R, A, q, s, schedule[0]);
      RunBounded(R, A, q, Next(R, A, q, s, schedule[0]), schedule[1..]);
    }
  }

  /** No schedule of the parallel search is longer than a bound that depends only on the number of
      active arguments. */
  lemma EveryScheduleTerminates(R: Attacks, A: set<int>, q: int, schedule: seq<Choice>)
    requires Legal(R, A, q, INITIAL, schedule)
    ensures |schedule| <= Budget(|A|)
  {
    RunBounded(R, A, q, INITIAL, schedule);
    NewTaskWeight(R, A, {});
    assert A - {} == A;
    assert INITIAL.tasks[1..] == [];
  }
}
