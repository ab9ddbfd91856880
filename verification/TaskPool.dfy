module TaskPool {
  // The parallel search as a step relation (check_rejection_parallel_recursiv and check_rejection_parallel in
  // src/logic/Solver_DS_PR.cpp). A pool of tasks shares the rejection flag and the output extension. One step is the
  // part of a task's code up to and including its next access to shared state; which task steps next, and which set
  // the solver hands back, is free.

  import opened Semantics

  // ----- States and steps -----

  /** Where a task stands: created; clauses built; about to ask the solver; about to read the flag at
      the end of an iteration; about to write the output extension; returned. */
  datatype Phase = Ready | Encoded | Searching | Polling | Reporting(extension: set<int>) | Finished

  /** A task grows `extension`; `found` lists the sets it has blocked together with their supersets. */
  datatype Task = Task(extension: set<int>, found: seq<set<int>>, phase: Phase)

  datatype Output = NotWritten | Written(extension: set<int>)

  datatype Pool = Pool(tasks: seq<Task>, isRejected: bool, output: Output)

  datatype Answer = NoSet | SetFound(members: set<int>)

  datatype Choice = Choice(task: nat, answer: Answer)

  ghost predicate Unblocked(found: seq<set<int>>, S: set<int>) {
    forall k :: 0 <= k < |found| ==> !(found[k] <= S)
  }

  /** The sets the solver may hand back to a task. */
  ghost predicate Candidate(R: Attacks, A: set<int>, t: Task, S: set<int>) {
    S != {} && Admissible(R, Reduct(R, A, t.extension), S) && Unblocked(t.found, S)
  }

  ghost predicate AnswerFits(R: Attacks, A: set<int>, t: Task, answer: Answer) {
    match answer
    case NoSet => t.phase == Searching ==> forall S :: !Candidate(R, A, t, S)
    case SetFound(S) => t.phase == Searching && Candidate(R, A, t, S)
  }

  ghost predicate Enabled(R: Attacks, A: set<int>, s: Pool, c: Choice) {
    c.task < |s.tasks| && s.tasks[c.task].phase != Finished && AnswerFits(R, A, s.tasks[c.task], c.answer)
  }

  /** The task after its step. */
  ghost function TaskNext(R: Attacks, A: set<int>, q: int, t: Task, isRejected: bool, answer: Answer): Task {
    match t.phase
    case Ready =>
      t.(phase := if isRejected || |Reduct(R, A, t.extension)| < 2 then Finished else Encoded)
    case Encoded => t.(phase := if isRejected then Finished else Searching)
    case Searching =>
      (match answer
       case NoSet => t.(phase := Finished)
       case SetFound(S) =>
         t.(found := t.found + [S],
            phase := if Attacked(R, S, q) then Reporting(t.extension + S)
                     else if q in S then Searching
                     else Polling))
    case Polling => t.(phase := if isRejected then Finished else Searching)
    case Reporting(_) => t.(phase := Finished)
    case Finished => t
  }

  ghost function Spawned(R: Attacks, q: int, t: Task, answer: Answer): seq<Task> {
    if t.phase == Searching && answer.SetFound? && !Attacked(R, answer.members, q) && q !in answer.members
    then [Task(t.extension + answer.members, [], Ready)]
    else []
  }

  /** Whether the step sets the flag: the first answer is "no set", or the found set attacks `q`. */
  ghost predicate Rejects(R: Attacks, q: int, t: Task, answer: Answer) {
    && t.phase == Searching
    && match answer
       case NoSet => t.found == []
       case SetFound(S) => Attacked(R, S, q)
  }

  ghost function Next(R: Attacks, A: set<int>, q: int, s: Pool, c: Choice): Pool
    requires Enabled(R, A, s, c)
  {
    var t := s.tasks[c.task];
    Pool(s.tasks[c.task := TaskNext(R, A, q, t, s.isRejected, c.answer)] + Spawned(R, q, t, c.answer),
         s.isRejected || Rejects(R, q, t, c.answer),
         if t.phase.Reporting? then Written(t.phase.extension) else s.output)
  }

  ghost predicate AllFinished(s: Pool) {
    forall i :: 0 <= i < |s.tasks| ==> s.tasks[i].phase == Finished
  }

  /** The pool when the parallel region starts. */
  const INITIAL := Pool([Task({}, [], Ready)], false, NotWritten)

  /** A schedule: every choice is enabled when its turn comes. */
  ghost predicate Legal(R: Attacks, A: set<int>, q: int, s: Pool, schedule: seq<Choice>)
    decreases |schedule|
  {
    schedule == [] ||
    (Enabled(R, A, s, schedule[0]) && Legal(R, A, q, Next(R, A, q, s, schedule[0]), schedule[1..]))
  }

  ghost function Run(R: Attacks, A: set<int>, q: int, s: Pool, schedule: seq<Choice>): Pool
    requires Legal(R, A, q, s, schedule)
    decreases |schedule|
  {
    if schedule == [] then s else Run(R, A, q, Next(R, A, q, s, schedule[0]), schedule[1..])
  }

  /** One more step of a run. */
  lemma {:induction false} RunAppend(R: Attacks, A: set<int>, q: int, s: Pool, schedule: seq<Choice>, c: Choice)
    requires Legal(R, A, q, s, schedule) && Enabled(R, A, Run(R, A, q, s, schedule), c)
    ensures Legal(R, A, q, s, schedule + [c])
    ensures Run(R, A, q, s, schedule + [c]) == Next(R, A, q, Run(R, A, q, s, schedule), c)
    decreases |schedule|
  {
    hide Enabled, Next;
    if schedule == [] {
      assert [] + [c] == [c] && [c][1..] == [];
    } else {
      assert (schedule + [c])[1..] == schedule[1..] + [c] && (schedule + [c])[0] == schedule[0];
      RunAppend(R, A, q, Next(R, A, q, s, schedule[0]), schedule[1..], c);
    }
  }

  // ----- The invariant -----

  ghost predicate Enumerates(R: Attacks, A: set<int>, t: Task) {
    forall k :: 0 <= k < |t.found| ==>
      && t.found[k] != {} && Admissible(R, Reduct(R, A, t.extension), t.found[k])
      && Unblocked(t.found[..k], t.found[k])
  }

  ghost predicate TaskSound(R: Attacks, A: set<int>, q: int, t: Task) {
    && Admissible(R, A, t.extension) && q !in t.extension && !Attacked(R, t.extension, q)
    && Enumerates(R, A, t)
    && (t.phase in {Ready, Encoded} ==> t.found == [])
    && (t.phase == Polling ==> t.found != [])
    && (t.phase.Reporting? ==> Witness(R, A, q, t.phase.extension))
  }

  /** An extension that proves the rejection. */
  ghost predicate Witness(R: Attacks, A: set<int>, q: int, E: set<int>) {
    Admissible(R, A, E) && Attacked(R, E, q)
  }

  /** Preferred extensions that reject the query. */
  ghost predicate Omits(R: Attacks, A: set<int>, q: int, P: set<int>) {
    Preferred(R, A, P) && q !in P
  }

  /** The task can still reach `P`: it grows a part of `P` and has blocked no part of the rest. */
  ghost predicate Covers(t: Task, P: set<int>) {
    t.phase in {Ready, Encoded, Searching, Polling} && t.extension <= P && Unblocked(t.found, P)
  }

  ghost predicate AllCovered(R: Attacks, A: set<int>, q: int, tasks: seq<Task>) {
    forall P :: Omits(R, A, q, P) ==> exists i :: 0 <= i < |tasks| && Covers(tasks[i], P)
  }

  ghost predicate Invariant(R: Attacks, A: set<int>, q: int, s: Pool) {
    && (forall i :: 0 <= i < |s.tasks| ==> TaskSound(R, A, q, s.tasks[i]))
    && (s.isRejected ==> !ScepticallyAccepted(R, A, q))
    && (!s.isRejected ==> AllCovered(R, A, q, s.tasks))
    && (s.output.Written? ==> s.isRejected && Witness(R, A, q, s.output.extension))
    && (forall i :: 0 <= i < |s.tasks| && s.tasks[i].phase.Reporting? ==> s.isRejected)
  }

  ghost predicate Queryable(R: Attacks, A: set<int>, q: int) {
    q in A && (q, q) !in R
  }

  lemma InvariantInitially(R: Attacks, A: set<int>, q: int)
    ensures Invariant(R, A, q, INITIAL)
  {
    forall P | Omits(R, A, q, P)
      ensures Covers(INITIAL.tasks[0], P)
    {
    }
  }

  // ----- Why dropping a task loses nothing -----

  /** A reduct of fewer than two arguments holds the query alone, so every preferred extension above
      the task's extension contains the query. */
  lemma SmallReductCoversNothing(R: Attacks, A: set<int>, q: int, t: Task, P: set<int>)
    requires Queryable(R, A, q) && TaskSound(R, A, q, t)
    requires |Reduct(R, A, t.extension)| < 2
    ensures q in Reduct(R, A, t.extension)
    ensures !(Omits(R, A, q, P) && t.extension <= P)
  {
    var E, B := t.extension, Reduct(R, A, t.extension);
    assert q in B && |B - {q}| == 0;
    if Omits(R, A, q, P) && E <= P {
      SupersetSplits(R, A, E, P);
      assert P - E <= B - {q};
      assert Admissible(R, B, {q}) by {
        forall b | b in B
          ensures b == q
        {
          assert b !in B - {q};
        }
      }
      Modularisation(R, A, E, {q});
      assert false;
    }
  }

  /** When the first answer is "no set", the extension is preferred as it stands. */
  lemma NothingToAddIsPreferred(R: Attacks, A: set<int>, E: set<int>)
    requires Admissible(R, A, E)
    requires forall S :: S != {} ==> !Admissible(R, Reduct(R, A, E), S)
    ensures Preferred(R, A, E)
  {
    forall T | Admissible(R, A, T) && E <= T
      ensures T == E
    {
      SupersetSplits(R, A, E, T);
      Modularisation(R, A, E, T - E);
    }
  }

  /** When a later answer is "no set", everything above the extension contains a blocked set: blocking
      a set with all its supersets has lost no preferred extension. */
  lemma ExhaustedCoversNothing(R: Attacks, A: set<int>, q: int, t: Task, P: set<int>)
    requires TaskSound(R, A, q, t) && t.found != []
    requires forall S :: !Candidate(R, A, t, S)
    ensures !(Preferred(R, A, P) && t.extension <= P && Unblocked(t.found, P))
  {
    var E := t.extension;
    if Preferred(R, A, P) && E <= P && Unblocked(t.found, P) {
      PreferredModularisation(R, A, E, P);
      assert Unblocked(t.found, P - E);
      assert !Candidate(R, A, t, P - E);
      assert P - E == {} && E + (P - E) == P;
      Modularisation(R, A, E, t.found[0]);
      assert false;
    }
  }

  /** A found set splits the extensions a task covers: those that contain it go to the new task. */
  lemma FoundSetSplitsCover(R: Attacks, A: set<int>, q: int, t: Task, S: set<int>, P: set<int>)
    requires TaskSound(R, A, q, t) && t.phase == Searching && Candidate(R, A, t, S)
    requires Omits(R, A, q, P) && Covers(t, P) && !Attacked(R, S, q)
    ensures q !in S && S <= P ==> Covers(Task(t.extension + S, [], Ready), P)
    ensures !(S <= P) ==> Unblocked(t.found + [S], P)
    ensures q in S ==> !(S <= P)
  {
  }

  // ----- Steps keep the invariant -----

  lemma EnumeratesMore(R: Attacks, A: set<int>, t: Task, S: set<int>, phase: Phase)
    requires Enumerates(R, A, t) && Candidate(R, A, t, S)
    ensures Enumerates(R, A, t.(found := t.found + [S], phase := phase))
  {
    hide Admissible;
    var found := t.found + [S];
    forall k | 0 <= k < |found|
      ensures Unblocked(found[..k], found[k])
    {
      assert found[..k] == t.found[..k];
      assert t.found[..|t.found|] == t.found;
    }
  }

  lemma FoundTaskSound(R: Attacks, A: set<int>, q: int, t: Task, S: set<int>)
    requires TaskSound(R, A, q, t) && t.phase == Searching && Candidate(R, A, t, S)
    ensures Admissible(R, A, t.extension + S)
    ensures TaskSound(R, A, q, TaskNext(R, A, q, t, false, SetFound(S)))
    ensures !Attacked(R, S, q) && q !in S ==> TaskSound(R, A, q, Task(t.extension + S, [], Ready))
  {
    hide Enumerates, Admissible;
    assert Admissible(R, Reduct(R, A, t.extension), S) && S <= Reduct(R, A, t.extension) by {
      CandidateParts(R, A, t, S);
    }
    Modularisation(R, A, t.extension, S);
    var t' := TaskNext(R, A, q, t, false, SetFound(S));
    EnumeratesMore(R, A, t, S, t'.phase);
    NothingEnumerated(R, A, Task(t.extension + S, [], Ready));
    if Attacked(R, S, q) {
      AttackedMonotone(R, S, t.extension + S, q);
    }
  }

  lemma CandidateParts(R: Attacks, A: set<int>, t: Task, S: set<int>)
    requires Candidate(R, A, t, S)
    ensures Admissible(R, Reduct(R, A, t.extension), S) && S <= Reduct(R, A, t.extension)
  {
  }

  lemma NothingEnumerated(R: Attacks, A: set<int>, t: Task)
    requires t.found == []
    ensures Enumerates(R, A, t)
  {
  }

  lemma TaskNextSound(R: Attacks, A: set<int>, q: int, t: Task, isRejected: bool, answer: Answer)
    requires TaskSound(R, A, q, t) && AnswerFits(R, A, t, answer)
    ensures TaskSound(R, A, q, TaskNext(R, A, q, t, isRejected, answer))
    ensures forall u :: u in Spawned(R, q, t, answer) ==> TaskSound(R, A, q, u)
    ensures Rejects(R, q, t, answer) ==> !ScepticallyAccepted(R, A, q)
  {
    if t.phase == Searching {
      match answer
      case NoSet =>
        if t.found == [] {
          forall S | S != {}
            ensures !Admissible(R, Reduct(R, A, t.extension), S)
          {
            assert !Candidate(R, A, t, S);
          }
          NothingToAddIsPreferred(R, A, t.extension);
        }
      case SetFound(S) =>
        FoundTaskSound(R, A, q, t, S);
        if Attacked(R, S, q) {
          AttackedMonotone(R, S, t.extension + S, q);
          AttackingSetRejects(R, A, t.extension + S, q);
        }
    }
  }

  /** While the flag stays unset, whatever a task covers is covered by it or by its new task after
      the step. */
  lemma StepKeepsCover(R: Attacks, A: set<int>, q: int, t: Task, answer: Answer, P: set<int>)
    requires Queryable(R, A, q) && TaskSound(R, A, q, t) && AnswerFits(R, A, t, answer)
    requires Omits(R, A, q, P) && Covers(t, P) && !Rejects(R, q, t, answer)
    ensures Covers(TaskNext(R, A, q, t, false, answer), P) ||
            (Spawned(R, q, t, answer) != [] && Covers(Spawned(R, q, t, answer)[0], P))
  {
    match t.phase
    case Ready =>
      if |Reduct(R, A, t.extension)| < 2 {
        SmallReductCoversNothing(R, A, q, t, P);
      }
    case Searching =>
      if answer == NoSet {
        ExhaustedCoversNothing(R, A, q, t, P);
      } else {
        FoundSetSplitsCover(R, A, q, t, answer.members, P);
      }
    case _ =>
  }

  lemma StepKeepsInvariant(R: Attacks, A: set<int>, q: int, s: Pool, c: Choice)
    requires Queryable(R, A, q) && Invariant(R, A, q, s) && Enabled(R, A, s, c)
    ensures Invariant(R, A, q, Next(R, A, q, s, c))
  {
    var t, s' := s.tasks[c.task], Next(R, A, q, s, c);
    TaskNextSound(R, A, q, t, s.isRejected, c.answer);
    assert forall i :: 0 <= i < |s'.tasks| ==>
        s'.tasks[i] == (if i == c.task then TaskNext(R, A, q, t, s.isRejected, c.answer)
                        else if i < |s.tasks| then s.tasks[i]
                        else Spawned(R, q, t, c.answer)[i - |s.tasks|]);
    if !s'.isRejected {
      forall P | Omits(R, A, q, P)
        ensures exists i :: 0 <= i < |s'.tasks| && Covers(s'.tasks[i], P)
      {
        var i :| 0 <= i < |s.tasks| && Covers(s.tasks[i], P);
        if i == c.task {
          StepKeepsCover(R, A, q, t, c.answer, P);
          if Covers(s'.tasks[i], P) {
          } else {
            assert Covers(s'.tasks[|s.tasks|], P);
          }
        } else {
          assert Covers(s'.tasks[i], P);
        }
      }
    }
  }

  lemma {:induction false} RunKeepsInvariant(R: Attacks, A: set<int>, q: int, s: Pool, schedule: seq<Choice>)
    requires Queryable(R, A, q) && Invariant(R, A, q, s) && Legal(R, A, q, s, schedule)
    ensures Invariant(R, A, q, Run(R, A, q, s, schedule))
    decreases |schedule|
  {
    if schedule != [] {
      StepKeepsInvariant(R, A, q, s, schedule[0]);
      RunKeepsInvariant(R, A, q, Next(R, A, q, s, schedule[0]), schedule[1..]);
    }
  }

  // ----- Every schedule gives the verdict -----

  lemma FinishedDecides(R: Attacks, A: set<int>, q: int, s: Pool)
    requires Invariant(R, A, q, s) && AllFinished(s)
    ensures s.isRejected <==> !ScepticallyAccepted(R, A, q)
  {
    if !s.isRejected {
      forall P | Preferred(R, A, P)
        ensures q in P
      {
        assert Omits(R, A, q, P) <==> q !in P;
      }
    }
  }

  /** Whatever order the tasks run in and whatever sets the solver picks: once every task has
      returned, the flag is set exactly when some preferred extension omits the query, and any
      extension written proves it. */
  lemma EveryScheduleDecides(R: Attacks, A: set<int>, q: int, schedule: seq<Choice>)
    requires Queryable(R, A, q) && Legal(R, A, q, INITIAL, schedule)
    ensures var final := Run(R, A, q, INITIAL, schedule);
            && (AllFinished(final) ==> (final.isRejected <==> !ScepticallyAccepted(R, A, q)))
            && (final.isRejected ==> !ScepticallyAccepted(R, A, q))
            && (final.output.Written? ==> Witness(R, A, q, final.output.extension))
  {
    InvariantInitially(R, A, q);
    RunKeepsInvariant(R, A, q, INITIAL, schedule);
    var final := Run(R, A, q, INITIAL, schedule);
    if AllFinished(final) {
      FinishedDecides(R, A, q, final);
    }
  }

  /** No pool is ever stuck. */
  lemma Progress(R: Attacks, A: set<int>, s: Pool)
    requires !AllFinished(s)
    ensures exists c :: Enabled(R, A, s, c)
  {
    var i :| 0 <= i < |s.tasks| && s.tasks[i].phase != Finished;
    var t := s.tasks[i];
    if S :| t.phase == Searching && Candidate(R, A, t, S) {
      assert Enabled(R, A, s, Choice(i, SetFound(S)));
    } else {
      assert Enabled(R, A, s, Choice(i, NoSet));
    }
  }
}
